/**
 Starting and stopping VMs: which backend a start may use, and who owns the network manager at
 every moment. Calls to StartVM and StopVM interleave freely and any component may fail.
 */
module VmLifecycle {
  import opened Common

  // ----- Choosing a backend -----

  datatype BackendMode = AutoBackend | HostBackend | VmBackend

  /** What the VM backend factory returns: a backend, "unavailable", or another error. */
  datatype VmAttempt = VmStarted | VmUnavailable | VmBroken

  datatype Choice = UseVm | UseHost | Refuse

  /** The branches of newVM after the network manager is ready. */
  function Choose(strict: bool, mode: BackendMode, vm: VmAttempt, hostOk: bool): Choice {
    if strict && mode == HostBackend then Refuse
    else if mode == VmBackend || mode == AutoBackend then
      if vm == VmStarted then UseVm
      else if mode == VmBackend then Refuse
      else if vm != VmUnavailable then Refuse
      else if strict then Refuse
      else if hostOk then UseHost else Refuse
    else if hostOk then UseHost else Refuse
  }

  /**
   The host backend is used exactly when the request is not strict, the host backend works, and
   either it was asked for or automatic choice found no VM to use; a VM is used exactly when
   one was tried and came up.
   */
  lemma ChoiceExact(strict: bool, mode: BackendMode, vm: VmAttempt, hostOk: bool)
    ensures Choose(strict, mode, vm, hostOk) == UseHost
            <==> !strict && hostOk && (mode == HostBackend || (mode == AutoBackend && vm == VmUnavailable))
    ensures Choose(strict, mode, vm, hostOk) == UseVm <==> mode != HostBackend && vm == VmStarted
  {
  }

  // ----- The system -----

  /** A network manager: its proxy, the strict transport it may have, and the Close calls on each. */
  datatype Manager = Manager(proxyCloses: nat, transport: bool, transportCloses: nat, closeCalls: nat)

  /** How far a StartVM or StopVM call has come. net is the manager it holds. */
  datatype Phase =
    | Starting                              // before newNetworkManager has made anything
    | ProxyUp(net: nat)                     // strict: proxy made, transport still to come
    | NetReady(holding: Option<nat>)        // newNetworkManager returned
    | Refusing(holding: Option<nat>)        // an error was met; the network is still open
    | Built(holding: Option<nat>, onHost: bool)
    | StartFailed
    | Started
    | Removed(holding: Option<nat>)         // StopVM: out of the table, to be closed
    | Stopped

  /**
   made, transport and host record what the call has done: the manager it made, whether a strict
   transport came with it, and the backend it took.
   */
  datatype Call = Call(strict: bool, phase: Phase, made: Option<nat>, transport: Option<bool>, host: Option<bool>)

  datatype Vm = Vm(net: Option<nat>, onHost: bool, strict: bool)

  /**
   Calls and managers are numbered in creation order; a VM has the number of the call that
   started it. stopped records the VMs taken out of the table.
   */
  datatype State = State(calls: seq<Call>, managers: seq<Manager>, vms: map<nat, Vm>, stopped: set<nat>)

  datatype Action =
    | BeginStart(strict: bool)
    | Reject(c: nat)                        // bad policy or secrets, or no proxy
    | SkipNetwork(c: nat)                   // nothing asks for a proxy
    | MakeProxy(c: nat)
    | TransportFails(c: nat)
    | TransportReady(c: nat, transport: bool)
    | ChooseBackend(c: nat, mode: BackendMode, vm: VmAttempt, hostOk: bool)
    | CloseRefused(c: nat)
    | Insert(c: nat)
    | BeginStop(id: nat)
    | CloseStopped(c: nat)

  function Initial(): State {
    State([], [], map[], {})
  }

  predicate Known(s: State, c: nat) {
    c < |s.calls|
  }

  predicate Enabled(s: State, a: Action) {
    match a
    case BeginStart(_) => true
    case Reject(c) => Known(s, c) && s.calls[c].phase == Starting
    case SkipNetwork(c) => Known(s, c) && s.calls[c].phase == Starting && !s.calls[c].strict
    case MakeProxy(c) => Known(s, c) && s.calls[c].phase == Starting
    case TransportFails(c) => Known(s, c) && s.calls[c].phase.ProxyUp? && s.calls[c].phase.net < |s.managers|
    case TransportReady(c, _) => Known(s, c) && s.calls[c].phase.ProxyUp? && s.calls[c].phase.net < |s.managers|
    case ChooseBackend(c, _, _, _) => Known(s, c) && s.calls[c].phase.NetReady?
    case CloseRefused(c) => Known(s, c) && s.calls[c].phase.Refusing?
    case Insert(c) => Known(s, c) && s.calls[c].phase.Built?
    case BeginStop(_) => true
    case CloseStopped(c) => Known(s, c) && s.calls[c].phase.Removed?
  }

  function Renew(s: State, c: nat, call: Call): State
    requires Known(s, c)
  {
    s.(calls := s.calls[c := call])
  }

  function Move(s: State, c: nat, phase: Phase): State
    requires Known(s, c)
  {
    Renew(s, c, s.calls[c].(phase := phase))
  }

  /** networkManager.Close: runs its body once, whoever calls and however often. */
  function CloseManager(m: Manager): Manager {
    if m.closeCalls > 0 then m.(closeCalls := m.closeCalls + 1)
    else m.(closeCalls := 1, proxyCloses := m.proxyCloses + 1,
            transportCloses := if m.transport then m.transportCloses + 1 else m.transportCloses)
  }

  function CloseHeld(ms: seq<Manager>, net: Option<nat>): (r: seq<Manager>)
    ensures |r| == |ms|
  {
    if net.Some? && net.value < |ms| then ms[net.value := CloseManager(ms[net.value])] else ms
  }

  function Step(s: State, a: Action): State
    requires Enabled(s, a)
  {
    match a
    case BeginStart(strict) => s.(calls := s.calls + [Call(strict, Starting, None, None, None)])
    case Reject(c) => Move(s, c, StartFailed)
    case SkipNetwork(c) => Move(s, c, NetReady(None))
    case MakeProxy(c) =>
      var m, call := |s.managers|, s.calls[c];
      var phase := if call.strict then ProxyUp(m) else NetReady(Some(m));
      s.(managers := s.managers + [Manager(0, false, 0, 0)], calls := s.calls[c := call.(phase := phase, made := Some(m))])
    case TransportFails(c) =>
      var m := s.calls[c].phase.net;
      Move(s, c, StartFailed).(managers := s.managers[m := s.managers[m].(proxyCloses := s.managers[m].proxyCloses + 1)])
    case TransportReady(c, transport) =>
      var m := s.calls[c].phase.net;
      Renew(s, c, s.calls[c].(phase := NetReady(Some(m)), transport := Some(transport)))
      .(managers := s.managers[m := s.managers[m].(transport := transport)])
    case ChooseBackend(c, mode, vm, hostOk) =>
      var net := s.calls[c].phase.holding;
      (match Choose(s.calls[c].strict, mode, vm, hostOk)
       case UseVm => Renew(s, c, s.calls[c].(phase := Built(net, false), host := Some(false)))
       case UseHost => Renew(s, c, s.calls[c].(phase := Built(net, true), host := Some(true)))
       case Refuse => Move(s, c, Refusing(net)))
    case CloseRefused(c) =>
      Move(s, c, StartFailed).(managers := CloseHeld(s.managers, s.calls[c].phase.holding))
    case Insert(c) =>
      var p := s.calls[c].phase;
      Move(s, c, Started).(vms := s.vms[c := Vm(p.holding, p.onHost, s.calls[c].strict)])
    case BeginStop(id) =>
      if id !in s.vms then s
      else s.(vms := s.vms - {id}, stopped := s.stopped + {id},
              calls := s.calls + [Call(s.vms[id].strict, Removed(s.vms[id].net), None, None, None)])
    case CloseStopped(c) =>
      Move(s, c, Stopped).(managers := CloseHeld(s.managers, s.calls[c].phase.holding))
  }

  // ----- Who holds a manager -----

  function Held(p: Phase): Option<nat> {
    match p
    case ProxyUp(m) => Some(m)
    case NetReady(h) => h
    case Refusing(h) => h
    case Built(h, _) => h
    case Removed(h) => h
    case _ => None
  }

  /** A call in flight, or a VM in the table. */
  datatype Holder = ByCall(c: nat) | ByVm(id: nat)

  /** The manager a holder holds. */
  function NetOf(s: State, h: Holder): Option<nat> {
    match h
    case ByCall(c) => if c < |s.calls| then Held(s.calls[c].phase) else None
    case ByVm(id) => if id in s.vms then s.vms[id].net else None
  }

  predicate Open(m: Manager) {
    m.proxyCloses == 0 && m.transportCloses == 0 && m.closeCalls == 0
  }

  /** Proxy closed once, transport closed once if there was one, Close called at most once. */
  predicate Shut(m: Manager) {
    m.proxyCloses == 1 && m.closeCalls <= 1 && m.transportCloses == if m.transport then 1 else 0
  }

  /** Held managers are open and held once; all others are shut. */
  ghost predicate Owned(s: State) {
    && (forall h :: NetOf(s, h).Some? ==> NetOf(s, h).value < |s.managers| && Open(s.managers[NetOf(s, h).value]))
    && (forall h, g :: NetOf(s, h).Some? && NetOf(s, h) == NetOf(s, g) ==> h == g)
    && (forall m :: 0 <= m < |s.managers| ==> Shut(s.managers[m]) || Claimed(s, m))
  }

  ghost predicate Claimed(s: State, m: nat) {
    exists h :: NetOf(s, h) == Some(m)
  }

  /** From s to s' only the holder h changed what it holds. */
  ghost predicate OnlyHolder(s: State, s': State, h: Holder) {
    forall k :: k != h ==> NetOf(s', k) == NetOf(s, k)
  }

  lemma OwnedSame(s: State, s': State, h: Holder)
    requires Owned(s) && s'.managers == s.managers && OnlyHolder(s, s', h) && NetOf(s', h) == NetOf(s, h)
    ensures Owned(s')
  {
  }

  lemma OwnedMove(s: State, s': State, h: Holder, g: Holder)
    requires Owned(s) && s'.managers == s.managers && NetOf(s, h).Some? && NetOf(s, g).None? && h != g
    requires NetOf(s', h).None? && NetOf(s', g) == NetOf(s, h)
    requires forall k :: k != h && k != g ==> NetOf(s', k) == NetOf(s, k)
    ensures Owned(s')
  {
  }

  lemma OwnedAcquire(s: State, s': State, h: Holder)
    requires Owned(s) && s'.managers == s.managers + [Manager(0, false, 0, 0)] && OnlyHolder(s, s', h)
    requires NetOf(s, h).None? && NetOf(s', h) == Some(|s.managers|)
    ensures Owned(s')
  {
  }

  lemma OwnedRelease(s: State, s': State, h: Holder, shut: Manager)
    requires Owned(s) && NetOf(s, h).Some? && Shut(shut) && OnlyHolder(s, s', h) && NetOf(s', h).None?
    requires s'.managers == s.managers[NetOf(s, h).value := shut]
    ensures Owned(s')
  {
  }

  lemma OwnedTouch(s: State, s': State, h: Holder, open: Manager)
    requires Owned(s) && NetOf(s, h).Some? && Open(open) && OnlyHolder(s, s', h) && NetOf(s', h) == NetOf(s, h)
    requires s'.managers == s.managers[NetOf(s, h).value := open]
    ensures Owned(s')
  {
  }

  // ----- Invariant -----

  /** A strict start never ends on the host; a failed start has shut whatever it made. */
  ghost predicate CallOk(call: Call, ms: seq<Manager>) {
    && (call.phase == Starting ==> call.made.None?)
    && (call.made.Some? ==> call.made.value < |ms|)
    && (call.phase.ProxyUp? ==> call.made == Some(call.phase.net) && !ms[call.phase.net].transport)
    && (call.phase.NetReady? || call.phase.Refusing? || call.phase.Built? ==> call.phase.holding == call.made)
    && (call.phase.Built? && call.strict ==> !call.phase.onHost)
    && (call.phase == StartFailed && call.made.Some? ==> Shut(ms[call.made.value]))
  }

  ghost predicate Inv(s: State) {
    && Owned(s)
    && (forall c :: 0 <= c < |s.calls| ==> CallOk(s.calls[c], s.managers))
    && (forall id :: id in s.vms ==> id < |s.calls| && s.calls[id].phase == Started && !(s.vms[id].strict && s.vms[id].onHost))
  }

  /** Managers only ever change from open to open or from open to shut. */
  ghost predicate Evolves(ms: seq<Manager>, ms': seq<Manager>) {
    && |ms| <= |ms'|
    && forall m :: 0 <= m < |ms| ==> ms'[m] == ms[m] || Open(ms[m])
  }

  lemma CallStays(call: Call, ms: seq<Manager>, ms': seq<Manager>)
    requires CallOk(call, ms) && Evolves(ms, ms')
    requires call.phase.ProxyUp? ==> ms'[call.phase.net] == ms[call.phase.net]
    ensures CallOk(call, ms')
  {
  }

  /** The calls keep their facts when only call c and the manager it holds change. */
  lemma CallsStay(s: State, c: nat, s': State)
    requires Inv(s) && c < |s.calls| == |s'.calls| && Evolves(s.managers, s'.managers)
    requires s'.calls == s.calls[c := s'.calls[c]] && CallOk(s'.calls[c], s'.managers)
    requires forall m :: 0 <= m < |s.managers| && s'.managers[m] != s.managers[m] ==> NetOf(s, ByCall(c)) == Some(m)
    ensures forall d :: 0 <= d < |s'.calls| ==> CallOk(s'.calls[d], s'.managers)
  {
    forall d | 0 <= d < |s.calls| && d != c
      ensures CallOk(s.calls[d], s'.managers)
    {
      assert CallOk(s.calls[d], s.managers);
      if s.calls[d].phase.ProxyUp? {
        assert NetOf(s, ByCall(d)) == Some(s.calls[d].phase.net);
      }
      CallStays(s.calls[d], s.managers, s'.managers);
    }
  }

  /** A step of call c alone: what remains to be shown about it. */
  lemma CallStep(s: State, c: nat, s': State)
    requires Inv(s) && c < |s.calls| == |s'.calls| && s'.vms == s.vms && s.calls[c].phase != Started
    requires s'.calls == s.calls[c := s'.calls[c]]
    requires CallOk(s'.calls[c], s'.managers) && Owned(s') && Evolves(s.managers, s'.managers)
    requires forall m :: 0 <= m < |s.managers| && s'.managers[m] != s.managers[m] ==> NetOf(s, ByCall(c)) == Some(m)
    ensures Inv(s')
  {
    hide Owned; hide CallOk; hide Evolves; hide NetOf;
    CallsStay(s, c, s');
  }

  lemma OneCall(s: State, c: nat, s': State)
    requires c < |s.calls| == |s'.calls| && s'.vms == s.vms && s'.calls == s.calls[c := s'.calls[c]]
    ensures OnlyHolder(s, s', ByCall(c))
  {
  }

  lemma KeepStep(s: State, c: nat, call: Call)
    requires Inv(s) && c < |s.calls| && Held(call.phase) == Held(s.calls[c].phase) && s.calls[c].phase != Started
    requires CallOk(call, s.managers)
    ensures Inv(Renew(s, c, call))
  {
    hide Owned; hide CallOk;
    var s' := Renew(s, c, call);
    OneCall(s, c, s');
    OwnedSame(s, s', ByCall(c));
    CallStep(s, c, s');
  }

  lemma MakeProxyKeeps(s: State, c: nat)
    requires Inv(s) && Enabled(s, MakeProxy(c))
    ensures Inv(Step(s, MakeProxy(c)))
  {
    hide Owned; hide OnlyHolder;
    var s' := Step(s, MakeProxy(c));
    OneCall(s, c, s');
    OwnedAcquire(s, s', ByCall(c));
    CallStep(s, c, s');
  }

  /** What a holder holds is open. */
  lemma HeldIsOpen(s: State, h: Holder)
    requires Owned(s) && NetOf(s, h).Some?
    ensures NetOf(s, h).value < |s.managers| && Open(s.managers[NetOf(s, h).value])
  {
  }

  lemma TransportFailsKeeps(s: State, c: nat)
    requires Inv(s) && Enabled(s, TransportFails(c))
    ensures Inv(Step(s, TransportFails(c)))
  {
    hide Owned; hide OnlyHolder;
    var s', m := Step(s, TransportFails(c)), s.calls[c].phase.net;
    assert CallOk(s.calls[c], s.managers);
    HeldIsOpen(s, ByCall(c));
    OneCall(s, c, s');
    OwnedRelease(s, s', ByCall(c), s'.managers[m]);
    CallStep(s, c, s');
  }

  lemma TransportReadyKeeps(s: State, c: nat, transport: bool)
    requires Inv(s) && Enabled(s, TransportReady(c, transport))
    ensures Inv(Step(s, TransportReady(c, transport)))
  {
    hide Owned; hide OnlyHolder;
    var s', m := Step(s, TransportReady(c, transport)), s.calls[c].phase.net;
    assert CallOk(s.calls[c], s.managers);
    HeldIsOpen(s, ByCall(c));
    OneCall(s, c, s');
    OwnedTouch(s, s', ByCall(c), s'.managers[m]);
    CallStep(s, c, s');
  }

  /** A call that closes what it holds and ends. */
  lemma CloseKeeps(s: State, c: nat, phase: Phase)
    requires Inv(s) && c < |s.calls| && (s.calls[c].phase.Refusing? || s.calls[c].phase.Removed?)
    requires phase == StartFailed || phase == Stopped
    requires phase == StartFailed ==> s.calls[c].phase.Refusing?
    ensures Inv(Move(s, c, phase).(managers := CloseHeld(s.managers, s.calls[c].phase.holding)))
  {
    hide Owned; hide OnlyHolder;
    var s' := Move(s, c, phase).(managers := CloseHeld(s.managers, s.calls[c].phase.holding));
    assert CallOk(s.calls[c], s.managers);
    var net := s.calls[c].phase.holding;
    OneCall(s, c, s');
    if net.Some? {
      HeldIsOpen(s, ByCall(c));
      OwnedRelease(s, s', ByCall(c), s'.managers[net.value]);
    } else {
      OwnedSame(s, s', ByCall(c));
    }
    CallStep(s, c, s');
  }

  lemma InsertKeeps(s: State, c: nat)
    requires Inv(s) && Enabled(s, Insert(c))
    ensures Inv(Step(s, Insert(c)))
  {
    hide Owned;
    var p, s' := s.calls[c].phase, Step(s, Insert(c));
    assert CallOk(s.calls[c], s.managers) && c !in s.vms;
    CallsStay(s, c, s');
    if p.holding.Some? {
      OwnedMove(s, s', ByCall(c), ByVm(c));
    } else {
      OwnedSame(s, s', ByCall(c));
    }
  }

  lemma BeginStopKeeps(s: State, id: nat)
    requires Inv(s) && id in s.vms
    ensures Inv(Step(s, BeginStop(id)))
  {
    hide Owned;
    var s', c := Step(s, BeginStop(id)), |s.calls|;
    if s.vms[id].net.Some? {
      OwnedMove(s, s', ByVm(id), ByCall(c));
    } else {
      OwnedSame(s, s', ByCall(c));
    }
  }

  lemma ChooseKeeps(s: State, c: nat, mode: BackendMode, vm: VmAttempt, hostOk: bool)
    requires Inv(s) && Enabled(s, ChooseBackend(c, mode, vm, hostOk))
    ensures Inv(Step(s, ChooseBackend(c, mode, vm, hostOk)))
  {
    hide Owned; hide Choose;
    var net := s.calls[c].phase.holding;
    ChoiceExact(s.calls[c].strict, mode, vm, hostOk);
    assert CallOk(s.calls[c], s.managers);
    match Choose(s.calls[c].strict, mode, vm, hostOk) {
      case UseVm => KeepStep(s, c, s.calls[c].(phase := Built(net, false), host := Some(false)));
      case UseHost => KeepStep(s, c, s.calls[c].(phase := Built(net, true), host := Some(true)));
      case Refuse => KeepStep(s, c, s.calls[c].(phase := Refusing(net)));
    }
  }

  lemma BeginStartKeeps(s: State, strict: bool)
    requires Inv(s)
    ensures Inv(Step(s, BeginStart(strict)))
  {
    hide Owned;
    OwnedSame(s, Step(s, BeginStart(strict)), ByCall(|s.calls|));
  }

  lemma StartingKeeps(s: State, c: nat)
    requires Inv(s) && c < |s.calls| && s.calls[c].phase == Starting
    ensures Inv(Move(s, c, StartFailed)) && Inv(Move(s, c, NetReady(None)))
  {
    hide Owned;
    assert CallOk(s.calls[c], s.managers);
    KeepStep(s, c, s.calls[c].(phase := StartFailed));
    KeepStep(s, c, s.calls[c].(phase := NetReady(None)));
  }

  lemma StepKeeps(s: State, a: Action)
    requires Inv(s) && Enabled(s, a)
    ensures Inv(Step(s, a))
  {
    hide Inv; hide Choose; hide CloseHeld;
    match a {
      case BeginStart(strict) => BeginStartKeeps(s, strict);
      case Reject(c) => StartingKeeps(s, c);
      case SkipNetwork(c) => StartingKeeps(s, c);
      case MakeProxy(c) => MakeProxyKeeps(s, c);
      case TransportFails(c) => TransportFailsKeeps(s, c);
      case TransportReady(c, transport) => TransportReadyKeeps(s, c, transport);
      case ChooseBackend(c, mode, vm, hostOk) => ChooseKeeps(s, c, mode, vm, hostOk);
      case CloseRefused(c) => CloseKeeps(s, c, StartFailed);
      case Insert(c) => InsertKeeps(s, c);
      case BeginStop(id) =>
        if id in s.vms {
          BeginStopKeeps(s, id);
        }
      case CloseStopped(c) => CloseKeeps(s, c, Stopped);
    }
  }

  // ----- Theorem -----

  ghost predicate IsRun(ss: seq<State>, as_: seq<Action>) {
    && |ss| == |as_| + 1 && ss[0] == Initial()
    && forall i :: 0 <= i < |as_| ==> Enabled(ss[i], as_[i]) && ss[i + 1] == Step(ss[i], as_[i])
  }

  lemma {:induction false} InvOverRuns(ss: seq<State>, as_: seq<Action>, k: nat)
    requires IsRun(ss, as_) && k < |ss|
    ensures Inv(ss[k])
  {
    hide Inv; hide Step; hide Enabled;
    if k == 0 {
      InitialOk();
    } else {
      InvOverRuns(ss, as_, k - 1);
      StepKeeps(ss[k - 1], as_[k - 1]);
    }
  }

  lemma InitialOk()
    ensures Inv(Initial())
  {
  }

  /**
   In every state of every interleaving: the managers still open are exactly those held by a VM
   in the table or by one call in flight, each by one holder; every other manager has been
   closed once, with its proxy and its transport; a start that failed has left nothing open;
   and no strict request has a VM on the host backend.
   */
  lemma ManagersAccounted(ss: seq<State>, as_: seq<Action>, k: nat)
    requires IsRun(ss, as_) && k < |ss|
    ensures Owned(ss[k])
    ensures forall m :: 0 <= m < |ss[k].managers| ==> ss[k].managers[m].proxyCloses <= 1 && ss[k].managers[m].closeCalls <= 1
    ensures forall c :: 0 <= c < |ss[k].calls| && ss[k].calls[c].phase == StartFailed && ss[k].calls[c].made.Some? ==>
              ss[k].calls[c].made.value < |ss[k].managers| && Shut(ss[k].managers[ss[k].calls[c].made.value])
    ensures forall id :: id in ss[k].vms ==> !(ss[k].vms[id].strict && ss[k].vms[id].onHost)
  {
    InvOverRuns(ss, as_, k);
  }

  // ----- Theorem: a started VM can be stopped, and stays until it is -----

  /** The VMs in the table are those started and not yet stopped, each with the manager and strictness of its call. */
  ghost predicate Tracked(s: State) {
    && (forall c :: 0 <= c < |s.calls| && s.calls[c].phase == Started ==> (c in s.vms <==> c !in s.stopped))
    && (forall c :: c in s.vms ==> c < |s.calls| && s.calls[c].phase == Started
                                   && s.vms[c].strict == s.calls[c].strict && s.vms[c].net == s.calls[c].made)
    && (forall c :: c in s.stopped ==> c < |s.calls| && s.calls[c].phase == Started)
  }

  lemma StepTracks(s: State, a: Action)
    requires Inv(s) && Tracked(s) && Enabled(s, a)
    ensures Tracked(Step(s, a))
  {
    hide Inv; hide Tracked; hide Choose; hide CloseHeld;
    match a {
      case BeginStart(_) => AddingTracks(s, Step(s, a));
      case Insert(c) => InsertTracks(s, c);
      case BeginStop(id) =>
        if id in s.vms {
          StopTracks(s, id);
        }
      case _ => MovingTracks(s, Step(s, a), a.c);
    }
  }

  /** A call that neither was nor becomes Started may change in any way. */
  lemma MovingTracks(s: State, s': State, c: nat)
    requires Tracked(s) && s'.vms == s.vms && s'.stopped == s.stopped && c < |s.calls| == |s'.calls|
    requires s.calls[c].phase != Started && s'.calls == s.calls[c := s'.calls[c]] && s'.calls[c].phase != Started
    ensures Tracked(s')
  {
  }

  lemma AddingTracks(s: State, s': State)
    requires Tracked(s) && s'.vms == s.vms && s'.stopped == s.stopped && |s'.calls| == |s.calls| + 1
    requires s'.calls[..|s.calls|] == s.calls && s'.calls[|s.calls|].phase != Started
    ensures Tracked(s')
  {
    assert forall i :: 0 <= i < |s.calls| ==> s'.calls[i] == s'.calls[..|s.calls|][i];
  }

  lemma InsertTracks(s: State, c: nat)
    requires Inv(s) && Tracked(s) && c < |s.calls| && s.calls[c].phase.Built?
    ensures Tracked(Step(s, Insert(c)))
  {
    hide Owned;
    assert CallOk(s.calls[c], s.managers);
  }

  lemma StopTracks(s: State, id: nat)
    requires Tracked(s) && id in s.vms
    ensures Tracked(Step(s, BeginStop(id)))
  {
    var s' := Step(s, BeginStop(id));
    assert forall i :: 0 <= i < |s.calls| ==> s'.calls[i] == s.calls[i];
  }

  lemma {:induction false} TrackedOverRuns(ss: seq<State>, as_: seq<Action>, k: nat)
    requires IsRun(ss, as_) && k < |ss|
    ensures Tracked(ss[k])
  {
    hide Inv; hide Step; hide Enabled; hide Tracked;
    if k == 0 {
      StartTracked();
    } else {
      TrackedOverRuns(ss, as_, k - 1);
      InvOverRuns(ss, as_, k - 1);
      StepTracks(ss[k - 1], as_[k - 1]);
    }
  }

  lemma StartTracked()
    ensures Tracked(Initial())
  {
  }

  /**
   In every state of every interleaving a VM is in the table exactly if its start has succeeded
   and no stop has taken it out; it has the network manager its start made and is strict exactly
   if the request was.
   */
  lemma VmsListed(ss: seq<State>, as_: seq<Action>, k: nat, c: nat)
    requires IsRun(ss, as_) && k < |ss|
    ensures c in ss[k].vms <==> c < |ss[k].calls| && ss[k].calls[c].phase == Started && c !in ss[k].stopped
    ensures c in ss[k].vms ==> ss[k].vms[c].net == ss[k].calls[c].made && ss[k].vms[c].strict == ss[k].calls[c].strict
  {
    TrackedOverRuns(ss, as_, k);
  }

  /** The step that picks the backend builds a VM exactly if a backend may be used, and on the host exactly if it must be. */
  lemma BackendPicked(ss: seq<State>, as_: seq<Action>, k: nat)
    requires IsRun(ss, as_) && k < |as_| && as_[k].ChooseBackend?
    ensures var a := as_[k];
            var vmUsed := a.mode != HostBackend && a.vm == VmStarted;
            var hostUsed := !ss[k].calls[a.c].strict && a.hostOk && (a.mode == HostBackend || (a.mode == AutoBackend && a.vm == VmUnavailable));
            && a.c < |ss[k + 1].calls|
            && (ss[k + 1].calls[a.c].phase.Built? <==> vmUsed || hostUsed)
            && (ss[k + 1].calls[a.c].phase.Built? ==> (ss[k + 1].calls[a.c].phase.onHost <==> hostUsed))
            && (ss[k + 1].calls[a.c].phase.Refusing? <==> !vmUsed && !hostUsed)
  {
    hide Choose;
    var a := as_[k];
    ChoiceExact(ss[k].calls[a.c].strict, a.mode, a.vm, a.hostOk);
  }

  // ----- Theorem: a strict VM has its proxy and its transport -----

  /** A strict call is past the network only with a manager and an answer about its transport. */
  ghost predicate CallRecorded(call: Call) {
    && (call.strict && (call.phase.NetReady? || call.phase.Refusing? || call.phase.Built? || call.phase.Started?) ==>
          call.made.Some? && call.transport.Some?)
    && (call.phase.Built? ==> call.host == Some(call.phase.onHost))
    && (call.phase.ProxyUp? ==> call.made == Some(call.phase.net))
    && (call.phase == Starting ==> call.made.None? && call.transport.None?)
  }

  /** The manager a call made has a transport exactly if one came with it. */
  ghost predicate MadeOk(call: Call, ms: seq<Manager>) {
    call.made.Some? ==> call.made.value < |ms| && (ms[call.made.value].transport <==> call.transport.Some? && call.transport.value)
  }

  ghost predicate Recorded(s: State) {
    && (forall c :: 0 <= c < |s.calls| ==> CallRecorded(s.calls[c]) && MadeOk(s.calls[c], s.managers))
    && (forall c, d :: 0 <= c < d < |s.calls| && s.calls[c].made.Some? ==> s.calls[c].made != s.calls[d].made)
    && (forall id :: id in s.vms ==> id < |s.calls| && (s.vms[id].onHost <==> s.calls[id].host == Some(true)))
  }

  /** A call changes, but not what it made, and no manager gains or loses a transport. */
  lemma MovingRecords(s: State, s': State, c: nat)
    requires Recorded(s) && c < |s.calls| == |s'.calls| && s'.calls == s.calls[c := s'.calls[c]] && s'.vms == s.vms
    requires s'.calls[c].made == s.calls[c].made && s'.calls[c].transport == s.calls[c].transport
    requires CallRecorded(s'.calls[c]) && (c in s.vms ==> s'.calls[c].host == s.calls[c].host)
    requires |s'.managers| == |s.managers|
    requires forall m :: 0 <= m < |s.managers| ==> s'.managers[m].transport == s.managers[m].transport
    ensures Recorded(s')
  {
    hide CallRecorded;
  }

  lemma AddingRecords(s: State, s': State, call: Call)
    requires Recorded(s) && s'.calls == s.calls + [call] && call.made.None? && CallRecorded(call)
    requires s'.managers == s.managers && forall id :: id in s'.vms ==> id in s.vms && s'.vms[id] == s.vms[id]
    ensures Recorded(s')
  {
    hide CallRecorded;
  }

  lemma InsertRecords(s: State, c: nat)
    requires Recorded(s) && c < |s.calls| && s.calls[c].phase.Built?
    ensures Recorded(Step(s, Insert(c)))
  {
    hide MadeOk;
    assert CallRecorded(s.calls[c]);
    assert MadeOk(Step(s, Insert(c)).calls[c], s.managers) by {
      assert MadeOk(s.calls[c], s.managers);
      SameMade(s.calls[c], Step(s, Insert(c)).calls[c], s.managers);
    }
  }

  lemma SameMade(a: Call, b: Call, ms: seq<Manager>)
    requires MadeOk(a, ms) && b.made == a.made && b.transport == a.transport
    ensures MadeOk(b, ms)
  {
  }

  lemma ProxyRecords(s: State, c: nat)
    requires Recorded(s) && c < |s.calls| && s.calls[c].phase == Starting && c !in s.vms
    ensures Recorded(Step(s, MakeProxy(c)))
  {
    var s' := Step(s, MakeProxy(c));
    assert CallRecorded(s.calls[c]);
    forall d | 0 <= d < |s.calls|
      ensures CallRecorded(s'.calls[d]) && MadeOk(s'.calls[d], s'.managers)
      ensures d != c ==> s'.calls[d].made != Some(|s.managers|)
    {
      assert CallRecorded(s.calls[d]) && MadeOk(s.calls[d], s.managers);
    }
  }

  lemma TransportRecords(s: State, c: nat, transport: bool)
    requires Recorded(s) && Enabled(s, TransportReady(c, transport)) && c !in s.vms
    ensures Recorded(Step(s, TransportReady(c, transport)))
  {
    var s' := Step(s, TransportReady(c, transport));
    assert CallRecorded(s.calls[c]);
    forall d | 0 <= d < |s.calls|
      ensures CallRecorded(s'.calls[d]) && MadeOk(s'.calls[d], s'.managers)
    {
      assert CallRecorded(s.calls[d]) && MadeOk(s.calls[d], s.managers);
      assert d < c && s.calls[d].made.Some? ==> s.calls[d].made != s.calls[c].made;
    }
  }

  lemma ChooseRecords(s: State, c: nat, mode: BackendMode, vm: VmAttempt, hostOk: bool)
    requires Recorded(s) && Enabled(s, ChooseBackend(c, mode, vm, hostOk)) && c !in s.vms
    ensures Recorded(Step(s, ChooseBackend(c, mode, vm, hostOk)))
  {
    hide Recorded; hide Choose;
    RecordOf(s, c);
    MovingRecords(s, Step(s, ChooseBackend(c, mode, vm, hostOk)), c);
  }

  lemma RecordOf(s: State, c: nat)
    requires Recorded(s) && c < |s.calls|
    ensures CallRecorded(s.calls[c])
  {
  }

  /** A call in flight has no VM yet. */
  lemma NotYet(s: State, c: nat)
    requires Tracked(s) && c < |s.calls| && s.calls[c].phase != Started
    ensures c !in s.vms
  {
  }

  lemma StepRecords(s: State, a: Action)
    requires Tracked(s) && Recorded(s) && Enabled(s, a)
    ensures Recorded(Step(s, a))
  {
    hide Tracked; hide Recorded; hide Choose;
    match a {
      case BeginStart(_) => AddingRecords(s, Step(s, a), Step(s, a).calls[|s.calls|]);
      case BeginStop(id) =>
        if id in s.vms {
          AddingRecords(s, Step(s, a), Step(s, a).calls[|s.calls|]);
        }
      case MakeProxy(c) => NotYet(s, c); ProxyRecords(s, c);
      case TransportReady(c, transport) => NotYet(s, c); TransportRecords(s, c, transport);
      case ChooseBackend(c, mode, vm, hostOk) => NotYet(s, c); ChooseRecords(s, c, mode, vm, hostOk);
      case Insert(c) => InsertRecords(s, c);
      case _ =>
        RecordOf(s, a.c);
        MovingRecords(s, Step(s, a), a.c);
    }
  }

  lemma {:induction false} RecordedOverRuns(ss: seq<State>, as_: seq<Action>, k: nat)
    requires IsRun(ss, as_) && k < |ss|
    ensures Recorded(ss[k])
  {
    hide Step; hide Enabled; hide Tracked; hide Recorded;
    if k == 0 {
      StartRecorded();
    } else {
      RecordedOverRuns(ss, as_, k - 1);
      TrackedOverRuns(ss, as_, k - 1);
      StepRecords(ss[k - 1], as_[k - 1]);
    }
  }

  lemma StartRecorded()
    ensures Recorded(Initial())
  {
  }

  /**
   In every state of every interleaving, a VM started by a strict request has a network manager
   that is open and its own, whose transport was set up before the VM was, and is not on the host
   backend; and any VM is on the host exactly if its start took that backend.
   */
  lemma StrictGuarded(ss: seq<State>, as_: seq<Action>, k: nat, c: nat)
    requires IsRun(ss, as_) && k < |ss| && c in ss[k].vms
    ensures c < |ss[k].calls| && (ss[k].vms[c].onHost <==> ss[k].calls[c].host == Some(true))
    ensures ss[k].calls[c].strict ==>
              var net := ss[k].vms[c].net;
              && net.Some? && net.value < |ss[k].managers| && !ss[k].vms[c].onHost
              && ss[k].managers[net.value].proxyCloses == 0 && ss[k].managers[net.value].transportCloses == 0
              && ss[k].calls[c].transport.Some? && ss[k].calls[c].transport.value == ss[k].managers[net.value].transport
  {
    RecordedOverRuns(ss, as_, k);
    TrackedOverRuns(ss, as_, k);
    InvOverRuns(ss, as_, k);
    RecordOf(ss[k], c);
    assert NetOf(ss[k], ByVm(c)) == ss[k].vms[c].net;
    assert MadeOk(ss[k].calls[c], ss[k].managers);
  }

  /** Once its transport is up, the manager of a strict start has it to close. */
  lemma TransportKept(ss: seq<State>, as_: seq<Action>, k: nat)
    requires IsRun(ss, as_) && k < |as_| && as_[k].TransportReady?
    ensures var c := as_[k].c;
            && c < |ss[k + 1].calls| && ss[k + 1].calls[c].transport == Some(as_[k].transport)
            && ss[k + 1].calls[c].made.Some? && ss[k + 1].calls[c].made.value < |ss[k + 1].managers|
            && (ss[k + 1].managers[ss[k + 1].calls[c].made.value].transport <==> as_[k].transport)
  {
    RecordedOverRuns(ss, as_, k + 1);
    RecordedOverRuns(ss, as_, k);
    RecordOf(ss[k], as_[k].c);
    assert MadeOk(ss[k + 1].calls[as_[k].c], ss[k + 1].managers);
  }
}
