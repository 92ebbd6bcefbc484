/**
 The host's client for the guest link, as a state machine. Threads calling startExec, the read
 loop and Close interleave freely; one action is what happens while the client's mutex is held,
 or one unlocked stretch between two such sections.
 */
module VirtioClient {

  import opened Common

  /** What closed a request's channels. */
  datatype Ending = ByResponse | ByError | ByClose

  /**
   A request with its three channels: how often each has been closed, how many values wait in
   the two that hold one at most, and how many have ever been put into them; whether it was
   waiting when the read loop failed, and what ended it.
   */
  datatype Request = Request(id: nat, outputCloses: nat, exitCloses: nat, errCloses: nat, exitQueued: nat, errQueued: nat,
                             exitPuts: nat, errPuts: nat, told: bool, endedBy: Option<Ending>)

  datatype Terminal = ExecResponse | ErrorMessage

  /** The read loop: ready for the next frame, about to deliver a final message, or ended. */
  datatype Reader = Ready | Delivering(req: nat, kind: Terminal) | Ended

  /**
   Requests are numbered in creation order; table maps ids on the wire to those numbers.
   withdrawn records the requests whose message could not be sent.
   */
  datatype State = State(all: seq<Request>, table: map<nat, nat>, nextId: nat, closed: bool, reader: Reader,
                         sending: set<nat>, withdrawn: set<nat>)

  datatype Action =
    | Register              // startExec, locked part
    | SendDone(req: nat)    // startExec: the message went out
    | SendFailed(req: nat)  // startExec: it did not; the id is dropped
    | Close
    | ReadError             // the read loop broadcasts the error and ends
    | Output(id: nat)       // exec_output: lossy send, not part of the claims
    | Final(id: nat, kind: Terminal)
    | Deliver               // the unlocked part of a final message
    | TakeExit(req: nat)    // a caller receives from a channel
    | TakeErr(req: nat)

  function Initial(): State {
    State([], map[], 0, false, Ready, {}, {})
  }

  predicate Enabled(s: State, a: Action) {
    match a
    case Register => true
    case SendDone(r) => r in s.sending
    case SendFailed(r) => r in s.sending && r < |s.all|
    case Close => true
    case ReadError => s.reader == Ready
    case Output(_) => s.reader == Ready
    case Final(_, _) => s.reader == Ready
    case Deliver => s.reader.Delivering? && s.reader.req < |s.all|
    case TakeExit(r) => r < |s.all| && s.all[r].exitQueued > 0
    case TakeErr(r) => r < |s.all| && s.all[r].errQueued > 0
  }

  function Closed(r: Request): Request {
    r.(outputCloses := r.outputCloses + 1, exitCloses := r.exitCloses + 1, errCloses := r.errCloses + 1)
  }

  function PutExit(r: Request): Request {
    r.(exitQueued := r.exitQueued + 1, exitPuts := r.exitPuts + 1)
  }

  function PutErr(r: Request): Request {
    r.(errQueued := r.errQueued + 1, errPuts := r.errPuts + 1)
  }

  /** The error sent to a request, if its channel has room. */
  function Told(r: Request): Request {
    if r.errQueued < 1 then PutErr(r) else r
  }

  function EndByClose(r: Request): Request {
    Closed(r).(endedBy := Some(ByClose))
  }

  function Tell(r: Request): Request {
    Told(r).(told := true)
  }

  function Delivered(r: Request, kind: Terminal): Request {
    Closed(if kind == ExecResponse then PutExit(r) else PutErr(r))
  }

  /** f applied to the requests in the table. */
  function MapTable(s: State, f: Request -> Request): (all: seq<Request>)
    ensures |all| == |s.all|
    ensures forall i :: 0 <= i < |all| ==> all[i] == if i in s.table.Values then f(s.all[i]) else s.all[i]
  {
    seq(|s.all|, i requires 0 <= i < |s.all| => if i in s.table.Values then f(s.all[i]) else s.all[i])
  }

  function Step(s: State, a: Action): State
    requires Enabled(s, a)
  {
    match a
    case Register =>
      var id := (s.nextId + 1) % TWO_32;
      s.(all := s.all + [Request(id, 0, 0, 0, 0, 0, 0, 0, false, None)], table := s.table[id := |s.all|], nextId := id,
         sending := s.sending + {|s.all|})
    case SendDone(r) => s.(sending := s.sending - {r})
    case SendFailed(r) =>
      s.(sending := s.sending - {r}, table := s.table - {s.all[r].id}, withdrawn := s.withdrawn + {r})
    case Close => if s.closed then s else s.(closed := true, all := MapTable(s, EndByClose), table := map[])
    case ReadError => s.(all := MapTable(s, Tell), reader := Ended)
    case Output(_) => s
    case Final(id, kind) =>
      if id !in s.table then s else s.(table := s.table - {id}, reader := Delivering(s.table[id], kind))
    case Deliver =>
      var ending := if s.reader.kind == ExecResponse then ByResponse else ByError;
      s.(all := s.all[s.reader.req := Delivered(s.all[s.reader.req], s.reader.kind).(endedBy := Some(ending))], reader := Ready)
    case TakeExit(r) => s.(all := s.all[r := s.all[r].(exitQueued := s.all[r].exitQueued - 1)])
    case TakeErr(r) => s.(all := s.all[r := s.all[r].(errQueued := s.all[r].errQueued - 1)])
  }

  predicate AllOpen(r: Request) {
    r.outputCloses == 0 && r.exitCloses == 0 && r.errCloses == 0
  }

  /**
   The action does nothing Go would punish: it closes only open channels, sends only on open
   channels, and its final send finds room, so it does not block.
   */
  ghost predicate Harmless(s: State, a: Action) {
    match a
    case Close => !s.closed ==> forall i :: 0 <= i < |s.all| && i in s.table.Values ==> AllOpen(s.all[i])
    case ReadError => forall i :: 0 <= i < |s.all| && i in s.table.Values ==> s.all[i].errCloses == 0
    case Deliver =>
      && s.reader.Delivering? && s.reader.req < |s.all|
      && AllOpen(s.all[s.reader.req])
      && (if s.reader.kind == ExecResponse then s.all[s.reader.req].exitQueued == 0 else s.all[s.reader.req].errQueued == 0)
    case _ => true
  }

  // ----- Invariant -----

  ghost predicate Untouched(r: Request, reader: Reader) {
    AllOpen(r) && r.exitQueued == 0 && (reader != Ended ==> r.errQueued == 0)
  }

  ghost predicate Inv(s: State) {
    && (forall id :: id in s.table ==> s.table[id] < |s.all| && s.all[s.table[id]].id == id)
    && (forall id :: id in s.table ==> Untouched(s.all[s.table[id]], s.reader))
    && (s.reader.Delivering? ==>
          && s.reader.req < |s.all| && (forall id :: id in s.table ==> s.table[id] != s.reader.req)
          && Untouched(s.all[s.reader.req], s.reader))
    && (forall i :: 0 <= i < |s.all| ==>
          s.all[i].outputCloses == s.all[i].exitCloses == s.all[i].errCloses <= 1
          && s.all[i].exitQueued <= 1 && s.all[i].errQueued <= 1)
    && (forall r :: r in s.sending ==> r < |s.all|)
  }

  /** A request stands in the table under its own id only. */
  lemma InTable(s: State, i: nat)
    requires Inv(s) && i in s.table.Values
    ensures i < |s.all| && s.all[i].id in s.table && s.table[s.all[i].id] == i
    ensures Untouched(s.all[i], s.reader)
  {
  }

  lemma InvHarmless(s: State, a: Action)
    requires Inv(s) && Enabled(s, a)
    ensures Harmless(s, a)
  {
  }

  lemma StepKeeps(s: State, a: Action)
    requires Inv(s) && Enabled(s, a)
    ensures Inv(Step(s, a))
  {
    hide MapTable;
    match a {
      case Close => CloseKeeps(s);
      case ReadError => BroadcastKeeps(s);
      case Deliver => DeliverKeeps(s);
      case Register => RegisterKeeps(s);
      case Final(id, kind) => FinalKeeps(s, id, kind);
      case _ =>
    }
  }

  lemma RegisterKeeps(s: State)
    requires Inv(s)
    ensures Inv(Step(s, Register))
  {
  }

  lemma FinalKeeps(s: State, id: nat, kind: Terminal)
    requires Inv(s) && s.reader == Ready
    ensures Inv(Step(s, Final(id, kind)))
  {
  }

  lemma CloseKeeps(s: State)
    requires Inv(s)
    ensures Inv(Step(s, Close))
  {
    hide MapTable;
    forall i | 0 <= i < |s.all| && i in s.table.Values
      ensures Untouched(s.all[i], s.reader)
    {
      InTable(s, i);
    }
  }

  lemma BroadcastKeeps(s: State)
    requires Inv(s) && s.reader == Ready
    ensures Inv(Step(s, ReadError))
  {
    hide MapTable;
    forall id | id in s.table
      ensures s.table[id] in s.table.Values
    {
    }
    forall i | 0 <= i < |s.all| && i in s.table.Values
      ensures Untouched(s.all[i], s.reader)
    {
      InTable(s, i);
    }
  }

  lemma DeliverKeeps(s: State)
    requires Inv(s) && s.reader.Delivering?
    ensures Inv(Step(s, Deliver))
  {
  }

  // ----- Theorem -----

  ghost predicate IsRun(ss: seq<State>, as_: seq<Action>) {
    && |ss| == |as_| + 1 && ss[0] == Initial()
    && forall i :: 0 <= i < |as_| ==> Enabled(ss[i], as_[i]) && ss[i + 1] == Step(ss[i], as_[i])
  }

  lemma {:induction false} InvOverRuns(ss: seq<State>, as_: seq<Action>, k: nat)
    requires IsRun(ss, as_) && k < |ss|
    ensures Inv(ss[k])
  {
    if k > 0 {
      InvOverRuns(ss, as_, k - 1);
      StepKeeps(ss[k - 1], as_[k - 1]);
    }
  }

  /**
   In every interleaving, however many requests there are (ids may even wrap around): no action
   closes a closed channel, no final send or broadcast hits a closed channel, no final send
   blocks, and no channel of any request is ever closed twice.
   */
  lemma ChannelsSafe(ss: seq<State>, as_: seq<Action>, k: nat)
    requires IsRun(ss, as_) && k < |ss|
    ensures k < |as_| ==> Harmless(ss[k], as_[k])
    ensures forall i :: 0 <= i < |ss[k].all| ==>
              ss[k].all[i].outputCloses <= 1 && ss[k].all[i].exitCloses <= 1 && ss[k].all[i].errCloses <= 1
  {
    InvOverRuns(ss, as_, k);
    if k < |as_| {
      InvHarmless(ss[k], as_[k]);
    }
  }

  // ----- Theorem: no request is lost -----

  /** The request waits in the table under its id, or its final message is being delivered. */
  predicate Waiting(s: State, i: nat)
    requires i < |s.all|
  {
    || (s.all[i].id in s.table && s.table[s.all[i].id] == i)
    || (s.reader.Delivering? && s.reader.req == i)
  }

  /** Before the ids wrap around they are the creation numbers, and an open request waits or was withdrawn. */
  ghost predicate Accounted(s: State) {
    && s.nextId == |s.all|
    && (forall i :: 0 <= i < |s.all| ==> s.all[i].id == i + 1)
    && (forall i :: 0 <= i < |s.all| ==> s.all[i].outputCloses == 1 || i in s.withdrawn || Waiting(s, i))
  }

  lemma StepAccounted(s: State, a: Action)
    requires Inv(s) && Accounted(s) && Enabled(s, a) && |Step(s, a).all| < TWO_32
    ensures Accounted(Step(s, a))
  {
    var s' := Step(s, a);
    forall i | 0 <= i < |s'.all|
      ensures s'.all[i].id == i + 1 && (s'.all[i].outputCloses == 1 || i in s'.withdrawn || Waiting(s', i))
    {
      if i < |s.all| {
        assert s.all[i].id == i + 1 && (s.all[i].outputCloses == 1 || i in s.withdrawn || Waiting(s, i));
        if i in s.table.Values {
          InTable(s, i);
        }
      }
    }
  }

  lemma {:induction false} AccountedOverRuns(ss: seq<State>, as_: seq<Action>, k: nat)
    requires IsRun(ss, as_) && k < |ss| && |ss[k].all| < TWO_32
    ensures Accounted(ss[k])
  {
    if k > 0 {
      assert |ss[k - 1].all| <= |ss[k].all|;
      AccountedOverRuns(ss, as_, k - 1);
      InvOverRuns(ss, as_, k - 1);
      StepAccounted(ss[k - 1], as_[k - 1]);
    }
  }

  /** The requests made before the first Close: none of them is in the table any more. */
  ghost predicate Cleared(s: State, n: nat) {
    && n <= |s.all| && s.closed
    && forall id :: id in s.table ==> s.table[id] >= n
  }

  lemma StepCleared(s: State, a: Action, n: nat)
    requires Enabled(s, a) && Cleared(s, n)
    ensures Cleared(Step(s, a), n)
  {
  }

  lemma {:induction false} ClearedOverRuns(ss: seq<State>, as_: seq<Action>, j: nat, k: nat)
    requires IsRun(ss, as_) && j < k < |ss| && as_[j] == Close && !ss[j].closed
    ensures Cleared(ss[k], |ss[j].all|)
  {
    if k == j + 1 {
      assert ss[k].table == map[];
    } else {
      ClearedOverRuns(ss, as_, j, k - 1);
      StepCleared(ss[k - 1], as_[k - 1], |ss[j].all|);
    }
  }

  /**
   With fewer than 2^32 requests made so far, every request has had each channel closed exactly
   once, or is waiting with all of them open, or could not be sent.
   */
  lemma NoRequestLost(ss: seq<State>, as_: seq<Action>, k: nat, i: nat)
    requires IsRun(ss, as_) && k < |ss| && |ss[k].all| < TWO_32 && i < |ss[k].all|
    ensures var r := ss[k].all[i];
            || (r.outputCloses == 1 && r.exitCloses == 1 && r.errCloses == 1)
            || (AllOpen(r) && Waiting(ss[k], i))
            || (AllOpen(r) && i in ss[k].withdrawn)
  {
    AccountedOverRuns(ss, as_, k);
    InvOverRuns(ss, as_, k);
  }

  /**
   From the first Close on, in every later state, no request made before it waits in the table:
   each has had its channels closed exactly once, or its final message is just being delivered,
   or it could not be sent.
   */
  lemma CloseSettlesAll(ss: seq<State>, as_: seq<Action>, j: nat, k: nat, i: nat)
    requires IsRun(ss, as_) && j < k < |ss| && as_[j] == Close && !ss[j].closed
    requires i < |ss[j].all| && |ss[k].all| < TWO_32
    ensures i < |ss[k].all|
    ensures var r := ss[k].all[i];
            || (r.outputCloses == 1 && r.exitCloses == 1 && r.errCloses == 1)
            || (AllOpen(r) && ss[k].reader.Delivering? && ss[k].reader.req == i)
            || (AllOpen(r) && i in ss[k].withdrawn)
  {
    ClearedOverRuns(ss, as_, j, k);
    NoRequestLost(ss, as_, k, i);
  }

  // ----- Theorem: every final message goes into its own channel -----

  /**
   A response puts one value into the exit channel; an error message, or the end of the read
   loop while the request waits, one into the error channel; nothing else puts anything.
   */
  predicate ValuesRight(r: Request) {
    && r.exitPuts == (if r.endedBy == Some(ByResponse) then 1 else 0)
    && r.errPuts == (if r.endedBy == Some(ByError) then 1 else 0) + (if r.told then 1 else 0)
    && (r.endedBy.Some? <==> r.outputCloses == 1)
    && r.exitQueued <= r.exitPuts && r.errQueued <= r.errPuts
    && (r.told ==> r.endedBy == None || r.endedBy == Some(ByClose))
  }

  /** Only a broadcast has reached the requests that wait; a withdrawn request waits no more. */
  ghost predicate ValuesInv(s: State) {
    && (forall i :: i in s.withdrawn ==> i < |s.all| && i !in s.table.Values)
    && (forall i :: 0 <= i < |s.all| ==> ValuesRight(s.all[i]))
    && (forall i :: 0 <= i < |s.all| && s.all[i].told ==> s.reader == Ended)
  }

  lemma StepValues(s: State, a: Action)
    requires Inv(s) && ValuesInv(s) && Enabled(s, a)
    ensures ValuesInv(Step(s, a))
  {
    hide ValuesRight; hide MapTable;
    var s' := Step(s, a);
    forall i | 0 <= i < |s'.all|
      ensures ValuesRight(s'.all[i]) && (s'.all[i].told ==> s'.reader == Ended)
    {
      RequestValues(s, a, i);
    }
    WithdrawnStay(s, a);
  }

  lemma WithdrawnStay(s: State, a: Action)
    requires Inv(s) && ValuesInv(s) && Enabled(s, a)
    ensures forall i :: i in Step(s, a).withdrawn ==> i < |Step(s, a).all| && i !in Step(s, a).table.Values
  {
    hide ValuesRight; hide MapTable;
  }

  lemma RequestValues(s: State, a: Action, i: nat)
    requires Inv(s) && ValuesInv(s) && Enabled(s, a) && i < |Step(s, a).all|
    ensures ValuesRight(Step(s, a).all[i]) && (Step(s, a).all[i].told ==> Step(s, a).reader == Ended)
  {
    hide MapTable;
    if i < |s.all| {
      assert ValuesRight(s.all[i]);
      if i in s.table.Values {
        InTable(s, i);
      }
    }
  }

  lemma {:induction false} ValuesOverRuns(ss: seq<State>, as_: seq<Action>, k: nat)
    requires IsRun(ss, as_) && k < |ss|
    ensures ValuesInv(ss[k])
  {
    hide Enabled; hide Step; hide Inv; hide ValuesInv;
    if k == 0 {
      StartValues();
    } else {
      ValuesOverRuns(ss, as_, k - 1);
      InvOverRuns(ss, as_, k - 1);
      StepValues(ss[k - 1], as_[k - 1]);
    }
  }

  lemma StartValues()
    ensures ValuesInv(Initial())
  {
  }

  /**
   In every state of every interleaving: a request ended by a response has had exactly one value
   put into its exit channel and none into its error channel; one ended by an error message the
   reverse; one ended by Close has had no value put into its exit channel, and one into its
   error channel exactly if the read loop had failed while it waited. A request whose message
   could not be sent is no longer in the table, so no answer and no broadcast is matched to it.
   */
  lemma ValuesDelivered(ss: seq<State>, as_: seq<Action>, k: nat, i: nat)
    requires IsRun(ss, as_) && k < |ss| && i < |ss[k].all|
    ensures var r := ss[k].all[i];
            && (r.endedBy == Some(ByResponse) ==> r.exitPuts == 1 && r.errPuts == 0)
            && (r.endedBy == Some(ByError) ==> r.exitPuts == 0 && r.errPuts == 1)
            && (r.endedBy == Some(ByClose) ==> r.exitPuts == 0 && r.errPuts == if r.told then 1 else 0)
            && (r.endedBy == None ==> r.exitPuts == 0 && r.errPuts == if r.told then 1 else 0)
            && (r.endedBy.Some? <==> r.outputCloses == 1)
    ensures i in ss[k].withdrawn ==> forall id :: id in ss[k].table ==> ss[k].table[id] != i
  {
    ValuesOverRuns(ss, as_, k);
    assert ValuesRight(ss[k].all[i]);
  }

  /** When the read loop fails, every waiting request gets exactly one error, and no other request does. */
  lemma BroadcastReaches(ss: seq<State>, as_: seq<Action>, k: nat, i: nat)
    requires IsRun(ss, as_) && k < |as_| && as_[k] == ReadError && i < |ss[k].all|
    ensures |ss[k + 1].all| == |ss[k].all|
    ensures if i in ss[k].table.Values then ss[k].all[i].errPuts == 0 && ss[k + 1].all[i].errPuts == 1 && ss[k + 1].all[i].errQueued == 1
            else ss[k + 1].all[i] == ss[k].all[i]
  {
    ValuesOverRuns(ss, as_, k);
    InvOverRuns(ss, as_, k);
    assert ValuesRight(ss[k].all[i]);
    if i in ss[k].table.Values {
      InTable(ss[k], i);
    }
  }

  /** Between a final message and its delivery the read loop does nothing else. */
  lemma {:induction false} StillDelivering(ss: seq<State>, as_: seq<Action>, k: nat, m: nat)
    requires IsRun(ss, as_) && k < m < |ss| && as_[k].Final? && as_[k].id in ss[k].table
    requires forall n :: k < n < m ==> as_[n] != Deliver
    ensures ss[m].reader == Delivering(ss[k].table[as_[k].id], as_[k].kind)
  {
    if m > k + 1 {
      StillDelivering(ss, as_, k, m - 1);
      assert as_[m - 1] != Deliver;
    }
  }

  /** The final message of a request, once delivered, is one value in the channel meant for it, and all channels are closed. */
  lemma FinalDelivered(ss: seq<State>, as_: seq<Action>, k: nat, m: nat)
    requires IsRun(ss, as_) && k < m < |as_| && as_[k].Final? && as_[k].id in ss[k].table && as_[m] == Deliver
    requires forall n :: k < n < m ==> as_[n] != Deliver
    ensures var i := ss[k].table[as_[k].id];
            && i < |ss[m + 1].all|
            && var r := ss[m + 1].all[i];
            && r.outputCloses == 1 && r.exitCloses == 1 && r.errCloses == 1
            && (as_[k].kind == ExecResponse ==> r.exitPuts == 1 && r.exitQueued == 1 && r.errPuts == 0)
            && (as_[k].kind == ErrorMessage ==> r.errPuts == 1 && r.errQueued == 1 && r.exitPuts == 0)
  {
    StillDelivering(ss, as_, k, m);
    InvOverRuns(ss, as_, m);
    ValuesOverRuns(ss, as_, m);
    InvOverRuns(ss, as_, m + 1);
    var i := ss[m].reader.req;
    assert ValuesRight(ss[m].all[i]);
  }
}
