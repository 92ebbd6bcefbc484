/**
 The SDK's asynchronous queue: a producer pushes and closes, a consumer calls next, and each
 call's promise is settled now or later. Promises are numbered by the call that made them.
 */
module AsyncQueueObject {

  /** How a next() call ended: with an item, or with "done". */
  datatype Delivery<T> = Item(value: T) | Done

  /** The outcome of the i-th next() call, given everything pushed and whether the queue is closed. */
  ghost predicate Settled<T>(i: nat, pushed: seq<T>, closed: bool, settled: map<nat, Delivery<T>>) {
    if i < |pushed| then i in settled && settled[i] == Item(pushed[i])
    else if closed then i in settled && settled[i] == Done
    else i !in settled
  }

  /** Closing changes nothing for the calls that have their items. */
  lemma ClosingKeeps<T>(pushed: seq<T>, settled: map<nat, Delivery<T>>, m: nat)
    requires m <= |pushed| && forall i: nat :: i < m ==> Settled(i, pushed, false, settled)
    ensures forall i: nat :: i < m ==> Settled(i, pushed, true, settled)
  {
    forall i: nat | i < m
      ensures Settled(i, pushed, true, settled)
    {
      assert Settled(i, pushed, false, settled);
    }
  }

  /** Settling the oldest waiting call with done. */
  lemma DoneNext<T>(pushed: seq<T>, settled: map<nat, Delivery<T>>, m: nat, settled': map<nat, Delivery<T>>)
    requires settled' == settled[m := Done]
    requires |pushed| <= m && forall i: nat :: i < m ==> Settled(i, pushed, true, settled)
    ensures forall i: nat :: i < m + 1 ==> Settled(i, pushed, true, settled')
  {
    forall i: nat | i < m + 1
      ensures Settled(i, pushed, true, settled')
    {
      assert i < m ==> Settled(i, pushed, true, settled);
    }
  }

  class AsyncQueue<T> {
    var queue: seq<T>
    /** The waiting next() calls, oldest first. */
    var resolvers: seq<nat>
    var closed: bool
    /** next() calls made so far, and the promises settled. */
    var calls: nat
    var settled: map<nat, Delivery<T>>
    ghost var pushed: seq<T>

    /**
     The i-th call gets the i-th pushed item, or done once the queue is closed with fewer
     items; items nobody asked for are kept in order; only an open queue has waiting readers.
     */
    ghost predicate Valid()
      reads this
    {
      && queue == (if calls <= |pushed| then pushed[calls..] else [])
      && (if closed || calls <= |pushed| then resolvers == []
          else |resolvers| == calls - |pushed| && forall k :: 0 <= k < |resolvers| ==> resolvers[k] == |pushed| + k)
      && (forall i: nat :: i < calls ==> Settled(i, pushed, closed, settled))
      && (forall i :: i in settled ==> i < calls)
    }

    constructor ()
      ensures Valid() && pushed == [] && calls == 0 && !closed
    {
      queue, resolvers, closed, calls, settled, pushed := [], [], false, 0, map[], [];
    }

    /** False stands for the exception on a closed queue. */
    method Push(item: T) returns (ok: bool)
      requires Valid()
      modifies this
      ensures Valid() && closed == old(closed) && calls == old(calls)
      ensures ok == !old(closed)
      ensures pushed == if ok then old(pushed) + [item] else old(pushed)
    {
      if closed {
        return false;
      }
      if |resolvers| > 0 {
        var resolver := resolvers[0];
        resolvers := resolvers[1..];
        settled := settled[resolver := Item(item)];
      } else {
        queue := queue + [item];
      }
      pushed := pushed + [item];
      forall i: nat | i < calls
        ensures Settled(i, pushed, closed, settled)
      {
        assert old(Settled(i, pushed, closed, settled));
      }
      return true;
    }

    /** Settles every waiting call with done; queued items stay. */
    method Close()
      requires Valid()
      modifies this
      ensures Valid() && closed && pushed == old(pushed) && calls == old(calls) && queue == old(queue)
    {
      hide Settled;
      if closed {
        return;
      }
      closed := true;
      ghost var m := calls - |resolvers|;
      ClosingKeeps(pushed, settled, m);
      while |resolvers| > 0
        invariant closed && pushed == old(pushed) && calls == old(calls) && queue == old(queue) && |resolvers| <= calls
        invariant |resolvers| > 0 ==> |pushed| <= calls - |resolvers|
        invariant forall k :: 0 <= k < |resolvers| ==> resolvers[k] == calls - |resolvers| + k
        invariant forall i: nat :: i < calls - |resolvers| ==> Settled(i, pushed, true, settled)
        invariant forall i :: i in settled ==> i < calls
        decreases |resolvers|
      {
        var resolver := resolvers[0];
        DoneNext(pushed, settled, resolver, settled[resolver := Done]);
        resolvers := resolvers[1..];
        settled := settled[resolver := Done];
      }
    }

    /** Returns the number of the call; its promise may already be settled. */
    method Next() returns (call: nat)
      requires Valid()
      modifies this
      ensures Valid() && call == old(calls) && calls == call + 1 && pushed == old(pushed) && closed == old(closed)
    {
      call := calls;
      calls := calls + 1;
      if |queue| > 0 {
        settled := settled[call := Item(queue[0])];
        queue := queue[1..];
      } else if closed {
        settled := settled[call := Done];
      } else {
        resolvers := resolvers + [call];
      }
      forall i: nat | i < calls
        ensures Settled(i, pushed, closed, settled)
      {
        assert i < call ==> old(Settled(i, pushed, closed, settled));
      }
    }
  }

  // ----- Whole sessions -----

  datatype Op<T> = DoPush(item: T) | DoNext | DoClose

  predicate ClosedBy<T>(script: seq<Op<T>>) {
    exists i :: 0 <= i < |script| && script[i].DoClose?
  }

  /** The items pushed before the first close. */
  function PushedBy<T>(script: seq<Op<T>>): seq<T> {
    if script == [] then []
    else
      var before := script[..|script| - 1];
      var last := script[|script| - 1];
      PushedBy(before) + if last.DoPush? && !ClosedBy(before) then [last.item] else []
  }

  function CallsIn<T>(script: seq<Op<T>>): nat {
    if script == [] then 0 else CallsIn(script[..|script| - 1]) + if script[|script| - 1].DoNext? then 1 else 0
  }

  /**
   For every interleaving of push, next and close (the iterator's return and throw close too):
   the i-th next call gets exactly the i-th item pushed before the close; a call beyond those
   gets done if the queue is closed and waits otherwise; items pushed before the close and not
   yet asked for are still there, in order; items and waiting readers never coexist, and no
   reader waits on a closed queue.
   */
  method RunSession<T(==)>(script: seq<Op<T>>) returns (settled: map<nat, Delivery<T>>, left: seq<T>, waiting: seq<nat>)
    ensures forall i: nat :: i < CallsIn(script) ==> Settled(i, PushedBy(script), ClosedBy(script), settled)
    ensures forall i :: i in settled ==> i < CallsIn(script)
    ensures left == if CallsIn(script) <= |PushedBy(script)| then PushedBy(script)[CallsIn(script)..] else []
    ensures left == [] || waiting == []
    ensures ClosedBy(script) ==> waiting == []
    ensures forall i: nat :: i in waiting <==> i < CallsIn(script) && i !in settled
  {
    var q := new AsyncQueue<T>();
    assert script[..0] == [];
    for n := 0 to |script|
      invariant fresh(q) && q.Valid()
      invariant q.pushed == PushedBy(script[..n]) && q.calls == CallsIn(script[..n]) && q.closed == ClosedBy(script[..n])
    {
      OneMoreOp(script, n);
      match script[n] {
        case DoPush(item) => var ok := q.Push(item);
        case DoNext => var call := q.Next();
        case DoClose => q.Close();
      }
    }
    assert script[..|script|] == script;
    settled, left, waiting := q.settled, q.queue, q.resolvers;
    WaitingExactly(q);
  }

  lemma OneMoreOp<T>(script: seq<Op<T>>, n: nat)
    requires n < |script|
    ensures PushedBy(script[..n + 1]) ==
            PushedBy(script[..n]) + if script[n].DoPush? && !ClosedBy(script[..n]) then [script[n].item] else []
    ensures CallsIn(script[..n + 1]) == CallsIn(script[..n]) + if script[n].DoNext? then 1 else 0
    ensures ClosedBy(script[..n + 1]) == (ClosedBy(script[..n]) || script[n].DoClose?)
  {
    var more := script[..n + 1];
    assert more[..n] == script[..n] && more[n] == script[n];
    if ClosedBy(script[..n]) {
      var i :| 0 <= i < n && script[..n][i].DoClose?;
      assert more[i].DoClose?;
    }
    if script[n].DoClose? {
      assert more[n].DoClose?;
    }
    if ClosedBy(more) {
      var i :| 0 <= i < n + 1 && more[i].DoClose?;
      assert i == n || script[..n][i].DoClose?;
    }
  }

  lemma WaitingExactly<T>(q: AsyncQueue<T>)
    requires q.Valid()
    ensures forall i: nat :: i in q.resolvers <==> i < q.calls && i !in q.settled
  {
    forall i: nat | i < q.calls
      ensures i in q.resolvers <==> i !in q.settled
    {
      assert Settled(i, q.pushed, q.closed, q.settled);
      if i >= |q.pushed| && !q.closed {
        assert q.resolvers[i - |q.pushed|] == i;
      }
    }
  }
}
