/**
 Open-file handles of a mount, as values: which id the next handle gets, and which
 handles a collection may evict.
 */
module HandleTable {

  /** An open host file; `file` identifies the host descriptor. Time zero stands for the zero time. */
  datatype Handle = Handle(file: nat, append: bool, ino: nat, lastUsed: int)

  type Handles = map<nat, Handle>

  // ----- Handle ids: unsigned 64-bit, zero never used -----

  const LAST_ID: nat := 0xFFFF_FFFF_FFFF_FFFF

  predicate ValidId(fh: nat) {
    1 <= fh <= LAST_ID
  }

  /** The 64-bit increment that skips zero on wrap-around. */
  function Bump(fh: nat): (r: nat)
    requires ValidId(fh)
    ensures ValidId(r)
  {
    var r := (fh + 1) % 0x1_0000_0000_0000_0000;
    if r == 0 then 1 else r
  }

  /** The id reached from `start` after k increments. */
  function Nth(start: nat, k: nat): (r: nat)
    requires ValidId(start) && k < LAST_ID
    ensures ValidId(r)
  {
    if start + k <= LAST_ID then start + k else start + k - LAST_ID
  }

  /** Increments needed to get from a to b, across the wrap if need be. */
  function Distance(a: nat, b: nat): (d: nat)
    requires ValidId(a) && ValidId(b)
    ensures d < LAST_ID && Nth(a, d) == b
  {
    if a <= b then b - a else b + LAST_ID - a
  }

  /** fh is the first id not in use when counting up from `start`. */
  ghost predicate IsFirstFree(handles: Handles, start: nat, fh: nat)
    requires ValidId(start)
  {
    && ValidId(fh) && fh !in handles
    && forall k: nat :: k < Distance(start, fh) ==> Nth(start, k) in handles
  }

  function IdsUpTo(n: nat): (ids: set<nat>)
    ensures |ids| == n
    ensures forall fh :: fh in ids <==> 1 <= fh <= n
  {
    if n == 0 then {} else IdsUpTo(n - 1) + {n}
  }

  /** Fewer than 2^64 - 1 handles leave some id free. */
  lemma SomeIdFree(handles: Handles)
    requires |handles| < LAST_ID
    ensures exists fh :: ValidId(fh) && fh !in handles
  {
    if forall fh :: ValidId(fh) ==> fh in handles {
      SubsetSize(IdsUpTo(LAST_ID), handles.Keys);
      assert false;
    }
  }

  lemma SubsetSize<T>(a: set<T>, b: set<T>)
    requires a <= b
    ensures |a| <= |b|
  {
    assert b == a + (b - a);
  }

  lemma {:induction false} FirstFreeFrom(handles: Handles, start: nat, at: nat, free: nat)
    requires ValidId(start) && ValidId(at) && ValidId(free) && free !in handles
    requires Distance(start, at) <= Distance(start, free)
    requires forall k: nat :: k < Distance(start, at) ==> Nth(start, k) in handles
    ensures exists fh :: IsFirstFree(handles, start, fh)
    decreases Distance(start, free) - Distance(start, at)
  {
    if at !in handles {
      assert IsFirstFree(handles, start, at);
    } else {
      FirstFreeFrom(handles, start, Bump(at), free);
    }
  }

  lemma FirstFreeExists(handles: Handles, start: nat)
    requires ValidId(start) && |handles| < LAST_ID
    ensures exists fh :: IsFirstFree(handles, start, fh)
  {
    SomeIdFree(handles);
    var free :| ValidId(free) && free !in handles;
    FirstFreeFrom(handles, start, start, free);
  }

  lemma FirstFreeUnique(handles: Handles, start: nat, a: nat, b: nat)
    requires ValidId(start)
    requires IsFirstFree(handles, start, a) && IsFirstFree(handles, start, b)
    ensures a == b
  {
    assert Nth(start, Distance(start, a)) == a;
    assert Nth(start, Distance(start, b)) == b;
  }

  /** The id the allocator hands out. */
  ghost function FirstFree(handles: Handles, start: nat): (fh: nat)
    requires ValidId(start) && |handles| < LAST_ID
    ensures IsFirstFree(handles, start, fh)
  {
    FirstFreeExists(handles, start);
    var fh :| IsFirstFree(handles, start, fh);
    fh
  }

  // One round of the allocator's search, and how it starts and ends.

  lemma Started(start: nat, free: nat)
    requires ValidId(start) && ValidId(free)
    ensures Distance(start, start) == 0 <= Distance(start, free)
  {
  }

  lemma Skipped(handles: Handles, start: nat, fh: nat, free: nat)
    requires ValidId(start) && ValidId(fh) && ValidId(free) && fh in handles && free !in handles
    requires Distance(start, fh) <= Distance(start, free)
    requires forall k: nat :: k < Distance(start, fh) ==> Nth(start, k) in handles
    ensures ValidId(Bump(fh)) && Distance(start, fh) < Distance(start, Bump(fh)) <= Distance(start, free)
    ensures forall k: nat :: k < Distance(start, Bump(fh)) ==> Nth(start, k) in handles
  {
  }

  lemma FoundFree(handles: Handles, start: nat, fh: nat)
    requires ValidId(start) && ValidId(fh) && fh !in handles && |handles| < LAST_ID
    requires forall k: nat :: k < Distance(start, fh) ==> Nth(start, k) in handles
    ensures fh == FirstFree(handles, start)
  {
    FirstFreeUnique(handles, start, fh, FirstFree(handles, start));
  }

  // ----- Collection -----

  function FileSet(handles: Handles): set<nat> {
    set fh | fh in handles :: handles[fh].file
  }

  ghost predicate DistinctFiles(handles: Handles) {
    forall a, b :: a in handles && b in handles && a != b ==> handles[a].file != handles[b].file
  }

  predicate IsIdle(h: Handle, cutoff: int) {
    h.lastUsed != 0 && h.lastUsed < cutoff
  }

  function Idle(handles: Handles, ttl: int, now: int): set<nat> {
    set fh | fh in handles && ttl > 0 && IsIdle(handles[fh], now - ttl)
  }

  lemma IdleIs(handles: Handles, ttl: int, now: int, fh: nat)
    requires fh in handles
    ensures fh in Idle(handles, ttl, now) <==> ttl > 0 && IsIdle(handles[fh], now - ttl)
  {
  }

  /**
   after is a possible outcome of handle collection: all idle handles go; if more than the
   limit are left, the least recently used go until the limit is met (ties in any order).
   */
  ghost predicate HandleGc(handles: Handles, ttl: int, limit: int, now: int, after: Handles) {
    var rest := handles - Idle(handles, ttl, now);
    var overflow := rest.Keys - after.Keys;
    && after == rest - overflow
    && |overflow| == (if limit > 0 && |rest| > limit then |rest| - limit else 0)
    && forall v, s :: v in overflow && s in after ==> rest[v].lastUsed <= rest[s].lastUsed
  }

  lemma HandleGcSizes(handles: Handles, ttl: int, limit: int, now: int, after: Handles)
    requires HandleGc(handles, ttl, limit, now, after)
    ensures var rest := handles - Idle(handles, ttl, now);
            && |after| == |rest| - |rest.Keys - after.Keys|
            && (limit > 0 ==> |after| <= limit)
            && (rest.Keys - after.Keys != {} ==> limit > 0 && |after| == limit)
  {
  }

  /** When every handle has been used, those left after the idle ones go are the recent ones. */
  lemma RestIs(handles: Handles, ttl: int, now: int)
    requires forall fh :: fh in handles ==> handles[fh].lastUsed != 0
    ensures forall fh :: fh in handles - Idle(handles, ttl, now)
                         <==> fh in handles && !(ttl > 0 && handles[fh].lastUsed < now - ttl)
  {
  }

  /**
   After a collection with a positive limit at most that many handles remain, exactly that
   many if the limit forced evictions; no survivor is idle; every survivor was used no
   earlier than every handle evicted for overflow; survivors are unchanged.
   */
  lemma HandleGcOutcome(handles: Handles, ttl: int, limit: int, now: int, after: Handles)
    requires HandleGc(handles, ttl, limit, now, after)
    requires forall fh :: fh in handles ==> handles[fh].lastUsed != 0
    ensures limit > 0 ==> |after| <= limit
    ensures forall fh :: fh in after ==> fh in handles && after[fh] == handles[fh]
    ensures ttl > 0 ==> forall fh :: fh in after ==> after[fh].lastUsed >= now - ttl
    ensures forall fh :: fh in handles && fh !in after && !(ttl > 0 && handles[fh].lastUsed < now - ttl)
                         ==> limit > 0 && |after| == limit
    ensures forall fh, s :: fh in handles && fh !in after && !(ttl > 0 && handles[fh].lastUsed < now - ttl) && s in after
                            ==> handles[fh].lastUsed <= after[s].lastUsed
  {
    hide Idle;
    HandleGcSizes(handles, ttl, limit, now, after);
    var rest := handles - Idle(handles, ttl, now);
    RestIs(handles, ttl, now);
    forall fh | fh in handles && fh !in after && !(ttl > 0 && handles[fh].lastUsed < now - ttl)
      ensures fh in rest.Keys - after.Keys
    {
    }
  }
}
