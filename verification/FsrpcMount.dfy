/**
 The mount object of the FS-RPC server. Its maps and counters are updated in place; loops
 over a map visit the keys in an arbitrary order, as the host language does. Every method is
 proved to compute the corresponding function of `InodeTable`, `HandleTable` or `MountSpec`,
 so the outcome does not depend on that order except where the specification leaves a choice.
 */
module FsrpcMountObject {
  import opened Common
  import opened Paths
  import opened InodeTable
  import opened HandleTable
  import opened HostFs
  import opened Readdir
  import opened MountSpec
  import opened MountRuns

  /** Removing one more path from a table that has lost some. */
  lemma RemoveOneMore(t: Table, paths: set<Path>, p: Path)
    requires Consistent(t)
    ensures Remove(RemoveAll(t, paths), p) == RemoveAll(t, paths + {p})
    ensures Consistent(RemoveAll(t, paths + {p}))
  {
  }

  /** Removing a path that is not stored changes nothing. */
  lemma RemoveUnstored(t: Table, p: Path)
    requires Consistent(t) && p !in t.pathToIno
    ensures Remove(t, p) == t
  {
  }

  /** The keys a rename sets, with the inodes they get, after visiting the given source keys. */
  ghost predicate UpdatesFor(m: map<Path, nat>, src: Path, dst: Path, visited: set<Path>, updates: map<Path, nat>) {
    && (forall q :: q in updates <==> dst <= q && Rebase(q, dst, src) in m && Rebase(q, dst, src) in visited)
    && (forall q :: q in updates ==> updates[q] == m[Rebase(q, dst, src)])
  }

  lemma UpdatesAfter(m: map<Path, nat>, src: Path, dst: Path, visited: set<Path>, updates: map<Path, nat>, p: Path)
    requires UpdatesFor(m, src, dst, visited, updates) && p in m
    ensures src <= p ==> UpdatesFor(m, src, dst, visited + {p}, updates[Rebase(p, src, dst) := m[p]])
    ensures !(src <= p) ==> UpdatesFor(m, src, dst, visited + {p}, updates)
  {
    if src <= p {
      RebaseInverse(p, src, dst);
      forall q | dst <= q && Rebase(q, dst, src) == p
        ensures q == Rebase(p, src, dst)
      {
        RebaseInverse(q, dst, src);
      }
    }
  }

  /** The stored paths at or below src. */
  function Below(t: Table, src: Path): set<Path> {
    set p | p in t.pathToIno && src <= p
  }

  lemma BelowIs(t: Table, src: Path, p: Path)
    ensures p in Below(t, src) <==> p in t.pathToIno && src <= p
  {
  }

  lemma SourcesLeft(t: Table, src: Path, removed: set<Path>)
    ensures Below(t, src) <= RemoveAll(t, removed).pathToIno.Keys + removed
    ensures RemoveAll(t, removed).pathToIno.Keys <= t.pathToIno.Keys
  {
  }

  /** The table while the updates are being written back, those in `written` already done. */
  ghost function PartlyWritten(t: Table, src: Path, dst: Path, updates: map<Path, nat>, written: set<Path>): Table {
    Table(
      (map p | p in t.pathToIno && !(src <= p) && p !in updates :: t.pathToIno[p])
      + (map q | q in updates && q in written :: updates[q]),
      map i | i in t.inoToPath
              && (if src <= t.inoToPath[i] then Rebase(t.inoToPath[i], src, dst) in written else t.inoToPath[i] !in updates)
        :: if src <= t.inoToPath[i] then Rebase(t.inoToPath[i], src, dst) else t.inoToPath[i],
      t.nextIno)
  }

  lemma NothingWritten(t: Table, src: Path, dst: Path, updates: map<Path, nat>, moved: set<Path>)
    requires Consistent(t) && moved == Below(t, src)
    ensures RemoveAll(t, updates.Keys + moved) == PartlyWritten(t, src, dst, updates, {})
  {
    var a, b := RemoveAll(t, updates.Keys + moved), PartlyWritten(t, src, dst, updates, {});
    assert a.pathToIno == b.pathToIno;
    assert a.inoToPath == b.inoToPath;
  }

  lemma OneWritten(t: Table, src: Path, dst: Path, updates: map<Path, nat>, written: set<Path>, q: Path)
    requires Consistent(t) && UpdatesFor(t.pathToIno, src, dst, t.pathToIno.Keys, updates)
    requires q in updates
    ensures var cur := PartlyWritten(t, src, dst, updates, written);
            PartlyWritten(t, src, dst, updates, written + {q})
            == Table(cur.pathToIno[q := updates[q]], cur.inoToPath[updates[q] := q], cur.nextIno)
  {
    hide UpdatesFor; hide Consistent; hide Rebase;
    OneInodeWritten(t, src, dst, updates, written, q);
    var cur, next := PartlyWritten(t, src, dst, updates, written), PartlyWritten(t, src, dst, updates, written + {q});
    assert next.pathToIno == cur.pathToIno[q := updates[q]];
  }

  /** The inode a key is given comes from exactly one stored path. */
  lemma UpdateOrigin(t: Table, src: Path, dst: Path, updates: map<Path, nat>, q: Path)
    requires Consistent(t) && UpdatesFor(t.pathToIno, src, dst, t.pathToIno.Keys, updates) && q in updates
    ensures var i := updates[q];
            i in t.inoToPath && src <= t.inoToPath[i] && Rebase(t.inoToPath[i], src, dst) == q
    ensures forall i :: i in t.inoToPath && src <= t.inoToPath[i] && Rebase(t.inoToPath[i], src, dst) == q ==> i == updates[q]
  {
    RebaseInverse(q, dst, src);
    forall i | i in t.inoToPath && src <= t.inoToPath[i] && Rebase(t.inoToPath[i], src, dst) == q
      ensures i == updates[q]
    {
      RebaseInverse(t.inoToPath[i], src, dst);
    }
  }

  lemma OneInodeWritten(t: Table, src: Path, dst: Path, updates: map<Path, nat>, written: set<Path>, q: Path)
    requires Consistent(t) && UpdatesFor(t.pathToIno, src, dst, t.pathToIno.Keys, updates)
    requires q in updates
    ensures PartlyWritten(t, src, dst, updates, written + {q}).inoToPath
            == PartlyWritten(t, src, dst, updates, written).inoToPath[updates[q] := q]
  {
    hide UpdatesFor; hide Consistent; hide Rebase;
    UpdateOrigin(t, src, dst, updates, q);
    var cur, next := PartlyWritten(t, src, dst, updates, written), PartlyWritten(t, src, dst, updates, written + {q});
    assert next.inoToPath == cur.inoToPath[updates[q] := q];
  }

  lemma AllPathsWritten(m: map<Path, nat>, src: Path, dst: Path, updates: map<Path, nat>)
    requires UpdatesFor(m, src, dst, m.Keys, updates)
    ensures (map p | p in m && !(src <= p) && p !in updates :: m[p]) + updates == MoveSubtree(m, src, dst)
  {
  }

  lemma UpdatesAreLandings(t: Table, src: Path, dst: Path, updates: map<Path, nat>)
    requires Consistent(t) && UpdatesFor(t.pathToIno, src, dst, t.pathToIno.Keys, updates)
    ensures forall i :: i in t.inoToPath && src <= t.inoToPath[i] ==> Rebase(t.inoToPath[i], src, dst) in updates
    ensures forall q :: q in updates <==> Lands(t.pathToIno, src, dst, q)
  {
    forall i | i in t.inoToPath && src <= t.inoToPath[i]
      ensures Rebase(t.inoToPath[i], src, dst) in updates
    {
      RebaseInverse(t.inoToPath[i], src, dst);
    }
  }

  lemma AllInodesWritten(t: Table, src: Path, dst: Path, updates: map<Path, nat>)
    requires Consistent(t) && UpdatesFor(t.pathToIno, src, dst, t.pathToIno.Keys, updates)
    ensures PartlyWritten(t, src, dst, updates, updates.Keys).inoToPath == Remap(t, src, dst).inoToPath
  {
    hide UpdatesFor; hide Consistent; hide Rebase; hide Lands; hide MoveSubtree;
    UpdatesAreLandings(t, src, dst, updates);
    assert PartlyWritten(t, src, dst, updates, updates.Keys).inoToPath == Remap(t, src, dst).inoToPath;
  }

  lemma AllWritten(t: Table, src: Path, dst: Path, updates: map<Path, nat>)
    requires Consistent(t) && UpdatesFor(t.pathToIno, src, dst, t.pathToIno.Keys, updates)
    ensures PartlyWritten(t, src, dst, updates, updates.Keys) == Remap(t, src, dst)
  {
    AllPathsWritten(t.pathToIno, src, dst, updates);
    AllInodesWritten(t, src, dst, updates);
    hide UpdatesFor; hide Consistent; hide MoveSubtree;
    assert (map q | q in updates && q in updates.Keys :: updates[q]) == updates;
  }

  // ----- Files to be closed -----

  /** left is what remains of all, and closing lists the file of every handle gone, each once. */
  ghost predicate Collected(all: Handles, left: Handles, closing: seq<nat>) {
    && (forall fh :: fh in left ==> fh in all && left[fh] == all[fh])
    && multiset(closing) == multiset(FileSet(all - left.Keys))
  }

  lemma NoneCollected(all: Handles)
    ensures Collected(all, all, [])
  {
    assert FileSet(all - all.Keys) == {};
  }

  /** The files of the handles gone in two steps are those of the first and those of the second. */
  lemma FilesOfTwoSteps(all: Handles, mid: Handles, left: Handles)
    requires DistinctFiles(all)
    requires forall fh :: fh in mid ==> fh in all && mid[fh] == all[fh]
    requires forall fh :: fh in left ==> fh in mid && left[fh] == mid[fh]
    ensures multiset(FileSet(all - left.Keys)) == multiset(FileSet(all - mid.Keys)) + multiset(FileSet(mid - left.Keys))
  {
    var whole, first, second := all - left.Keys, all - mid.Keys, mid - left.Keys;
    forall f
      ensures f in FileSet(whole) <==> f in FileSet(first) || f in FileSet(second)
      ensures !(f in FileSet(first) && f in FileSet(second))
    {
      if f in FileSet(whole) {
        var fh :| fh in whole && whole[fh].file == f;
        assert (fh in first && first[fh].file == f) || (fh in second && second[fh].file == f);
      }
      if f in FileSet(first) {
        var fh :| fh in first && first[fh].file == f;
        assert fh in whole && whole[fh].file == f;
      }
      if f in FileSet(second) {
        var fh :| fh in second && second[fh].file == f;
        assert fh in whole && whole[fh].file == f;
      }
    }
  }

  lemma OneCollected(all: Handles, left: Handles, closing: seq<nat>, fh: nat)
    requires DistinctFiles(all) && Collected(all, left, closing) && fh in left
    ensures Collected(all, left - {fh}, closing + [left[fh].file])
  {
    FilesOfTwoSteps(all, left, left - {fh});
    var gone := left - (left - {fh}).Keys;
    assert gone.Keys == {fh} && gone[fh] == left[fh];
    assert FileSet(gone) == {left[fh].file};
  }

  lemma CollectedTwice(all: Handles, mid: Handles, left: Handles, a: seq<nat>, b: seq<nat>)
    requires DistinctFiles(all) && Collected(all, mid, a) && Collected(mid, left, b)
    ensures Collected(all, left, a + b)
  {
    FilesOfTwoSteps(all, mid, left);
  }

  lemma StillDistinct(all: Handles, left: Handles, closing: seq<nat>)
    requires DistinctFiles(all) && Collected(all, left, closing)
    ensures DistinctFiles(left)
  {
  }

  lemma AllCollected(all: Handles, closing: seq<nat>)
    requires Collected(all, map[], closing)
    ensures multiset(closing) == multiset(FileSet(all))
  {
    var none: Handles := map[];
    assert all - none.Keys == all;
  }

  /** What the two evictions leave is an outcome of handle collection. */
  lemma HandleGcHolds(all: Handles, ttl: int, limit: int, now: int, after: Handles)
    requires var rest := all - Idle(all, ttl, now);
             if limit > 0 && |rest| > limit then
               && after == rest - (rest.Keys - after.Keys)
               && |rest.Keys - after.Keys| == |rest| - limit
               && forall v, s :: v in rest.Keys - after.Keys && s in after ==> rest[v].lastUsed <= rest[s].lastUsed
             else after == rest
    ensures HandleGc(all, ttl, limit, now, after)
  {
    hide Idle;
    var rest := all - Idle(all, ttl, now);
    assert after == rest ==> rest.Keys - after.Keys == {};
    assert after == rest ==> after == rest - (rest.Keys - after.Keys);
  }

  // ----- Evicting idle handles -----

  /** The handles while the idle ones are being dropped, those in `todo` not yet looked at. */
  ghost function WithoutIdle(all: Handles, idle: set<nat>, todo: set<nat>): Handles {
    map fh | fh in all && (fh in todo || fh !in idle) :: all[fh]
  }

  lemma NoneIdle(all: Handles, idle: set<nat>)
    ensures WithoutIdle(all, idle, all.Keys) == all && WithoutIdle(all, idle, {}) == all - idle
  {
  }

  lemma OneIdle(all: Handles, idle: set<nat>, todo: set<nat>, fh: nat)
    requires fh in all && fh in todo
    ensures var now := WithoutIdle(all, idle, todo);
            && fh in now && now[fh] == all[fh]
            && WithoutIdle(all, idle, todo - {fh}) == if fh in idle then now - {fh} else now
  {
  }

  // ----- Sorting handles by last use -----

  datatype Candidate = Candidate(fh: nat, lastUsed: int)

  predicate OldestFirst(cs: seq<Candidate>) {
    forall i, j :: 0 <= i < j < |cs| ==> cs[i].lastUsed <= cs[j].lastUsed
  }

  function Insert(c: Candidate, cs: seq<Candidate>): (r: seq<Candidate>)
    requires OldestFirst(cs)
    ensures OldestFirst(r) && multiset(r) == multiset(cs) + multiset{c}
    ensures cs != [] ==> r[0] == c || r[0] == cs[0]
  {
    if cs == [] || c.lastUsed < cs[0].lastUsed then [c] + cs
    else
      assert cs == [cs[0]] + cs[1..];
      var rest := Insert(c, cs[1..]);
      InsertedAbove(cs[0], c, cs[1..], rest);
      [cs[0]] + rest
  }

  lemma InsertedAbove(least: Candidate, c: Candidate, cs: seq<Candidate>, r: seq<Candidate>)
    requires multiset(r) == multiset(cs) + multiset{c}
    requires least.lastUsed <= c.lastUsed && forall i :: 0 <= i < |cs| ==> least.lastUsed <= cs[i].lastUsed
    ensures forall i :: 0 <= i < |r| ==> least.lastUsed <= r[i].lastUsed
  {
    forall i | 0 <= i < |r|
      ensures least.lastUsed <= r[i].lastUsed
    {
      assert r[i] in multiset(r);
      assert r[i] == c || r[i] in cs;
    }
  }

  /** Any order that puts older candidates first would do; only that is used below. */
  method SortCandidates(cs: seq<Candidate>) returns (sorted: seq<Candidate>)
    ensures multiset(sorted) == multiset(cs) && OldestFirst(sorted)
  {
    sorted := [];
    for n := 0 to |cs|
      invariant multiset(sorted) == multiset(cs[..n]) && OldestFirst(sorted)
    {
      assert cs[..n + 1] == cs[..n] + [cs[n]];
      sorted := Insert(cs[n], sorted);
    }
    assert cs[..|cs|] == cs;
  }

  /** cs lists every handle of m once, with its time stamp. */
  ghost predicate ListsHandles(m: Handles, cs: seq<Candidate>) {
    && |cs| == |m|
    && (forall i :: 0 <= i < |cs| ==> cs[i].fh in m && cs[i].lastUsed == m[cs[i].fh].lastUsed)
    && (forall i, j :: 0 <= i < j < |cs| ==> cs[i].fh != cs[j].fh)
  }

  lemma ListsAll(m: Handles, cs: seq<Candidate>)
    requires ListsHandles(m, cs)
    ensures |cs| == |m|
  {
  }

  lemma {:induction false} SameMembers<T>(a: seq<T>, b: seq<T>)
    requires multiset(a) == multiset(b)
    ensures |a| == |b|
    ensures forall x :: x in a <==> x in b
  {
    assert |multiset(a)| == |a| && |multiset(b)| == |b|;
    forall x
      ensures x in a <==> x in b
    {
      assert x in a <==> x in multiset(a);
      assert x in b <==> x in multiset(b);
    }
  }

  /** A sequence whose elements are as many as its length has no duplicates, and conversely. */
  lemma {:induction false} DistinctCount<T>(a: seq<T>)
    ensures (forall i, j :: 0 <= i < j < |a| ==> a[i] != a[j]) <==> (forall x :: multiset(a)[x] <= 1)
  {
    if a == [] {
    } else {
      var n := |a| - 1;
      DistinctCount(a[..n]);
      assert a == a[..n] + [a[n]];
      assert multiset(a) == multiset(a[..n]) + multiset{a[n]};
      if forall x :: multiset(a)[x] <= 1 {
        assert forall x :: multiset(a[..n])[x] <= multiset(a)[x];
        assert multiset(a)[a[n]] == multiset(a[..n])[a[n]] + 1;
        assert a[n] !in multiset(a[..n]);
        forall i, j | 0 <= i < j < |a|
          ensures a[i] != a[j]
        {
          if j == n {
            assert a[..n][i] in multiset(a[..n]);
          } else {
            assert a[..n][i] != a[..n][j];
          }
        }
      }
      if forall i, j :: 0 <= i < j < |a| ==> a[i] != a[j] {
        assert forall i, j :: 0 <= i < j < n ==> a[..n][i] == a[i] && a[..n][j] == a[j];
        assert a[n] !in a[..n];
      }
    }
  }

  /** Sorting keeps the listing property. */
  lemma SortedListsHandles(m: Handles, cs: seq<Candidate>, sorted: seq<Candidate>)
    requires ListsHandles(m, cs) && multiset(sorted) == multiset(cs)
    ensures ListsHandles(m, sorted)
  {
    SameMembers(sorted, cs);
    DistinctCount(cs);
    DistinctCount(sorted);
    forall i | 0 <= i < |sorted|
      ensures sorted[i].fh in m && sorted[i].lastUsed == m[sorted[i].fh].lastUsed
    {
      assert sorted[i] in cs;
    }
    forall i, j | 0 <= i < j < |sorted|
      ensures sorted[i].fh != sorted[j].fh
    {
      assert sorted[i] != sorted[j];
    }
  }

  /** The ids of the first n candidates. */
  ghost function FirstIds(cs: seq<Candidate>, n: nat): set<nat>
    requires n <= |cs|
  {
    set k | 0 <= k < n :: cs[k].fh
  }

  lemma NoIds(cs: seq<Candidate>)
    ensures FirstIds(cs, 0) == {}
  {
  }

  lemma OneMoreId(cs: seq<Candidate>, n: nat)
    requires n < |cs|
    ensures FirstIds(cs, n + 1) == FirstIds(cs, n) + {cs[n].fh}
  {
  }

  lemma {:induction false} FirstIdsSize(m: Handles, cs: seq<Candidate>, n: nat)
    requires ListsHandles(m, cs) && n <= |cs|
    ensures |FirstIds(cs, n)| == n && FirstIds(cs, n) <= m.Keys
  {
    if n > 0 {
      FirstIdsSize(m, cs, n - 1);
      OneMoreId(cs, n - 1);
      assert cs[n - 1].fh !in FirstIds(cs, n - 1);
    }
  }

  /** The later handles of a list sorted by age were used no earlier than the first. */
  lemma FirstAreOldest(m: Handles, sorted: seq<Candidate>, n: nat)
    requires ListsHandles(m, sorted) && OldestFirst(sorted) && n <= |sorted|
    ensures forall v, s :: v in FirstIds(sorted, n) && s in m && s !in FirstIds(sorted, n)
                           ==> v in m && m[v].lastUsed <= m[s].lastUsed
  {
    forall v, s | v in FirstIds(sorted, n) && s in m && s !in FirstIds(sorted, n)
      ensures v in m && m[v].lastUsed <= m[s].lastUsed
    {
      var a :| 0 <= a < n && sorted[a].fh == v;
      var b := IndexOf(m, sorted, s);
      assert n <= b;
    }
  }

  lemma IndexOf(m: Handles, cs: seq<Candidate>, fh: nat) returns (k: nat)
    requires ListsHandles(m, cs) && fh in m
    ensures k < |cs| && cs[k].fh == fh
  {
    FirstIdsSize(m, cs, |cs|);
    SubsetSameSize(FirstIds(cs, |cs|), m.Keys);
    k :| 0 <= k < |cs| && cs[k].fh == fh;
  }

  lemma DroppedOne(t: Table, dropped: set<Path>, p: Path)
    requires p in t.pathToIno && p !in dropped && dropped <= t.pathToIno.Keys
    ensures |RemoveAll(t, dropped + {p}).pathToIno| == |t.pathToIno| - |dropped| - 1
    ensures p in RemoveAll(t, dropped).pathToIno && RemoveAll(t, dropped).pathToIno[p] == t.pathToIno[p]
  {
  }

  lemma EvictableIs(t: Table, root: Path, pinned: set<nat>, gone: set<Path>, p: Path)
    requires p in t.pathToIno
    ensures p in Evictable(t, root, pinned, gone)
            <==> t.pathToIno[p] !in pinned && (!IsWithinRoot(root, p) || p in gone)
  {
  }

  lemma NoInodeDropped(t: Table, root: Path, pinned: set<nat>, gone: set<Path>, limit: int)
    ensures RemoveAll(t, {}) == t
    ensures limit <= 0 || |t.pathToIno| <= limit ==> InodeGc(t, root, pinned, gone, limit, t)
  {
  }

  lemma InodesDropped(t: Table, root: Path, pinned: set<nat>, gone: set<Path>, limit: int, dropped: set<Path>)
    requires 0 < limit < |t.pathToIno| && forall p :: p in dropped ==> p in Evictable(t, root, pinned, gone)
    requires |t.pathToIno| - |dropped| >= limit
    requires |t.pathToIno| - |dropped| == limit
             || forall p :: p in t.pathToIno && p in Evictable(t, root, pinned, gone) ==> p in dropped
    ensures InodeGc(t, root, pinned, gone, limit, RemoveAll(t, dropped))
  {
    assert |t.pathToIno| - |dropped| == limit || dropped == Evictable(t, root, pinned, gone);
    SubsetSize(dropped, Evictable(t, root, pinned, gone));
    assert t.pathToIno.Keys - RemoveAll(t, dropped).pathToIno.Keys == dropped;
  }

  // ----- Requests -----

  /** Neither path of a rename the host accepted is the host's root directory. */
  lemma RenameNotRoot(s: State, r: Request, o: Oracle)
    requires TableInv(s) && r.Rename? && RenamePaths(s, r, o).Ok?
    requires var (src, dst) := RenamePaths(s, r, o).value; OsRename(s.fs, src, dst, o.fails).Ok?
    ensures var (src, dst) := RenamePaths(s, r, o).value; src != [] && dst != []
  {
  }

  /** A request that could be served before the collection can be served after it. */
  lemma GcServable(s: State, r: Request, o: Oracle, mid: State)
    requires Inv(s) && MaybeGc(s, o, mid) && |s.handles| < LAST_ID
    requires r.ReadDir? && r.ino in s.table.inoToPath ==> ListingOk(s.fs, s.table.inoToPath[r.ino], o.listing)
    ensures Servable(mid, r, o) && TableInv(mid)
  {
    GcKeeps(s, o, mid);
    hide MaybeGc; hide TreeOk;
    SubsetSize(mid.handles.Keys, s.handles.Keys);
  }

  lemma InvParts(s: State)
    requires Inv(s)
    ensures Consistent(s.table) && DistinctFiles(s.handles)
  {
  }

  /** A call served after a collection is a step of a run. */
  lemma CallServed(s: State, r: Request, o: Oracle, mid: State, reply: Reply, s': State)
    requires o.now > 0 && o.gone !! s.fs.tree.Keys
    requires MaybeGc(s, o, mid) && Servable(mid, r, o) && (s', reply) == Serve(mid, r, o)
    ensures Next(s, Call(r, o), s') && Answers(s, Call(r, o), reply, s')
  {
    hide MaybeGc; hide Servable; hide Serve;
  }

  // ----- Listing entries -----

  /** entries holds the two dot entries and one entry per name so far, with the table's inodes. */
  ghost predicate ListedSoFar(t: Table, dir: Path, names: seq<string>, kinds: map<Path, Node>,
                              entries: seq<DirEntry>, heads: seq<DirEntry>) {
    && |entries| == |names| + 2 && |heads| == 2 && entries[..2] == heads
    && forall i :: 0 <= i < |names| ==>
         && dir + [names[i]] in t.pathToIno && dir + [names[i]] in kinds
         && entries[i + 2] == DirEntry(t.pathToIno[dir + [names[i]]], names[i], kinds[dir + [names[i]]].kind)
  }

  lemma {:induction false} EnsureNamesSnoc(t: Table, dir: Path, names: seq<string>, name: string)
    ensures EnsureNames(t, dir, names + [name]) == Ensure(EnsureNames(t, dir, names), dir + [name])
    decreases |names|
  {
    if names == [] {
      assert names + [name] == [name];
      assert EnsureNames(t, dir, [name]) == EnsureNames(Ensure(t, dir + [name]), dir, []);
    } else {
      assert (names + [name])[1..] == names[1..] + [name];
      EnsureNamesSnoc(Ensure(t, dir + [names[0]]), dir, names[1..], name);
    }
  }

  lemma ListedOneMore(t: Table, dir: Path, names: seq<string>, n: nat, kinds: map<Path, Node>,
                      entries: seq<DirEntry>, heads: seq<DirEntry>)
    requires n < |names| && dir + [names[n]] in kinds
    requires ListedSoFar(EnsureNames(t, dir, names[..n]), dir, names[..n], kinds, entries, heads)
    ensures var t' := Ensure(EnsureNames(t, dir, names[..n]), dir + [names[n]]);
            && t' == EnsureNames(t, dir, names[..n + 1])
            && dir + [names[n]] in t'.pathToIno
            && ListedSoFar(t', dir, names[..n + 1], kinds,
                           entries + [DirEntry(t'.pathToIno[dir + [names[n]]], names[n], kinds[dir + [names[n]]].kind)], heads)
  {
    assert names[..n + 1] == names[..n] + [names[n]];
    EnsureNamesSnoc(t, dir, names[..n], names[n]);
    hide EnsureNames;
    var t' := Ensure(EnsureNames(t, dir, names[..n]), dir + [names[n]]);
    var more := entries + [DirEntry(t'.pathToIno[dir + [names[n]]], names[n], kinds[dir + [names[n]]].kind)];
    assert more[..2] == entries[..2];
    assert forall i :: 0 <= i < n ==> names[..n + 1][i] == names[..n][i];
  }

  lemma NothingListed(t: Table, dir: Path, names: seq<string>, kinds: map<Path, Node>, heads: seq<DirEntry>)
    requires |heads| == 2
    ensures EnsureNames(t, dir, names[..0]) == t && ListedSoFar(t, dir, names[..0], kinds, heads, heads)
  {
  }

  /** The table a listing leaves behind, after the parent of the directory has been looked up. */
  lemma ListingStarts(t: Table, root: Path, dir: Path, names: seq<string>)
    requires Consistent(t) && root <= dir && CleanPath(dir)
    requires forall i :: 0 <= i < |names| ==> ValidName(names[i])
    ensures var t1 := if dir == root then t else Ensure(t, Parent(dir));
            var t' := ReaddirTable(t, root, dir, names);
            && t' == EnsureNames(t1, dir, names)
            && (dir != root ==> Parent(dir) in t1.pathToIno && Parent(dir) in t'.pathToIno
                                && t'.pathToIno[Parent(dir)] == t1.pathToIno[Parent(dir)])
            && (forall i :: 0 <= i < |names| ==> dir + [names[i]] in t'.pathToIno)
  {
    var t1 := if dir == root then t else Ensure(t, Parent(dir));
    EnsureKeeps(t, root, Parent(dir));
    EnsureNamesKeeps(t1, root, dir, names);
    hide Consistent; hide Ensure; hide EnsureNames;
  }

  lemma ListedAll(t: Table, root: Path, ino: nat, dir: Path, names: seq<string>, kinds: map<Path, Node>,
                  entries: seq<DirEntry>, heads: seq<DirEntry>)
    requires var t' := ReaddirTable(t, root, dir, names);
             && (dir != root ==> Parent(dir) in t'.pathToIno)
             && ListedSoFar(t', dir, names, kinds, entries, heads)
             && heads == [DirEntry(ino, ".", Dir), DirEntry(if dir == root then ino else t'.pathToIno[Parent(dir)], "..", Dir)]
    ensures entries == Entries(ReaddirTable(t, root, dir, names), root, ino, dir, names, kinds)
  {
  }

  class FsrpcMount {
    const root: Path
    const mode: Mode
    const cfg: Config
    var nextIno: nat
    var nextFH: nat
    var pathToIno: map<Path, nat>
    var inoToPath: map<nat, Path>
    var handles: Handles
    var lastGC: int
    /** The host file system the mount's system calls act on. */
    var host: Fs

    ghost function Tab(): Table
      reads this
    {
      Table(pathToIno, inoToPath, nextIno)
    }

    ghost function Snapshot(): State
      reads this
    {
      State(root, mode, cfg, Tab(), handles, nextFH, lastGC, host)
    }

    constructor (root: Path, mode: Mode, cfg: Config, now: int, host: Fs)
      ensures Snapshot() == FreshState(root, mode, cfg, now, host)
    {
      this.root, this.mode, this.cfg, this.host := root, mode, cfg, host;
      pathToIno, inoToPath := map[root := 1], map[1 := root];
      nextIno, nextFH, handles, lastGC := 2, 1, map[], now;
    }

    // ----- Inode table -----

    method EnsureInode(p: Path) returns (ino: nat)
      modifies this
      ensures Snapshot() == old(Snapshot()).(table := Ensure(old(Tab()), p))
      ensures p in pathToIno && ino == pathToIno[p]
    {
      if p in pathToIno {
        return pathToIno[p];
      }
      ino := nextIno;
      nextIno := nextIno + 1;
      pathToIno := pathToIno[p := ino];
      inoToPath := inoToPath[ino := p];
    }

    method RemovePathMapping(p: Path)
      requires Consistent(Tab())
      modifies this
      ensures Snapshot() == old(Snapshot()).(table := Remove(old(Tab()), p))
    {
      if p !in pathToIno {
        RemoveUnstored(Tab(), p);
        return;
      }
      var ino := pathToIno[p];
      pathToIno := pathToIno - {p};
      if ino in inoToPath && inoToPath[ino] == p {
        inoToPath := inoToPath - {ino};
      }
      assert inoToPath == Remove(old(Tab()), p).inoToPath;
    }

    /**
     Moves the subtree of src to dst. The daemon calls it only after the host has renamed src,
     which is never the host's root directory.
     */
    method RemapPath(src: Path, dst: Path)
      requires Consistent(Tab()) && src != [] && dst != []
      modifies this
      ensures Snapshot() == old(Snapshot()).(table := Remap(old(Tab()), src, dst))
    {
      ghost var start, t := Snapshot(), Tab();
      var updates: map<Path, nat> := map[];
      var todo := pathToIno.Keys;
      while todo != {}
        invariant todo <= pathToIno.Keys && Snapshot() == start
        invariant UpdatesFor(t.pathToIno, src, dst, t.pathToIno.Keys - todo, updates)
        decreases |todo|
      {
        var p :| p in todo;
        UpdatesAfter(t.pathToIno, src, dst, t.pathToIno.Keys - todo, updates, p);
        assert t.pathToIno.Keys - todo + {p} == t.pathToIno.Keys - (todo - {p});
        if src <= p {
          updates := updates[Rebase(p, src, dst) := pathToIno[p]];
        }
        todo := todo - {p};
      }
      assert t.pathToIno.Keys - {} == t.pathToIno.Keys;
      RemoveTargets(updates.Keys);
      RemoveSources(src, t, updates.Keys);
      NothingWritten(t, src, dst, updates, Below(t, src));
      WriteBack(src, dst, updates, t);
      AllWritten(t, src, dst, updates);
    }

    /** Second loop of a rename: drop the mappings the moved paths land on. */
    method RemoveTargets(targets: set<Path>)
      requires Consistent(Tab())
      modifies this
      ensures Snapshot() == old(Snapshot()).(table := RemoveAll(old(Tab()), targets))
      ensures Consistent(Tab())
    {
      hide RemoveAll; hide Remove; hide Consistent;
      ghost var start, t := Snapshot(), Tab();
      var todo := targets;
      RemoveNone(t);
      assert targets - todo == {};
      while todo != {}
        invariant todo <= targets
        invariant Snapshot() == start.(table := RemoveAll(t, targets - todo))
        invariant Consistent(Tab())
        decreases |todo|
      {
        var p :| p in todo;
        RemoveOneMore(t, targets - todo, p);
        RemovePathMapping(p);
        assert targets - todo + {p} == targets - (todo - {p});
        todo := todo - {p};
      }
      assert targets - {} == targets;
    }

    /** Third loop of a rename: drop every mapping at or below the source. */
    method RemoveSources(src: Path, ghost t: Table, ghost removed: set<Path>)
      requires Consistent(t) && Tab() == RemoveAll(t, removed)
      modifies this
      ensures Snapshot() == old(Snapshot()).(table := RemoveAll(t, removed + Below(t, src)))
    {
      hide RemoveAll; hide Remove; hide Consistent; hide Below;
      RemoveAllKeeps(t, [], removed);
      SourcesLeft(t, src, removed);
      ghost var start := Snapshot();
      var todo := pathToIno.Keys;
      ghost var keys, gone := todo, removed;
      while todo != {}
        invariant todo <= keys && gone <= removed + Below(t, src) && removed <= gone
        invariant Below(t, src) - todo <= gone
        invariant Snapshot() == start.(table := RemoveAll(t, gone)) && Consistent(Tab())
        decreases |todo|
      {
        var p :| p in todo;
        BelowIs(t, src, p);
        if src <= p {
          RemoveOneMore(t, gone, p);
          RemovePathMapping(p);
          gone := gone + {p};
        }
        todo := todo - {p};
      }
      assert gone == removed + Below(t, src);
    }

    /** Last loop of a rename: store the moved paths. */
    method WriteBack(src: Path, dst: Path, updates: map<Path, nat>, ghost t: Table)
      requires Consistent(t) && UpdatesFor(t.pathToIno, src, dst, t.pathToIno.Keys, updates)
      requires Tab() == PartlyWritten(t, src, dst, updates, {})
      modifies this
      ensures Snapshot() == old(Snapshot()).(table := PartlyWritten(t, src, dst, updates, updates.Keys))
    {
      hide PartlyWritten; hide Consistent; hide UpdatesFor;
      ghost var start := Snapshot();
      var todo := updates.Keys;
      assert updates.Keys - todo == {};
      while todo != {}
        invariant todo <= updates.Keys
        invariant Snapshot() == start.(table := PartlyWritten(t, src, dst, updates, updates.Keys - todo))
        decreases |todo|
      {
        var q :| q in todo;
        OneWritten(t, src, dst, updates, updates.Keys - todo, q);
        assert updates.Keys - todo + {q} == updates.Keys - (todo - {q});
        pathToIno := pathToIno[q := updates[q]];
        inoToPath := inoToPath[updates[q] := q];
        todo := todo - {q};
      }
      assert updates.Keys - {} == updates.Keys;
    }

    /** Drops stored paths that are gone, until the limit is met; the root and open files stay. */
    method GcInodes(gone: set<Path>)
      requires Consistent(Tab())
      modifies this
      ensures InodeGc(old(Tab()), root, Pinned(handles), gone, cfg.maxInodes, Tab())
      ensures Snapshot() == old(Snapshot()).(table := Tab())
    {
      NoInodeDropped(Tab(), root, Pinned(handles), gone, cfg.maxInodes);
      if cfg.maxInodes <= 0 || |pathToIno| <= cfg.maxInodes {
        return;
      }
      DropGone(Pinned(handles), gone);
    }

    method DropGone(pinned: set<nat>, gone: set<Path>)
      requires Consistent(Tab()) && 0 < cfg.maxInodes < |pathToIno|
      modifies this
      ensures InodeGc(old(Tab()), root, pinned, gone, cfg.maxInodes, Tab())
      ensures Snapshot() == old(Snapshot()).(table := Tab())
    {
      ghost var start, t := Snapshot(), Tab();
      NoInodeDropped(t, root, pinned, gone, cfg.maxInodes);
      ghost var dropped: set<Path> := {};
      var todo := pathToIno.Keys;
      hide Evictable; hide IsWithinRoot; hide Consistent; hide RemoveAll; hide Remove; hide InodeGc;
      while todo != {} && |pathToIno| > cfg.maxInodes
        invariant todo !! dropped && todo <= t.pathToIno.Keys && dropped <= t.pathToIno.Keys
        invariant forall p :: p in dropped ==> p in Evictable(t, root, pinned, gone)
        invariant forall p :: p in t.pathToIno && p in Evictable(t, root, pinned, gone) ==> p in dropped || p in todo
        invariant Snapshot() == start.(table := RemoveAll(t, dropped)) && Consistent(Tab())
        invariant |pathToIno| == |t.pathToIno| - |dropped| >= cfg.maxInodes
        decreases |todo|
      {
        var p :| p in todo;
        DroppedOne(t, dropped, p);
        EvictableIs(t, root, pinned, gone, p);
        todo := todo - {p};
        if pathToIno[p] !in pinned && (!IsWithinRoot(root, p) || p in gone) {
          RemoveOneMore(t, dropped, p);
          RemovePathMapping(p);
          dropped := dropped + {p};
        }
      }
      InodesDropped(t, root, pinned, gone, cfg.maxInodes, dropped);
    }

    // ----- Handles -----

    /** The next handle id: counts up from nextFH, skipping zero and ids in use. */
    method NextHandleId() returns (fh: nat)
      requires ValidId(nextFH) && |handles| < LAST_ID
      modifies this
      ensures fh == FirstFree(old(handles), old(nextFH))
      ensures Snapshot() == old(Snapshot()).(nextFH := Bump(fh))
    {
      hide Nth; hide Distance; hide Bump; hide IsFirstFree;
      ghost var start := nextFH;
      SomeIdFree(handles);
      ghost var free :| ValidId(free) && free !in handles;
      Started(start, free);
      fh := nextFH;
      nextFH := Bump(nextFH);
      while fh in handles
        invariant ValidId(fh) && nextFH == Bump(fh) && Snapshot() == old(Snapshot()).(nextFH := nextFH)
        invariant Distance(start, fh) <= Distance(start, free)
        invariant forall k: nat :: k < Distance(start, fh) ==> Nth(start, k) in handles
        decreases Distance(start, free) - Distance(start, fh)
      {
        Skipped(handles, start, fh, free);
        fh := nextFH;
        nextFH := Bump(nextFH);
      }
      FoundFree(handles, start, fh);
    }

    method CloseHandle(fh: nat) returns (found: bool)
      modifies this
      ensures found == (fh in old(handles))
      ensures Snapshot() == DoRelease(old(Snapshot()), fh).0
    {
      if fh !in handles {
        return false;
      }
      var file := handles[fh].file;
      handles := handles - {fh};
      host := OsClose(host, file);
      return true;
    }

    /** Evicts idle handles, then the least recently used ones above the limit. */
    method GcHandles(now: int) returns (toClose: seq<nat>)
      requires DistinctFiles(handles)
      modifies this
      ensures HandleGc(old(handles), cfg.idleTtl, cfg.maxHandles, now, handles)
      ensures Collected(old(handles), handles, toClose)
      ensures Snapshot() == old(Snapshot()).(handles := handles)
    {
      hide Idle; hide Collected; hide DistinctFiles; hide HandleGc;
      ghost var start := handles;
      toClose := EvictIdle(now);
      ghost var rest := handles;
      if cfg.maxHandles > 0 && |handles| > cfg.maxHandles {
        StillDistinct(start, rest, toClose);
        var overflow := EvictOverflow();
        CollectedTwice(start, rest, handles, toClose, overflow);
        toClose := toClose + overflow;
      }
      HandleGcHolds(start, cfg.idleTtl, cfg.maxHandles, now, handles);
    }

    method EvictIdle(now: int) returns (toClose: seq<nat>)
      requires DistinctFiles(handles)
      modifies this
      ensures Snapshot() == old(Snapshot()).(handles := old(handles) - Idle(old(handles), cfg.idleTtl, now))
      ensures Collected(old(handles), handles, toClose)
    {
      hide Idle; hide IsIdle; hide WithoutIdle; hide Collected; hide DistinctFiles;
      ghost var start, all := Snapshot(), handles;
      ghost var idle := Idle(all, cfg.idleTtl, now);
      var todo := handles.Keys;
      toClose := [];
      NoneIdle(all, idle);
      NoneCollected(all);
      while todo != {}
        invariant todo <= all.Keys
        invariant Snapshot() == start.(handles := WithoutIdle(all, idle, todo))
        invariant Collected(all, handles, toClose)
        decreases |todo|
      {
        var fh :| fh in todo;
        IdleIs(all, cfg.idleTtl, now, fh);
        OneIdle(all, idle, todo, fh);
        todo := todo - {fh};
        if cfg.idleTtl > 0 && IsIdle(handles[fh], now - cfg.idleTtl) {
          OneCollected(all, handles, toClose, fh);
          toClose := toClose + [handles[fh].file];
          handles := handles - {fh};
        }
      }
    }

    method ListCandidates() returns (cs: seq<Candidate>)
      ensures ListsHandles(handles, cs)
    {
      cs := [];
      var todo := handles.Keys;
      while todo != {}
        invariant todo <= handles.Keys && |cs| == |handles| - |todo|
        invariant forall i :: 0 <= i < |cs| ==> cs[i].fh in handles && cs[i].fh !in todo && cs[i].lastUsed == handles[cs[i].fh].lastUsed
        invariant forall i, j :: 0 <= i < j < |cs| ==> cs[i].fh != cs[j].fh
        decreases |todo|
      {
        var fh :| fh in todo;
        todo := todo - {fh};
        cs := cs + [Candidate(fh, handles[fh].lastUsed)];
      }
    }

    method EvictOverflow() returns (toClose: seq<nat>)
      requires 0 < cfg.maxHandles < |handles| && DistinctFiles(handles)
      modifies this
      ensures Snapshot() == old(Snapshot()).(handles := handles)
      ensures handles.Keys <= old(handles).Keys && handles == old(handles) - (old(handles).Keys - handles.Keys)
      ensures |old(handles).Keys - handles.Keys| == |old(handles)| - cfg.maxHandles
      ensures forall v, s :: v in old(handles).Keys - handles.Keys && s in handles
                             ==> old(handles)[v].lastUsed <= old(handles)[s].lastUsed
      ensures Collected(old(handles), handles, toClose)
    {
      hide ListsHandles; hide OldestFirst; hide FirstIds; hide Collected; hide DistinctFiles;
      ghost var all := handles;
      var listed := ListCandidates();
      var sorted := SortCandidates(listed);
      SortedListsHandles(all, listed, sorted);
      var extra := |handles| - cfg.maxHandles;
      ListsAll(all, sorted);
      FirstIdsSize(all, sorted, extra);
      FirstAreOldest(all, sorted, extra);
      toClose := DropFirst(sorted, extra);
      assert all.Keys - handles.Keys == FirstIds(sorted, extra);
    }

    /** Drops the first handles of a list and collects their files. */
    method DropFirst(sorted: seq<Candidate>, extra: nat) returns (toClose: seq<nat>)
      requires extra <= |sorted| && DistinctFiles(handles)
      modifies this
      ensures Snapshot() == old(Snapshot()).(handles := old(handles) - FirstIds(sorted, extra))
      ensures Collected(old(handles), handles, toClose)
    {
      hide FirstIds; hide Collected; hide DistinctFiles;
      ghost var start, all := Snapshot(), handles;
      var i := 0;
      toClose := [];
      assert all - {} == all;
      NoIds(sorted);
      NoneCollected(all);
      while i < extra && i < |sorted|
        invariant 0 <= i <= extra
        invariant Snapshot() == start.(handles := all - FirstIds(sorted, i))
        invariant Collected(all, handles, toClose)
      {
        OneMoreId(sorted, i);
        var fh := sorted[i].fh;
        if fh in handles {
          OneCollected(all, handles, toClose, fh);
          toClose := toClose + [handles[fh].file];
          handles := handles - {fh};
        }
        i := i + 1;
        assert handles == all - FirstIds(sorted, i);
      }
    }

    /** Closes the files one after the other. */
    method CloseFiles(files: seq<nat>)
      modifies this
      ensures Snapshot() == old(Snapshot()).(fs := old(host).(closed := old(host).closed + multiset(files)))
    {
      ghost var start := Snapshot();
      for i := 0 to |files|
        invariant Snapshot() == start.(fs := start.fs.(closed := start.fs.closed + multiset(files[..i])))
      {
        assert files[..i + 1] == files[..i] + [files[i]];
        host := OsClose(host, files[i]);
      }
      assert files[..|files|] == files;
    }

    /** Collection before a request, at most once per interval. */
    method MaybeGC(now: int, gone: set<Path>)
      requires Consistent(Tab()) && DistinctFiles(handles)
      modifies this
      ensures forall o: Oracle :: o.now == now && o.gone == gone ==> MaybeGc(old(Snapshot()), o, Snapshot())
    {
      hide HandleGc; hide InodeGc; hide FileSet; hide DistinctFiles; hide Consistent;
      if cfg.gcInterval > 0 && now - lastGC < cfg.gcInterval {
        return;
      }
      lastGC := now;
      var toClose := GcHandles(now);
      GcInodes(gone);
      CloseFiles(toClose);
    }

    /**
     Shutdown: the handles are taken out of the table one by one, then their files are closed
     one by one. No handle is left, and every file the server ever opened has been closed once.
     */
    method Close()
      requires FilesInv(Snapshot())
      modifies this
      ensures Snapshot() == Shutdown(old(Snapshot()))
      ensures handles == map[] && forall f: nat :: f < |host.files| ==> host.closed[f] == 1
    {
      hide Collected; hide DistinctFiles; hide FileSet;
      ghost var start, all := Snapshot(), handles;
      var files: seq<nat> := [];
      NoneCollected(all);
      while handles != map[]
        invariant Snapshot() == start.(handles := handles)
        invariant Collected(all, handles, files)
        decreases |handles|
      {
        var fh :| fh in handles;
        OneCollected(all, handles, files, fh);
        files := files + [handles[fh].file];
        handles := handles - {fh};
      }
      AllCollected(all, files);
      CloseFiles(files);
      AllClosedOnce(start);
    }

    // ----- Requests -----

    method HandleLookup(parent: nat, name: string, o: Oracle) returns (reply: Reply)
      modifies this
      ensures (Snapshot(), reply) == DoLookup(old(Snapshot()), parent, name, o)
    {
      if parent !in inoToPath {
        return Fail(ENOTDIR);
      }
      var target := ResolveChildPath(root, inoToPath[parent], name);
      if target.Err? {
        return Fail(PathErrno(target.error));
      }
      var info := Lstat(host, target.value, o.denied);
      if info.Err? {
        return Fail(info.error);
      }
      if info.value.kind == Symlink {
        return Fail(ELOOP);
      }
      var ino := EnsureInode(target.value);
      reply := Entry(ino, info.value);
    }

    method HandleGetattr(ino: nat, o: Oracle) returns (reply: Reply)
      ensures (Snapshot(), reply) == DoGetattr(Snapshot(), ino, o)
    {
      if ino !in inoToPath {
        return Fail(EINVAL);
      }
      var info := Lstat(host, inoToPath[ino], o.denied);
      if info.Err? {
        return Fail(info.error);
      }
      if info.value.kind == Symlink {
        return Fail(ELOOP);
      }
      reply := Attr(ino, info.value);
    }

    /** Gives every name an inode and lists the entries, in order. */
    method ListEntries(ino: nat, dir: Path, names: seq<string>) returns (entries: seq<DirEntry>)
      requires Consistent(Tab()) && root <= dir && CleanPath(dir)
      requires forall i :: 0 <= i < |names| ==> ValidName(names[i]) && dir + [names[i]] in host.tree
      modifies this
      ensures Snapshot() == old(Snapshot()).(table := ReaddirTable(old(Tab()), root, dir, names))
      ensures dir != root ==> Parent(dir) in pathToIno
      ensures forall i :: 0 <= i < |names| ==> dir + [names[i]] in pathToIno
      ensures entries == Entries(Tab(), root, ino, dir, names, host.tree)
    {
      hide Consistent; hide ReaddirTable; hide Ensure; hide EnsureNames; hide Entries; hide ListedSoFar; hide CleanPath;
      ghost var t := Tab();
      ListingStarts(t, root, dir, names);
      entries := [DirEntry(ino, ".", Dir)];
      var parentIno := ino;
      if dir != root {
        parentIno := EnsureInode(Parent(dir));
      }
      entries := entries + [DirEntry(parentIno, "..", Dir)];
      ghost var start, t1, heads := Snapshot(), Tab(), entries;
      var n := 0;
      NothingListed(t1, dir, names, host.tree, heads);
      while n < |names|
        invariant 0 <= n <= |names|
        invariant Snapshot() == start.(table := EnsureNames(t1, dir, names[..n]))
        invariant ListedSoFar(Tab(), dir, names[..n], host.tree, entries, heads)
      {
        var target := dir + [names[n]];
        ListedOneMore(t1, dir, names, n, host.tree, entries, heads);
        var targetIno := EnsureInode(target);
        entries := entries + [DirEntry(targetIno, names[n], host.tree[target].kind)];
        n := n + 1;
      }
      assert names[..n] == names;
      ListedAll(t, root, ino, dir, names, host.tree, entries, heads);
    }

    method HandleReadDir(ino: nat, offset: U64, maxEntries: U64, o: Oracle) returns (reply: Reply)
      requires Consistent(Tab()) && Rooted(Tab(), root)
      requires ino in inoToPath ==> ListingOk(host, inoToPath[ino], o.listing)
      modifies this
      ensures (Snapshot(), reply) == DoReadDir(old(Snapshot()), ino, offset, maxEntries, o)
    {
      if ino !in inoToPath {
        return Fail(EINVAL);
      }
      var dir := inoToPath[ino];
      var refused := DirectoryCheck(host, dir, o.denied);
      if refused.Some? {
        return Fail(refused.value);
      }
      if o.fails.Some? {
        return Fail(o.fails.value);
      }
      var entries := ListEntries(ino, dir, o.listing);
      var page := CutPage(entries, offset, maxEntries);
      reply := if page.None? then Panic else Listing(page.value);
    }

    /** The page loop; None is the panic on a negative length. */
    method CutPage(entries: seq<DirEntry>, offset: U64, maxEntries: U64) returns (page: Option<seq<PagedEntry>>)
      ensures page == PageOf(entries, offset, maxEntries)
    {
      var size := if maxEntries == 0 then 128 else maxEntries;
      var start := Int64(offset);
      if start < 0 {
        start := 0;
      }
      if start >= |entries| {
        return Some([]);
      }
      var end := Int64(start + Int64(size));
      if end > |entries| {
        end := |entries|;
      }
      if end < start {
        return None;
      }
      var result: seq<PagedEntry> := [];
      for idx := start to end
        invariant |result| == idx - start
        invariant forall k :: 0 <= k < |result| ==> result[k] == PagedEntry(entries[start + k], start + k + 1)
      {
        result := result + [PagedEntry(entries[idx], idx + 1)];
      }
      assert result == PageOf(entries, offset, maxEntries).value;
      return Some(result);
    }

    /** Enters a file the host has just opened. */
    method AddFile(fs: Fs, file: nat, append: bool, ino: nat, now: int) returns (fh: nat)
      requires CanAllocate(Snapshot())
      modifies this
      ensures (Snapshot(), fh) == AddHandle(old(Snapshot()), fs, file, append, ino, now)
    {
      host := fs;
      fh := NextHandleId();
      handles := handles[fh := HandleTable.Handle(file, append, ino, now)];
    }

    method HandleOpen(ino: nat, flags: bv64, o: Oracle) returns (reply: Reply)
      requires CanAllocate(Snapshot())
      modifies this
      ensures (Snapshot(), reply) == DoOpen(old(Snapshot()), ino, flags, o)
    {
      if ReadOnly(mode) && HasWriteIntent(flags) {
        return Fail(EROFS);
      }
      if ino !in inoToPath {
        return Fail(EINVAL);
      }
      var path := inoToPath[ino];
      var info := Lstat(host, path, o.denied);
      if info.Err? {
        return Fail(info.error);
      }
      if info.value.kind == Dir {
        return Fail(EISDIR);
      }
      if info.value.kind == Symlink {
        return Fail(ELOOP);
      }
      var openRes := OsOpen(host, path, OsOpenFlagsFromLinux(flags), o.fails);
      if openRes.Err? {
        return Fail(openRes.error);
      }
      var fh := AddFile(openRes.value.0, openRes.value.1, flags & 0x400 != 0, ino, o.now);
      reply := Opened(fh);
    }

    /** Looks a handle up and refreshes its time stamp. */
    method GetHandle(fh: nat, now: int) returns (h: Option<Handle>)
      modifies this
      ensures Snapshot() == Touch(old(Snapshot()), fh, now)
      ensures h == if fh in old(handles) then Some(old(handles)[fh]) else None
    {
      if fh !in handles {
        return None;
      }
      h := Some(handles[fh]);
      handles := handles[fh := handles[fh].(lastUsed := now)];
    }

    method HandleRead(fh: nat, offset: U64, size: U64, o: Oracle) returns (reply: Reply)
      modifies this
      ensures (Snapshot(), reply) == DoRead(old(Snapshot()), fh, offset, size, o)
    {
      var want := if size > MAX_READ then MAX_READ else size;
      var h := GetHandle(fh, o.now);
      if h.None? {
        return Fail(EBADF);
      }
      if offset >= TWO_63 {
        return Fail(EIO);
      }
      if want == 0 {
        return Data([]);
      }
      var file := h.value.file;
      if file >= |host.files| || !host.files[file].readable {
        return Fail(EBADF);
      }
      if o.fails.Some? {
        return Fail(o.fails.value);
      }
      reply := Data(Slice(BytesOf(host, host.files[file].obj), offset, want));
    }

    method HandleRelease(fh: nat) returns (reply: Reply)
      modifies this
      ensures (Snapshot(), reply) == DoRelease(old(Snapshot()), fh)
    {
      var found := CloseHandle(fh);
      reply := if found then Done else Fail(EBADF);
    }

    method HandleWrite(fh: nat, offset: U64, data: seq<Byte>, o: Oracle) returns (reply: Reply)
      modifies this
      ensures (Snapshot(), reply) == DoWrite(old(Snapshot()), fh, offset, data, o)
    {
      var h := GetHandle(fh, o.now);
      if h.None? {
        return Fail(EBADF);
      }
      var file := h.value.file;
      if file >= |host.files| {
        return Fail(EBADF);
      }
      var error: Option<int>;
      if h.value.append {
        var (fs, e) := OsAppend(host, host.files[file], data, o.fails, o.stored);
        host, error := fs, e;
      } else if offset >= TWO_63 {
        return Fail(EIO);
      } else {
        var (fs, e) := OsWriteAt(host, host.files[file], offset, data, o.fails, o.stored);
        host, error := fs, e;
      }
      reply := if error.Some? then Fail(error.value) else Wrote(|data|);
    }

    /** The parent directory and target of a request that names a child, after all checks. */
    method ResolveIn(parent: nat, name: string, o: Oracle) returns (target: Result<Path, int>)
      ensures target ==
              (if parent !in inoToPath then Err(ENOTDIR)
               else if DirectoryCheck(host, inoToPath[parent], o.denied).Some?
               then Err(DirectoryCheck(host, inoToPath[parent], o.denied).value)
               else match ResolveChildPath(root, inoToPath[parent], name)
                 case Ok(p) => Ok(p)
                 case Err(e) => Err(PathErrno(e)))
    {
      if parent !in inoToPath {
        return Err(ENOTDIR);
      }
      var refused := DirectoryCheck(host, inoToPath[parent], o.denied);
      if refused.Some? {
        return Err(refused.value);
      }
      var r := ResolveChildPath(root, inoToPath[parent], name);
      target := if r.Err? then Err(PathErrno(r.error)) else Ok(r.value);
    }

    method HandleCreate(parent: nat, name: string, flags: bv64, o: Oracle) returns (reply: Reply)
      requires CanAllocate(Snapshot())
      modifies this
      ensures (Snapshot(), reply) == DoCreate(old(Snapshot()), parent, name, flags, o)
    {
      var resolved := ResolveIn(parent, name, o);
      if resolved.Err? {
        return Fail(resolved.error);
      }
      var target := resolved.value;
      var existing := Lstat(host, target, o.denied);
      if existing.Ok? {
        if existing.value.kind == Symlink {
          return Fail(ELOOP);
        }
        if existing.value.kind == Dir {
          return Fail(EISDIR);
        }
      } else if existing.error != ENOENT {
        return Fail(existing.error);
      }
      var openRes := OsOpen(host, target, OsOpenFlagsFromLinux(flags).(create := true), o.fails);
      if openRes.Err? {
        return Fail(openRes.error);
      }
      var (fs, file) := openRes.value;
      if o.statFails.Some? {
        host := OsClose(fs, file);
        return Fail(o.statFails.value);
      }
      var ino := EnsureInode(target);
      var fh := AddFile(fs, file, flags & 0x400 != 0, ino, o.now);
      reply := Created(ino, fh);
    }

    method HandleMkdir(parent: nat, name: string, o: Oracle) returns (reply: Reply)
      modifies this
      ensures (Snapshot(), reply) == DoMkdir(old(Snapshot()), parent, name, o)
    {
      var resolved := ResolveIn(parent, name, o);
      if resolved.Err? {
        return Fail(resolved.error);
      }
      var obj := host.nextObj;
      var made := OsMkdir(host, resolved.value, o.fails);
      if made.Err? {
        return Fail(made.error);
      }
      host := made.value;
      if o.statFails.Some? {
        return Fail(o.statFails.value);
      }
      var ino := EnsureInode(resolved.value);
      reply := Entry(ino, Node(obj, Dir));
    }

    method HandleUnlink(parent: nat, name: string, o: Oracle) returns (reply: Reply)
      requires Consistent(Tab())
      modifies this
      ensures (Snapshot(), reply) == DoUnlink(old(Snapshot()), parent, name, o)
    {
      var resolved := ResolveIn(parent, name, o);
      if resolved.Err? {
        return Fail(resolved.error);
      }
      var target := resolved.value;
      var info := Lstat(host, target, o.denied);
      if info.Err? {
        return Fail(info.error);
      }
      if info.value.kind == Dir {
        return Fail(EISDIR);
      }
      if info.value.kind == Symlink {
        return Fail(ELOOP);
      }
      var removed := OsUnlink(host, target, o.fails);
      if removed.Err? {
        return Fail(removed.error);
      }
      host := removed.value;
      RemovePathMapping(target);
      reply := Done;
    }

    method HandleRename(r: Request, o: Oracle) returns (reply: Reply)
      requires r.Rename? && TableInv(Snapshot())
      modifies this
      ensures (Snapshot(), reply) == DoRename(old(Snapshot()), r, o)
    {
      ghost var s := Snapshot();
      var paths := ResolveBoth(r, o);
      if paths.Err? {
        return Fail(paths.error);
      }
      var (src, dst) := paths.value;
      var info := Lstat(host, src, o.denied);
      if info.Err? {
        return Fail(info.error);
      }
      if info.value.kind == Symlink {
        return Fail(ELOOP);
      }
      var renamed := OsRename(host, src, dst, o.fails);
      if renamed.Err? {
        return Fail(renamed.error);
      }
      assert src != [] && dst != [] by {
        RenameNotRoot(s, r, o);
      }
      host := renamed.value;
      RemapPath(src, dst);
      reply := Done;
    }

    method ResolveBoth(r: Request, o: Oracle) returns (paths: Result<(Path, Path), int>)
      requires r.Rename?
      ensures paths == RenamePaths(Snapshot(), r, o)
    {
      if r.srcParent !in inoToPath || r.dstParent !in inoToPath {
        return Err(ENOTDIR);
      }
      var srcDir, dstDir := inoToPath[r.srcParent], inoToPath[r.dstParent];
      var refused := DirectoryCheck(host, srcDir, o.denied);
      if refused.Some? {
        return Err(refused.value);
      }
      refused := DirectoryCheck(host, dstDir, o.denied);
      if refused.Some? {
        return Err(refused.value);
      }
      var src := ResolveChildPath(root, srcDir, r.srcName);
      if src.Err? {
        return Err(PathErrno(src.error));
      }
      var dst := ResolveChildPath(root, dstDir, r.dstName);
      if dst.Err? {
        return Err(PathErrno(dst.error));
      }
      return Ok((src.value, dst.value));
    }

    method HandleTruncate(ino: nat, size: U64, o: Oracle) returns (reply: Reply)
      modifies this
      ensures (Snapshot(), reply) == DoTruncate(old(Snapshot()), ino, size, o)
    {
      if ino !in inoToPath {
        return Fail(EINVAL);
      }
      var info := Lstat(host, inoToPath[ino], o.denied);
      if info.Err? {
        return Fail(info.error);
      }
      if info.value.kind == Dir {
        return Fail(EISDIR);
      }
      if info.value.kind == Symlink {
        return Fail(ELOOP);
      }
      var stored := OsTruncate(host, info.value.id, size, o.fails);
      if stored.Err? {
        return Fail(stored.error);
      }
      host := stored.value;
      reply := Done;
    }

    method Dispatch(r: Request, o: Oracle) returns (reply: Reply)
      requires TableInv(Snapshot()) && Servable(Snapshot(), r, o)
      modifies this
      ensures (Snapshot(), reply) == Serve(old(Snapshot()), r, o)
    {
      hide DoLookup; hide DoGetattr; hide DoReadDir; hide DoOpen; hide DoRead; hide DoRelease; hide DoWrite;
      hide DoCreate; hide DoMkdir; hide DoUnlink; hide DoRename; hide DoTruncate; hide Consistent; hide Rooted; hide TreeOk;
      if Mutates(r) && ReadOnly(mode) {
        return Fail(EROFS);
      }
      match r {
        case Lookup(parent, name) => reply := HandleLookup(parent, name, o);
        case Getattr(ino) => reply := HandleGetattr(ino, o);
        case ReadDir(ino, offset, maxEntries) => reply := HandleReadDir(ino, offset, maxEntries, o);
        case Open(ino, flags) => reply := HandleOpen(ino, flags, o);
        case Read(fh, offset, size) => reply := HandleRead(fh, offset, size, o);
        case Release(fh) => reply := HandleRelease(fh);
        case Ping => reply := Pong(if ReadOnly(mode) then "ro" else "rw");
        case Write(fh, offset, data) => reply := HandleWrite(fh, offset, data, o);
        case Create(parent, name, flags) => reply := HandleCreate(parent, name, flags, o);
        case Mkdir(parent, name) => reply := HandleMkdir(parent, name, o);
        case Unlink(parent, name) => reply := HandleUnlink(parent, name, o);
        case Rename(_, _, _, _) => reply := HandleRename(r, o);
        case Truncate(ino, size) => reply := HandleTruncate(ino, size, o);
        case UnknownOp => reply := Fail(ENOSYS);
      }
    }

    /** One request: collection, then the handler. Every call is a step of the runs of `MountRuns`. */
    method Handle(r: Request, o: Oracle) returns (reply: Reply)
      requires Inv(Snapshot()) && |handles| < LAST_ID
      requires o.now > 0 && o.gone !! host.tree.Keys
      requires r.ReadDir? && r.ino in inoToPath ==> ListingOk(host, inoToPath[r.ino], o.listing)
      modifies this
      ensures Next(old(Snapshot()), Call(r, o), Snapshot())
      ensures Inv(Snapshot())
      ensures Answers(old(Snapshot()), Call(r, o), reply, Snapshot())
    {
      hide Inv; hide Next; hide Answers; hide Serve; hide Servable; hide MaybeGc; hide TableInv; hide Consistent; hide DistinctFiles;
      hide ListingOk;
      ghost var s := Snapshot();
      InvParts(s);
      MaybeGC(o.now, o.gone);
      ghost var mid := Snapshot();
      GcServable(s, r, o, mid);
      reply := Dispatch(r, o);
      CallServed(s, r, o, mid, reply, Snapshot());
      NextKeepsInv(s, Call(r, o), Snapshot());
    }
  }
}
