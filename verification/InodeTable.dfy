/**
 The mount's two-way index between host paths and inode numbers, as a value, and what
 each operation on it is meant to compute. The class `FsrpcMount` performs the same
 operations in place, with loops over its maps.
 */
module InodeTable {
  import opened Paths

  // ----- Moving a subtree of any path-keyed map -----

  /** p with its leading src replaced by dst. */
  function Rebase(p: Path, src: Path, dst: Path): Path
    requires src <= p
  {
    dst + p[|src|..]
  }

  /** q is where some key at or below src lands when src becomes dst. */
  predicate Lands<V>(m: map<Path, V>, src: Path, dst: Path, q: Path) {
    dst <= q && Rebase(q, dst, src) in m
  }

  /**
   The map after everything at or below src has been moved to dst. A key survives unless
   it was moved away or is the landing place of a moved key; overlap of the two regions is
   allowed.
   */
  function MoveSubtree<V>(m: map<Path, V>, src: Path, dst: Path): (r: map<Path, V>)
    ensures forall q :: q in r <==> Lands(m, src, dst, q) || (q in m && !(src <= q))
    ensures forall q :: q in r ==> r[q] == if Lands(m, src, dst, q) then m[Rebase(q, dst, src)] else m[q]
  {
    var landed := set p | p in m && src <= p :: Rebase(p, src, dst);
    var stayed := set p | p in m && !(src <= p);
    LandedIsLands(m, src, dst);
    map q | q in landed + stayed :: if Lands(m, src, dst, q) then m[Rebase(q, dst, src)] else m[q]
  }

  lemma RebaseInverse(p: Path, src: Path, dst: Path)
    requires src <= p
    ensures dst <= Rebase(p, src, dst)
    ensures Rebase(Rebase(p, src, dst), dst, src) == p
  {
  }

  lemma LandedIsLands<V>(m: map<Path, V>, src: Path, dst: Path)
    ensures forall q :: q in (set p | p in m && src <= p :: Rebase(p, src, dst)) <==> Lands(m, src, dst, q)
  {
    var landed := set p | p in m && src <= p :: Rebase(p, src, dst);
    forall q
      ensures q in landed <==> Lands(m, src, dst, q)
    {
      if q in landed {
        var p :| p in m && src <= p && Rebase(p, src, dst) == q;
        RebaseInverse(p, src, dst);
      }
      if Lands(m, src, dst, q) {
        RebaseInverse(q, dst, src);
      }
    }
  }

  /** Every moved key is found, with its value, where it was moved to. */
  lemma MovedKeysArrive<V>(m: map<Path, V>, src: Path, dst: Path, p: Path)
    requires p in m && src <= p
    ensures Rebase(p, src, dst) in MoveSubtree(m, src, dst)
    ensures MoveSubtree(m, src, dst)[Rebase(p, src, dst)] == m[p]
  {
    RebaseInverse(p, src, dst);
    assert Lands(m, src, dst, Rebase(p, src, dst));
  }

  // ----- The table -----

  datatype Table = Table(pathToIno: map<Path, nat>, inoToPath: map<nat, Path>, nextIno: nat)

  const ROOT_INO: nat := 1

  /** The two maps are exact inverses and every inode number in use is positive and below nextIno. */
  ghost predicate Consistent(t: Table) {
    && (forall p :: p in t.pathToIno ==> t.pathToIno[p] in t.inoToPath && t.inoToPath[t.pathToIno[p]] == p)
    && (forall i :: i in t.inoToPath ==> t.inoToPath[i] in t.pathToIno && t.pathToIno[t.inoToPath[i]] == i)
    && (forall i :: i in t.inoToPath ==> 1 <= i < t.nextIno)
    && 1 <= t.nextIno
  }

  /** Every stored path is the mount root or a component-wise descendant, and inode 1 is the root. */
  ghost predicate Rooted(t: Table, root: Path) {
    && ROOT_INO in t.inoToPath && t.inoToPath[ROOT_INO] == root
    && forall p :: p in t.pathToIno ==> root <= p && CleanPath(p)
  }

  function FreshTable(root: Path): (t: Table)
    ensures Consistent(t)
    ensures CleanPath(root) ==> Rooted(t, root)
  {
    Table(map[root := 1], map[1 := root], 2)
  }

  /** Look a path up, or give it the next inode number. */
  function Ensure(t: Table, p: Path): Table {
    if p in t.pathToIno then t
    else Table(t.pathToIno[p := t.nextIno], t.inoToPath[t.nextIno := p], t.nextIno + 1)
  }

  function Remove(t: Table, p: Path): Table {
    RemoveAll(t, {p})
  }

  function RemoveAll(t: Table, paths: set<Path>): Table {
    Table(t.pathToIno - paths,
          map i | i in t.inoToPath && t.inoToPath[i] !in paths :: t.inoToPath[i],
          t.nextIno)
  }

  /** Rename: the subtree of src moves to dst, inodes follow their paths, displaced inodes disappear. */
  function Remap(t: Table, src: Path, dst: Path): Table {
    Table(MoveSubtree(t.pathToIno, src, dst),
          map i | i in t.inoToPath && (src <= t.inoToPath[i] || !Lands(t.pathToIno, src, dst, t.inoToPath[i]))
            :: if src <= t.inoToPath[i] then Rebase(t.inoToPath[i], src, dst) else t.inoToPath[i],
          t.nextIno)
  }

  lemma EnsureKeeps(t: Table, root: Path, p: Path)
    requires Consistent(t)
    ensures var t' := Ensure(t, p);
            && Consistent(t')
            && p in t'.pathToIno
            && (forall q :: q in t.pathToIno ==> q in t'.pathToIno && t'.pathToIno[q] == t.pathToIno[q])
            && (forall q :: q in t'.pathToIno ==> q in t.pathToIno || q == p)
            && (p !in t.pathToIno ==> t'.pathToIno[p] !in t.inoToPath)
    ensures Rooted(t, root) && root <= p && CleanPath(p) ==> Rooted(Ensure(t, p), root)
  {
  }

  lemma RemoveAllKeeps(t: Table, root: Path, paths: set<Path>)
    requires Consistent(t)
    ensures Consistent(RemoveAll(t, paths))
    ensures Rooted(t, root) && root !in paths ==> Rooted(RemoveAll(t, paths), root)
  {
  }

  lemma RemoveNone(t: Table)
    ensures RemoveAll(t, {}) == t
  {
  }

  /**
   Rename keeps the table an exact two-way index: inodes of moved paths follow them, the
   inodes dropped are exactly those whose own path did not move and was landed on.
   */
  lemma RemapConsistent(t: Table, src: Path, dst: Path)
    requires Consistent(t)
    ensures Consistent(Remap(t, src, dst))
    ensures forall i :: i in t.inoToPath && i !in Remap(t, src, dst).inoToPath
                        <==> i in t.inoToPath && !(src <= t.inoToPath[i]) && Lands(t.pathToIno, src, dst, t.inoToPath[i])
  {
    var t' := Remap(t, src, dst);
    forall p | p in t'.pathToIno
      ensures t'.pathToIno[p] in t'.inoToPath && t'.inoToPath[t'.pathToIno[p]] == p
    {
      if Lands(t.pathToIno, src, dst, p) {
        RebaseInverse(p, dst, src);
      }
    }
    forall i | i in t'.inoToPath
      ensures t'.inoToPath[i] in t'.pathToIno && t'.pathToIno[t'.inoToPath[i]] == i
    {
      if src <= t.inoToPath[i] {
        MovedKeysArrive(t.pathToIno, src, dst, t.inoToPath[i]);
      }
    }
  }

  lemma CleanRebase(p: Path, src: Path, dst: Path)
    requires CleanPath(p) && CleanPath(dst) && src <= p
    ensures CleanPath(Rebase(p, src, dst))
  {
  }

  /** A rename inside the mount of anything but the root, to a place other than the root, keeps the table rooted. */
  lemma RemapRooted(t: Table, root: Path, src: Path, dst: Path)
    requires Consistent(t) && Rooted(t, root)
    requires root < src && root < dst && CleanPath(dst)
    ensures Rooted(Remap(t, src, dst), root)
  {
    var t' := Remap(t, src, dst);
    forall p | p in t'.pathToIno
      ensures root <= p && CleanPath(p)
    {
      if Lands(t.pathToIno, src, dst, p) {
        RebaseInverse(p, dst, src);
        CleanRebase(Rebase(p, dst, src), src, dst);
      }
    }
  }

  // ----- Inode garbage collection -----

  /** Paths the collector may drop: not pinned, and either outside the root or gone from the host. */
  function Evictable(t: Table, root: Path, pinned: set<nat>, gone: set<Path>): set<Path> {
    set p | p in t.pathToIno && t.pathToIno[p] !in pinned && (!IsWithinRoot(root, p) || p in gone)
  }

  /** How many entries a collection drops: enough to reach the limit, if there are that many candidates. */
  function GcQuota(size: nat, candidates: nat, limit: int): (n: nat)
    ensures n <= candidates
  {
    if limit <= 0 || size <= limit then 0
    else if candidates <= size - limit then candidates else size - limit
  }

  /** t' is a possible outcome of inode collection on t (the map order decides which candidates go). */
  ghost predicate InodeGc(t: Table, root: Path, pinned: set<nat>, gone: set<Path>, limit: int, t': Table) {
    var candidates := Evictable(t, root, pinned, gone);
    var dropped := t.pathToIno.Keys - t'.pathToIno.Keys;
    && dropped <= candidates
    && |dropped| == GcQuota(|t.pathToIno|, |candidates|, limit)
    && t' == RemoveAll(t, dropped)
  }

  /**
   Inode collection keeps the index exact, never drops the root or a pinned inode, drops no
   path that still exists inside the mount, and stops at the limit or with no candidate left.
   */
  lemma InodeGcKeeps(t: Table, root: Path, pinned: set<nat>, gone: set<Path>, limit: int, t': Table)
    requires Consistent(t) && Rooted(t, root) && ROOT_INO in pinned
    requires InodeGc(t, root, pinned, gone, limit, t')
    ensures Consistent(t') && Rooted(t', root) && t'.nextIno == t.nextIno
    ensures forall i :: i in t'.inoToPath ==> i in t.inoToPath && t'.inoToPath[i] == t.inoToPath[i]
    ensures forall i :: i in t.inoToPath && (i in pinned || t.inoToPath[i] !in gone) ==> i in t'.inoToPath
    ensures limit > 0 && |t'.pathToIno| > limit ==> Evictable(t', root, pinned, gone) == {}
    ensures limit > 0 && |t.pathToIno| > limit ==> |t'.pathToIno| >= limit
    ensures |t.pathToIno| <= limit ==> t' == t
  {
    var candidates := Evictable(t, root, pinned, gone);
    var dropped := t.pathToIno.Keys - t'.pathToIno.Keys;
    RemoveAllKeeps(t, root, dropped);
    assert t'.pathToIno.Keys == t.pathToIno.Keys - dropped;
    assert |t'.pathToIno.Keys| == |t.pathToIno.Keys| - |dropped|;
    forall i | i in t.inoToPath && (i in pinned || t.inoToPath[i] !in gone)
      ensures i in t'.inoToPath
    {
      WithinRootIsPrefix(root, t.inoToPath[i]);
      assert t.inoToPath[i] !in candidates;
    }
    if limit > 0 && |t'.pathToIno| > limit {
      assert |dropped| == |candidates|;
      SubsetSameSize(dropped, candidates);
      assert Evictable(t', root, pinned, gone) <= candidates - dropped;
    }
    if |t.pathToIno| <= limit {
      assert dropped == {};
      assert t'.inoToPath == t.inoToPath;
    }
  }

  lemma SubsetSameSize<T>(a: set<T>, b: set<T>)
    requires a <= b && |a| == |b|
    ensures a == b
  {
    assert |b| == |b - a| + |a| by {
      assert b == (b - a) + a;
    }
    assert b - a == {};
  }
}
