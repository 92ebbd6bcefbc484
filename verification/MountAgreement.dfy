/**
 The inode table against the host tree. In runs where only the mount's own requests change
 the tree, every stored path exists and an inode number keeps naming the same host object
 until that object is gone. A rename keeps this exactly when its source has an inode, or
 its target has none.
 */
module MountAgreement {
  import opened Common
  import opened Paths
  import opened InodeTable
  import opened HandleTable
  import opened HostFs
  import opened Readdir
  import opened MountSpec
  import opened MountRuns

  /** Every stored path exists on the host, and so does the entry for its parent. */
  ghost predicate Agrees(s: State) {
    && TableInv(s)
    && (forall p :: p in s.table.pathToIno ==> p in s.fs.tree)
    && ParentClosed(s.table, s.root)
  }

  ghost predicate ParentClosed(t: Table, root: Path) {
    forall p {:trigger Parent(p)} :: p in t.pathToIno && p != root ==> Parent(p) in t.pathToIno
  }

  /** The host object an inode names. */
  function ObjectOf(s: State, i: nat): Option<nat> {
    if i in s.table.inoToPath && s.table.inoToPath[i] in s.fs.tree
    then Some(s.fs.tree[s.table.inoToPath[i]].id) else None
  }

  ghost predicate Alive(fs: Fs, id: nat) {
    exists p :: p in fs.tree && fs.tree[p].id == id
  }

  /**
   Between s and a later s': an inode number issued by s is still in use exactly if the object
   it named still exists, and then it names that object; numbers retired by s stay retired;
   objects gone from s stay gone.
   */
  ghost predicate Follows(s: State, s': State) {
    && s.table.nextIno <= s'.table.nextIno && s.fs.nextObj <= s'.fs.nextObj
    && (forall i :: i in s'.table.inoToPath && i < s.table.nextIno
                    ==> i in s.table.inoToPath && ObjectOf(s', i) == ObjectOf(s, i))
    && (forall i :: i in s.table.inoToPath && ObjectOf(s, i).Some? && Alive(s'.fs, ObjectOf(s, i).value)
                    ==> i in s'.table.inoToPath)
    && (forall id: nat :: id < s.fs.nextObj && Alive(s'.fs, id) ==> Alive(s.fs, id))
  }

  lemma FollowsReflexive(s: State)
    ensures Follows(s, s)
  {
  }

  lemma ObjectKnown(s: State, i: nat)
    requires Agrees(s) && i in s.table.inoToPath
    ensures ObjectOf(s, i).Some? && ObjectOf(s, i).value < s.fs.nextObj && i < s.table.nextIno
    ensures Alive(s.fs, ObjectOf(s, i).value)
  {
  }

  lemma FollowsTransitive(a: State, b: State, c: State)
    requires Agrees(a) && Agrees(b) && Agrees(c)
    requires Follows(a, b) && Follows(b, c)
    ensures Follows(a, c)
  {
    hide Agrees; hide Alive; hide ObjectOf;
    forall i | i in c.table.inoToPath && i < a.table.nextIno
      ensures i in a.table.inoToPath && ObjectOf(c, i) == ObjectOf(a, i)
    {
      assert i in b.table.inoToPath;
    }
    forall i | i in a.table.inoToPath && ObjectOf(a, i).Some? && Alive(c.fs, ObjectOf(a, i).value)
      ensures i in c.table.inoToPath
    {
      ObjectKnown(a, i);
      assert Alive(b.fs, ObjectOf(a, i).value);
      assert i in b.table.inoToPath;
    }
  }

  // ----- Steps that only add -----

  /** s' has everything s has, in table and tree, and what is new carries new numbers. */
  ghost predicate Grows(s: State, s': State) {
    && s.table.nextIno <= s'.table.nextIno && s.fs.nextObj <= s'.fs.nextObj
    && (forall p :: p in s.fs.tree ==> p in s'.fs.tree && s'.fs.tree[p] == s.fs.tree[p])
    && (forall p :: p in s'.fs.tree && p !in s.fs.tree ==> s'.fs.tree[p].id >= s.fs.nextObj)
    && (forall p :: p in s.table.pathToIno ==> p in s'.table.pathToIno && s'.table.pathToIno[p] == s.table.pathToIno[p])
    && (forall i :: i in s'.table.inoToPath && i < s.table.nextIno
                    ==> i in s.table.inoToPath && s'.table.inoToPath[i] == s.table.inoToPath[i])
  }

  lemma GrowsFollows(s: State, s': State)
    requires Agrees(s) && TableInv(s') && Grows(s, s')
    ensures Follows(s, s')
  {
    forall i | i in s.table.inoToPath
      ensures i in s'.table.inoToPath
    {
      var p := s.table.inoToPath[i];
      assert p in s'.table.pathToIno && s'.table.pathToIno[p] == i;
    }
    forall id: nat | id < s.fs.nextObj && Alive(s'.fs, id)
      ensures Alive(s.fs, id)
    {
      var p :| p in s'.fs.tree && s'.fs.tree[p].id == id;
      assert p in s.fs.tree;
    }
  }

  lemma SeenAgrees(s: State, p: Path, s': State)
    requires Agrees(s) && Changed(s, Seen(p), s') && TableInv(s')
    ensures Agrees(s') && Grows(s, s')
  {
    EnsureKeeps(s.table, s.root, p);
    NearClosed(s, p);
  }

  /** A path near a stored one has a stored parent, unless it is the root. */
  lemma NearClosed(s: State, p: Path)
    requires Agrees(s) && Near(s.table, p) && s.root <= p
    ensures p == s.root || p in s.table.pathToIno || Parent(p) in s.table.pathToIno
  {
  }

  lemma MadeAgrees(s: State, p: Path, kind: Kind, mapped: bool, s': State)
    requires Agrees(s) && Changed(s, Made(p, kind, mapped), s') && TableInv(s')
    ensures Agrees(s') && Grows(s, s')
  {
    MadeGrows(s, p, kind, mapped, s');
    hide Grows; hide TreeOk; hide Consistent; hide Rooted;
  }

  lemma MadeGrows(s: State, p: Path, kind: Kind, mapped: bool, s': State)
    requires Agrees(s) && Changed(s, Made(p, kind, mapped), s')
    ensures Grows(s, s')
  {
    hide TreeOk; hide ParentClosed; hide Rooted; hide CleanPath;
    EnsureKeeps(s.table, s.root, p);
  }

  lemma ListedAgrees(s: State, dir: Path, names: seq<string>, s': State)
    requires Agrees(s) && Changed(s, Listed(dir, names), s') && TableInv(s')
    ensures Agrees(s')
  {
    forall p | p in s'.table.pathToIno
      ensures p in s.fs.tree && (p == s.root || Parent(p) in s'.table.pathToIno)
    {
      ListedPath(s, dir, names, s', p);
    }
    hide ReaddirTable; hide ListingOk; hide TableInv;
  }

  lemma ListedTableGrows(t: Table, root: Path, dir: Path, names: seq<string>)
    requires Consistent(t) && Rooted(t, root) && dir in t.pathToIno
    requires forall i :: 0 <= i < |names| ==> ValidName(names[i])
    ensures var t' := ReaddirTable(t, root, dir, names);
            && Extends(t, t')
            && (forall i :: i in t'.inoToPath && i < t.nextIno ==> i in t.inoToPath && t'.inoToPath[i] == t.inoToPath[i])
            && (forall p :: p in t'.pathToIno ==> p in t.pathToIno || (dir != root && p == Parent(dir))
                                                  || exists i :: 0 <= i < |names| && p == dir + [names[i]])
  {
    ReaddirTableKeeps(t, root, dir, names);
  }

  lemma ListedGrows(s: State, dir: Path, names: seq<string>, s': State)
    requires Agrees(s) && Changed(s, Listed(dir, names), s')
    ensures Grows(s, s')
  {
    hide ReaddirTable; hide TreeOk; hide ParentClosed; hide ValidName; hide Consistent; hide Rooted; hide CleanPath;
    ListedTableGrows(s.table, s.root, dir, names);
  }

  lemma ListedPath(s: State, dir: Path, names: seq<string>, s': State, p: Path)
    requires Agrees(s) && Changed(s, Listed(dir, names), s') && p in s'.table.pathToIno
    ensures p in s.fs.tree && (p == s.root || Parent(p) in s'.table.pathToIno)
  {
    hide ReaddirTable; hide TreeOk; hide ValidName; hide Consistent; hide Rooted; hide CleanPath;
    ListedTableGrows(s.table, s.root, dir, names);
    if p !in s.table.pathToIno && !(dir != s.root && p == Parent(dir)) {
      var i :| 0 <= i < |names| && p == dir + [names[i]];
      assert Parent(p) == dir;
    }
  }

  // ----- Unlink -----

  /** The parent of a stored path is a directory, so it is not the path unlinked. */
  lemma UnlinkedParents(s: State, p: Path, s': State)
    requires Agrees(s) && Changed(s, Unlinked(p), s')
    ensures ParentClosed(s'.table, s.root)
  {
  }

  lemma UnlinkedInodes(s: State, p: Path, s': State)
    requires Agrees(s) && Changed(s, Unlinked(p), s')
    ensures forall i :: i in s.table.inoToPath && ObjectOf(s, i).Some? && Alive(s'.fs, ObjectOf(s, i).value)
                        ==> i in s'.table.inoToPath
  {
  }

  lemma UnlinkedAgrees(s: State, p: Path, s': State)
    requires Agrees(s) && Changed(s, Unlinked(p), s') && TableInv(s')
    ensures Agrees(s') && Follows(s, s')
  {
    hide TableInv; hide ParentClosed; hide Changed; hide ObjectOf; hide Alive;
    UnlinkedParents(s, p, s');
    UnlinkedInodes(s, p, s');
    UnlinkedObjects(s, p, s');
    UnlinkedAlive(s, p, s');
  }

  /** Inodes left after an unlink keep their objects, and every path left exists. */
  lemma UnlinkedObjects(s: State, p: Path, s': State)
    requires Agrees(s) && Changed(s, Unlinked(p), s')
    ensures s'.root == s.root && s'.table.nextIno == s.table.nextIno && s'.fs.nextObj == s.fs.nextObj
    ensures forall q :: q in s'.table.pathToIno ==> q in s'.fs.tree
    ensures forall i :: i in s'.table.inoToPath ==> i in s.table.inoToPath && ObjectOf(s', i) == ObjectOf(s, i)
  {
    hide TreeOk; hide ParentClosed; hide Rooted;
  }

  lemma UnlinkedAlive(s: State, p: Path, s': State)
    requires Changed(s, Unlinked(p), s')
    ensures forall id: nat :: Alive(s'.fs, id) ==> Alive(s.fs, id)
  {
    hide Remove;
    forall id: nat | Alive(s'.fs, id)
      ensures Alive(s.fs, id)
    {
      var q :| q in s'.fs.tree && s'.fs.tree[q].id == id;
      assert q in s.fs.tree;
    }
  }

  // ----- Rename -----

  /** What a caller can check: the source has an inode, or the target has none. */
  predicate SafeRename(t: Table, src: Path, dst: Path) {
    src == dst || src in t.pathToIno || dst !in t.pathToIno
  }

  lemma {:induction false} AncestorsStored(t: Table, root: Path, p: Path, q: Path)
    requires ParentClosed(t, root) && q in t.pathToIno && root <= p <= q
    ensures p in t.pathToIno
    decreases |q|
  {
    if p != q {
      AncestorsStored(t, root, p, Parent(q));
    }
  }

  /** A source without an inode has no stored descendant either, so the table does not change. */
  lemma RemapOfUnstored(t: Table, root: Path, src: Path, dst: Path)
    requires ParentClosed(t, root) && Consistent(t) && root <= src && src !in t.pathToIno
    ensures Remap(t, src, dst) == t
    ensures forall q :: q in t.pathToIno ==> !(src <= q)
  {
    forall q | q in t.pathToIno
      ensures !(src <= q)
    {
      if src <= q {
        AncestorsStored(t, root, src, q);
      }
    }
    assert forall q :: !Lands(t.pathToIno, src, dst, q);
    assert MoveSubtree(t.pathToIno, src, dst) == t.pathToIno;
    assert Remap(t, src, dst).inoToPath == t.inoToPath;
  }

  /** A genuine rename: the facts about tree and table the proofs below use. */
  ghost predicate Moving(s: State, src: Path, dst: Path) {
    && Agrees(s) && src in s.fs.tree && src != dst
    && s.root < src && s.root < dst && !(src <= dst)
    && (forall q :: q in s.fs.tree && dst <= q ==> q == dst)
    && Parent(dst) in s.table.pathToIno
  }

  lemma RenameMoves(fs: Fs, src: Path, dst: Path)
    requires OsRename(fs, src, dst, None).Ok? && src != dst
    ensures src in fs.tree && !(src <= dst)
    ensures OsRename(fs, src, dst, None).value.tree == MoveSubtree(fs.tree, src, dst)
  {
    hide MoveSubtree;
  }

  lemma RenamedIsMoving(s: State, src: Path, dst: Path, s': State)
    requires Agrees(s) && Changed(s, Renamed(src, dst), s') && src != dst
    ensures Moving(s, src, dst)
    ensures s'.fs.tree == MoveSubtree(s.fs.tree, src, dst)
  {
    hide OsRename; hide MoveSubtree; hide TreeOk; hide Consistent; hide Rooted; hide Remap; hide Near;
    RenameKeepsTree(s.fs, s.root, src, dst);
    RenameMoves(s.fs, src, dst);
    NearClosed(s, dst);
    assert dst in s.table.pathToIno ==> Parent(dst) in s.table.pathToIno;
  }

  /** Where the node at a path that is not replaced ends up. */
  lemma NodeAfterMove(s: State, src: Path, dst: Path, p: Path)
    requires Moving(s, src, dst) && p in s.fs.tree
    ensures var tree' := MoveSubtree(s.fs.tree, src, dst);
            && (src <= p ==> Rebase(p, src, dst) in tree' && tree'[Rebase(p, src, dst)] == s.fs.tree[p])
            && (!(src <= p) && p != dst ==> p in tree' && tree'[p] == s.fs.tree[p])
  {
    if src <= p {
      MovedKeysArrive(s.fs.tree, src, dst, p);
    }
  }

  /** Nodes after the move come from the tree before it, and never from the replaced target. */
  lemma NodeBeforeMove(s: State, src: Path, dst: Path, q: Path) returns (p: Path)
    requires Moving(s, src, dst) && q in MoveSubtree(s.fs.tree, src, dst)
    ensures p in s.fs.tree && p != dst && MoveSubtree(s.fs.tree, src, dst)[q] == s.fs.tree[p]
  {
    p := if Lands(s.fs.tree, src, dst, q) then Rebase(q, dst, src) else q;
    assert Lands(s.fs.tree, src, dst, dst) by {
      assert Rebase(dst, dst, src) == src;
    }
    if Lands(s.fs.tree, src, dst, q) {
      RebaseInverse(q, dst, src);
    }
  }

  /** The path an inode has after the rename, when the source has an inode. */
  lemma InodeAfterMove(s: State, src: Path, dst: Path, i: nat)
    requires Moving(s, src, dst) && src in s.table.pathToIno && i in s.table.inoToPath
    ensures var p, t' := s.table.inoToPath[i], Remap(s.table, src, dst);
            if p == dst then i !in t'.inoToPath
            else i in t'.inoToPath && t'.inoToPath[i] == if src <= p then Rebase(p, src, dst) else p
  {
    var p := s.table.inoToPath[i];
    if p == dst {
      assert Rebase(dst, dst, src) == src;
    } else {
      assert dst <= p ==> p == dst;
    }
  }

  /** s' is s after the rename, as far as table and tree go. */
  ghost predicate Moved(s: State, src: Path, dst: Path, s': State) {
    && Moving(s, src, dst)
    && s'.table == Remap(s.table, src, dst) && s'.fs.tree == MoveSubtree(s.fs.tree, src, dst)
    && s'.fs.nextObj == s.fs.nextObj && s'.root == s.root
  }

  lemma MovedObject(s: State, src: Path, dst: Path, s': State, i: nat)
    requires Moved(s, src, dst, s') && src in s.table.pathToIno && i in s'.table.inoToPath
    ensures i in s.table.inoToPath && ObjectOf(s', i) == ObjectOf(s, i)
  {
    assert i in s.table.inoToPath;
    InodeAfterMove(s, src, dst, i);
    NodeAfterMove(s, src, dst, s.table.inoToPath[i]);
  }

  lemma MovedAlive(s: State, src: Path, dst: Path, s': State, id: nat) returns (p: Path)
    requires Moved(s, src, dst, s') && Alive(s'.fs, id)
    ensures p in s.fs.tree && p != dst && s.fs.tree[p].id == id
    ensures Alive(s.fs, id)
  {
    var q :| q in s'.fs.tree && s'.fs.tree[q].id == id;
    p := NodeBeforeMove(s, src, dst, q);
  }

  lemma MovedKept(s: State, src: Path, dst: Path, s': State, i: nat)
    requires Moved(s, src, dst, s') && src in s.table.pathToIno && i in s.table.inoToPath
    requires ObjectOf(s, i).Some? && Alive(s'.fs, ObjectOf(s, i).value)
    ensures i in s'.table.inoToPath
  {
    var p := MovedAlive(s, src, dst, s', ObjectOf(s, i).value);
    assert s.table.inoToPath[i] == p;
    InodeAfterMove(s, src, dst, i);
  }

  lemma MovedCounters(s: State, src: Path, dst: Path, s': State)
    requires Moved(s, src, dst, s')
    ensures s.table.nextIno == s'.table.nextIno && s.fs.nextObj == s'.fs.nextObj
  {
  }

  lemma MovedFollows(s: State, src: Path, dst: Path, s': State)
    requires Moved(s, src, dst, s') && src in s.table.pathToIno
    ensures Follows(s, s')
  {
    hide Moved; hide ObjectOf; hide Alive;
    MovedCounters(s, src, dst, s');
    forall i | i in s'.table.inoToPath
      ensures i in s.table.inoToPath && ObjectOf(s', i) == ObjectOf(s, i)
    {
      MovedObject(s, src, dst, s', i);
    }
    forall i | i in s.table.inoToPath && ObjectOf(s, i).Some? && Alive(s'.fs, ObjectOf(s, i).value)
      ensures i in s'.table.inoToPath
    {
      MovedKept(s, src, dst, s', i);
    }
    forall id: nat | Alive(s'.fs, id)
      ensures Alive(s.fs, id)
    {
      var p := MovedAlive(s, src, dst, s', id);
    }
  }

  lemma ParentMoves(q: Path, src: Path, dst: Path)
    requires dst < q
    ensures var up := Parent(Rebase(q, dst, src)); src <= up && Parent(q) == Rebase(up, src, dst)
  {
    assert Parent(Rebase(q, dst, src)) == src + Parent(q)[|dst|..];
  }

  lemma MovedOnto(s: State, src: Path, dst: Path, q: Path)
    requires Moving(s, src, dst) && src in s.table.pathToIno && Lands(s.table.pathToIno, src, dst, q)
    ensures q in MoveSubtree(s.fs.tree, src, dst)
    ensures Parent(q) in MoveSubtree(s.table.pathToIno, src, dst)
  {
    hide TableInv; hide MoveSubtree;
    var p := Rebase(q, dst, src);
    RebaseInverse(q, dst, src);
    NodeAfterMove(s, src, dst, p);
    if q == dst {
      TargetParent(s, src, dst);
    } else {
      ParentMoves(q, src, dst);
      assert Parent(p) in s.table.pathToIno;
      MovedKeysArrive(s.table.pathToIno, src, dst, Parent(p));
    }
  }

  lemma TargetParent(s: State, src: Path, dst: Path)
    requires Moving(s, src, dst)
    ensures Parent(dst) in MoveSubtree(s.table.pathToIno, src, dst)
  {
  }

  lemma StayedPut(s: State, src: Path, dst: Path, q: Path)
    requires Moving(s, src, dst) && src in s.table.pathToIno && q in s.table.pathToIno
    requires !(src <= q) && q != dst
    ensures q in MoveSubtree(s.fs.tree, src, dst)
    ensures q == s.root || Parent(q) in MoveSubtree(s.table.pathToIno, src, dst)
  {
    hide TableInv;
    NodeAfterMove(s, src, dst, q);
    if q != s.root {
      assert Parent(q) in s.table.pathToIno && !(src <= Parent(q)) && !(dst <= Parent(q));
    }
  }

  lemma MovedAgrees(s: State, src: Path, dst: Path, s': State)
    requires Moved(s, src, dst, s') && src in s.table.pathToIno && TableInv(s')
    ensures Agrees(s')
  {
    hide TableInv;
    forall q | q in s'.table.pathToIno
      ensures q in s'.fs.tree && (q == s.root || Parent(q) in s'.table.pathToIno)
    {
      if Lands(s.table.pathToIno, src, dst, q) {
        MovedOnto(s, src, dst, q);
      } else {
        assert Rebase(dst, dst, src) == src;
        StayedPut(s, src, dst, q);
      }
    }
    hide Remap; hide MoveSubtree; hide Moving;
  }

  /** A rename whose source has an inode, or whose target has none, keeps agreement and identities. */
  lemma SafeRenameFollows(s: State, src: Path, dst: Path, s': State)
    requires Agrees(s) && Changed(s, Renamed(src, dst), s') && TableInv(s')
    requires SafeRename(s.table, src, dst)
    ensures Agrees(s') && Follows(s, s')
  {
    hide Agrees; hide Moving; hide TableInv; hide MoveSubtree; hide Remap; hide Follows; hide OsRename; hide Near;
    if src == dst {
      SelfRenameFollows(s, src, s');
    } else {
      RenamedIsMoving(s, src, dst, s');
      assert Moved(s, src, dst, s');
      if src in s.table.pathToIno {
        MovedAgrees(s, src, dst, s');
        MovedFollows(s, src, dst, s');
      } else {
        UnstoredFollows(s, src, dst, s');
      }
    }
  }

  lemma SelfRenameFollows(s: State, src: Path, s': State)
    requires Agrees(s) && Changed(s, Renamed(src, src), s') && TableInv(s')
    ensures Agrees(s') && Follows(s, s')
  {
    hide Consistent; hide Rooted; hide TreeOk; hide Near; hide Remap; hide MoveSubtree; hide ParentClosed; hide Follows;
    RemapSame(s.table, src);
    SameFollows(s, s');
  }

  lemma SameFollows(s: State, s': State)
    requires Agrees(s) && s'.root == s.root
    requires s'.table == s.table && s'.fs.tree == s.fs.tree && s'.fs.nextObj == s.fs.nextObj
    ensures Agrees(s') && Follows(s, s')
  {
    hide TreeOk; hide Consistent; hide Rooted;
  }

  lemma UnstoredStays(s: State, src: Path, dst: Path, s': State)
    requires Moved(s, src, dst, s') && src !in s.table.pathToIno && dst !in s.table.pathToIno
    ensures s'.table == s.table
    ensures forall p :: p in s.table.pathToIno ==> p in s'.fs.tree && s'.fs.tree[p] == s.fs.tree[p]
  {
    RemapOfUnstored(s.table, s.root, src, dst);
    forall p | p in s.table.pathToIno
      ensures p in s'.fs.tree && s'.fs.tree[p] == s.fs.tree[p]
    {
      NodeAfterMove(s, src, dst, p);
    }
  }

  lemma StoredPaths(s: State)
    requires Agrees(s)
    ensures forall i :: i in s.table.inoToPath ==> s.table.inoToPath[i] in s.table.pathToIno
  {
  }

  lemma UnstoredFollows(s: State, src: Path, dst: Path, s': State)
    requires Moved(s, src, dst, s') && src !in s.table.pathToIno && dst !in s.table.pathToIno && TableInv(s')
    ensures Agrees(s') && Follows(s, s')
  {
    hide TableInv; hide Remap; hide MoveSubtree; hide Alive; hide ParentClosed;
    UnstoredStays(s, src, dst, s');
    StoredPaths(s);
    forall id: nat | Alive(s'.fs, id)
      ensures Alive(s.fs, id)
    {
      var p := MovedAlive(s, src, dst, s', id);
    }
  }

  /** Otherwise the target's inode survives the rename and now names the source's object. */
  lemma UnsafeRenameBreaks(s: State, src: Path, dst: Path, s': State)
    requires Agrees(s) && Changed(s, Renamed(src, dst), s')
    requires !SafeRename(s.table, src, dst)
    ensures var i := s.table.pathToIno[dst];
            && i in s'.table.inoToPath
            && ObjectOf(s', i) == Some(s.fs.tree[src].id)
            && ObjectOf(s, i) == Some(s.fs.tree[dst].id)
            && s.fs.tree[src].id != s.fs.tree[dst].id
    ensures !Follows(s, s')
  {
    hide MoveSubtree; hide Remap; hide OsRename; hide Near; hide Agrees; hide Moving; hide Alive;
    RenamedIsMoving(s, src, dst, s');
    TargetSurvives(s, src, dst);
  }

  lemma TargetSurvives(s: State, src: Path, dst: Path)
    requires Moving(s, src, dst) && src !in s.table.pathToIno && dst in s.table.pathToIno
    ensures Remap(s.table, src, dst) == s.table && dst in s.fs.tree && src in s.fs.tree
    ensures var i := s.table.pathToIno[dst]; i in s.table.inoToPath && s.table.inoToPath[i] == dst && i < s.table.nextIno
    ensures var tree' := MoveSubtree(s.fs.tree, src, dst); dst in tree' && tree'[dst] == s.fs.tree[src]
    ensures s.fs.tree[src].id != s.fs.tree[dst].id
  {
    RemapOfUnstored(s.table, s.root, src, dst);
    NodeAfterMove(s, src, dst, src);
    assert Rebase(src, src, dst) == dst;
    hide MoveSubtree; hide Remap;
  }

  /**
   A successful rename keeps every inode naming the object it named before if and only if the
   source has an inode, or the target has none, or the two are the same path.
   */
  lemma RenameFollowsExactly(s: State, r: Request, o: Oracle)
    requires Agrees(s) && r.Rename? && DoRename(s, r, o).1.Done?
    ensures RenamePaths(s, r, o).Ok?
    ensures var (src, dst) := RenamePaths(s, r, o).value;
            Agrees(DoRename(s, r, o).0) && Follows(s, DoRename(s, r, o).0) <==> SafeRename(s.table, src, dst)
  {
    var c := RenameChange(s, r, o);
    var s' := DoRename(s, r, o).0;
    ChangeKeepsTable(s, c, s');
    if SafeRename(s.table, c.src, c.dst) {
      SafeRenameFollows(s, c.src, c.dst, s');
    } else {
      UnsafeRenameBreaks(s, c.src, c.dst, s');
    }
  }

  // ----- Theorem: inodes follow their objects over whole runs -----

  lemma ChangeFollows(s: State, c: Change, s': State)
    requires Agrees(s) && Changed(s, c, s')
    requires c.Renamed? ==> SafeRename(s.table, c.src, c.dst)
    ensures Agrees(s') && Follows(s, s')
  {
    ChangeKeepsTable(s, c, s');
    hide Follows; hide Grows; hide TableInv; hide Near; hide ReaddirTable; hide Remap; hide Ensure; hide Remove; hide OsRename;
    match c {
      case Quiet => SameFollows(s, s');
      case Seen(p) => SeenAgrees(s, p, s'); GrowsFollows(s, s');
      case Made(p, kind, mapped) => MadeAgrees(s, p, kind, mapped, s'); GrowsFollows(s, s');
      case Listed(dir, names) => ListedAgrees(s, dir, names, s'); ListedGrows(s, dir, names, s'); GrowsFollows(s, s');
      case Unlinked(p) => UnlinkedAgrees(s, p, s');
      case Renamed(src, dst) => SafeRenameFollows(s, src, dst, s');
    }
  }

  /** While table and tree agree, collection drops no inode. */
  lemma GcQuiet(s: State, o: Oracle, mid: State)
    requires Agrees(s) && MaybeGc(s, o, mid) && o.gone !! s.fs.tree.Keys
    ensures Changed(s, Quiet, mid)
  {
    hide TreeOk; hide Consistent; hide Rooted; hide HandleGc; hide ParentClosed; hide Evictable; hide Pinned; hide RemoveAll;
    if mid != s {
      NothingEvictable(s, Pinned(mid.handles), o.gone);
      RemoveNone(s.table);
    }
  }

  lemma NothingEvictable(s: State, pinned: set<nat>, gone: set<Path>)
    requires Agrees(s) && gone !! s.fs.tree.Keys
    ensures Evictable(s.table, s.root, pinned, gone) == {}
  {
    hide TreeOk; hide Consistent; hide ParentClosed; hide IsWithinRoot;
    forall p | p in s.table.pathToIno
      ensures p !in Evictable(s.table, s.root, pinned, gone)
    {
      WithinRootIsPrefix(s.root, p);
    }
  }

  /** The event is not an outside change, and if it is a rename the condition above holds for it. */
  ghost predicate OwnEvent(s: State, e: Event) {
    && !e.External?
    && (e.Call? && e.req.Rename? && RenamePaths(s, e.req, e.oracle).Ok? ==>
          var (src, dst) := RenamePaths(s, e.req, e.oracle).value;
          SafeRename(s.table, src, dst))
  }

  lemma RenamePathsSame(s: State, s': State, r: Request, o: Oracle)
    requires r.Rename? && s'.table == s.table && s'.fs.tree == s.fs.tree && s'.root == s.root
    ensures RenamePaths(s', r, o) == RenamePaths(s, r, o)
  {
  }

  lemma NextFollows(s: State, e: Event, s': State)
    requires Agrees(s) && Next(s, e, s') && OwnEvent(s, e)
    ensures Agrees(s') && Follows(s, s')
  {
    if e.Close? {
      SameFollows(s, s');
    } else {
      var mid :| MaybeGc(s, e.oracle, mid) && Servable(mid, e.req, e.oracle) && s' == Serve(mid, e.req, e.oracle).0;
      GcQuiet(s, e.oracle, mid);
      ChangeFollows(s, Quiet, mid);
      if e.req.Rename? {
        RenamePathsSame(s, mid, e.req, e.oracle);
      }
      hide Serve; hide MaybeGc; hide Servable; hide RenamePaths; hide Follows; hide TableInv;
      var c := ServeChange(mid, e.req, e.oracle);
      ChangeFollows(mid, c, s');
      FollowsTransitive(s, mid, s');
    }
  }

  /**
   In every run of the mount's own requests whose renames meet the condition, and at any two
   points j <= k of it: table and tree agree; an inode in use at both points names the same
   host object, through renames of that object and of its ancestors; an inode is retired
   exactly when its object is gone, and its number is never used again.
   */
  lemma {:induction false} InodesFollowObjects(ss: seq<State>, es: seq<Event>, j: nat, k: nat)
    requires IsRun(ss, es) && Agrees(ss[0]) && j <= k < |ss|
    requires forall i :: 0 <= i < |es| ==> OwnEvent(ss[i], es[i])
    ensures Agrees(ss[j]) && Agrees(ss[k]) && Follows(ss[j], ss[k])
    decreases k, j
  {
    hide Next; hide Agrees; hide Follows; hide OwnEvent;
    if k == 0 {
      FollowsReflexive(ss[0]);
    } else if j == k {
      InodesFollowObjects(ss, es, k - 1, k - 1);
      NextFollows(ss[k - 1], es[k - 1], ss[k]);
      FollowsReflexive(ss[k]);
    } else {
      InodesFollowObjects(ss, es, j, k - 1);
      NextFollows(ss[k - 1], es[k - 1], ss[k]);
      FollowsTransitive(ss[j], ss[k - 1], ss[k]);
    }
  }

  lemma FreshAgrees(root: Path, mode: Mode, cfg: Config, now: int, fs: Fs)
    requires CleanPath(root) && WellFormed(fs, root)
    ensures Agrees(FreshState(root, mode, cfg, now, fs))
  {
  }

  // A concrete run that shows the condition is needed.

  const FILE_A: Path := ["a"]
  const FILE_B: Path := ["b"]

  function TwoFiles(): Fs {
    Fs(map[[] := Node(0, Dir), FILE_A := Node(1, File), FILE_B := Node(2, File)], map[], 3, [], multiset{})
  }

  function Mounted(): State {
    FreshState([], ReadWriteMode, Config(0, 0, 0, 100), 1, TwoFiles())
  }

  function Calm(): Oracle {
    Oracle(1, {}, {}, None, None, [], 0)
  }

  lemma MountedObjects()
    ensures Mounted().fs.tree[FILE_A].id == 1 && Mounted().fs.tree[FILE_B].id == 2
  {
  }

  lemma NamesResolve()
    ensures ResolveChildPath([], [], "a") == Ok(FILE_A) && ResolveChildPath([], [], "b") == Ok(FILE_B)
  {
  }

  lemma MountedAgrees()
    ensures Agrees(Mounted())
  {
    assert WellFormed(TwoFiles(), []);
    FreshAgrees([], ReadWriteMode, Config(0, 0, 0, 100), 1, TwoFiles());
  }

  lemma LookedUp() returns (s: State)
    ensures Next(Mounted(), Call(Lookup(1, "b"), Calm()), s)
    ensures BLookedUp(s)
  {
    hide Mounted; hide DoLookup; hide Agrees; hide MaybeGc; hide Servable; hide Follows;
    MountedAgrees();
    LookupServed();
    LookupResult();
    s := DoLookup(Mounted(), 1, "b", Calm()).0;
    assert s == Serve(Mounted(), Lookup(1, "b"), Calm()).0;
    NextFollows(Mounted(), Call(Lookup(1, "b"), Calm()), s);
  }

  lemma LookupServed()
    ensures MaybeGc(Mounted(), Calm(), Mounted()) && Servable(Mounted(), Lookup(1, "b"), Calm())
    ensures Calm().now > 0 && Calm().gone !! Mounted().fs.tree.Keys
  {
    hide MoveSubtree; hide HandleGc; hide InodeGc;
  }

  lemma LookupResult()
    ensures var s := DoLookup(Mounted(), 1, "b", Calm()).0;
            s.table.pathToIno == map[[] := 1, FILE_B := 2] && s == Mounted().(table := s.table)
  {
    hide ResolveChildPath; hide MissingErrno;
    NamesResolve();
  }

  /** The state after the lookup, whose table has an inode for the root and for "b". */
  ghost predicate BLookedUp(s: State) {
    Agrees(s) && s.table.pathToIno == map[[] := 1, FILE_B := 2] && s == Mounted().(table := s.table)
  }

  lemma RenameSucceeds(s: State)
    requires BLookedUp(s)
    ensures var r := Rename(1, "a", 1, "b");
            RenamePaths(s, r, Calm()) == Ok((FILE_A, FILE_B)) && DoRename(s, r, Calm()).1.Done?
  {
    hide Agrees; hide ResolveChildPath; hide Remap; hide MoveSubtree; hide MissingErrno;
    RootKnown(s);
    NamesResolve();
    assert DirectoryCheck(s.fs, [], {}).None?;
  }

  lemma RootKnown(s: State)
    requires BLookedUp(s)
    ensures 1 in s.table.inoToPath && s.table.inoToPath[1] == []
  {
    assert s.table.pathToIno[[]] == 1;
  }

  lemma RenamedOver(s: State) returns (s': State)
    requires BLookedUp(s)
    ensures Next(s, Call(Rename(1, "a", 1, "b"), Calm()), s')
    ensures Changed(s, Renamed(FILE_A, FILE_B), s')
  {
    hide DoRename; hide Changed; hide RenamePaths; hide Remap;
    RenameSucceeds(s);
    var r := Rename(1, "a", 1, "b");
    s' := DoRename(s, r, Calm()).0;
    var c := RenameChange(s, r, Calm());
    RenameIsNext(s);
  }

  lemma RenameIsNext(s: State)
    requires BLookedUp(s)
    ensures Next(s, Call(Rename(1, "a", 1, "b"), Calm()), DoRename(s, Rename(1, "a", 1, "b"), Calm()).0)
  {
    hide DoRename; hide TreeOk; hide Consistent; hide Rooted; hide ParentClosed;
    assert MaybeGc(s, Calm(), s) && Servable(s, Rename(1, "a", 1, "b"), Calm());
  }

  /**
   From a fresh mount, look up "b", then rename "a" over it without having looked "a" up. The
   inode handed out for the old "b" stays in use and now names the other file.
   */
  lemma RenameWithoutLookup() returns (ss: seq<State>, es: seq<Event>)
    ensures IsRun(ss, es) && |ss| == 3 && Agrees(ss[0])
    ensures es == [Call(Lookup(1, "b"), Calm()), Call(Rename(1, "a", 1, "b"), Calm())]
    ensures ObjectOf(ss[1], 2) == Some(2) && ObjectOf(ss[2], 2) == Some(1)
  {
    hide Next; hide Changed; hide Agrees; hide Mounted;
    MountedAgrees();
    var s1 := LookedUp();
    var s2 := RenamedOver(s1);
    ss := [Mounted(), s1, s2];
    es := [Call(Lookup(1, "b"), Calm()), Call(Rename(1, "a", 1, "b"), Calm())];
    UnsafeRenameBreaks(s1, FILE_A, FILE_B, s2);
    MountedObjects();
  }
}
