/**
 The host file system below a mount root, as far as the FS-RPC server observes it: a tree
 of objects with identity, file contents, and the descriptors the server opened and closed.
 Each system call is a function that either fails or returns the changed file system; a
 call may also fail for reasons of the host's own (`fails`).
 */
module HostFs {
  import opened Common
  import opened Paths
  import opened InodeTable

  const ENOENT := 2
  const EIO := 5
  const EBADF := 9
  const EACCES := 13
  const EEXIST := 17
  const ENOTDIR := 20
  const EISDIR := 21
  const EINVAL := 22
  const EROFS := 30
  const ENOSYS := 38
  const ELOOP := 40

  datatype Kind = File | Dir | Symlink | Other

  /** An object in the tree. Two paths never name the same object (no hard links). */
  datatype Node = Node(id: nat, kind: Kind)

  /** A descriptor: the object it refers to and what it was opened for. */
  datatype OpenFile = OpenFile(obj: nat, readable: bool, writable: bool)

  /**
   files lists every descriptor ever opened, by number; closed counts the Close calls made
   on each.
   */
  datatype Fs = Fs(tree: map<Path, Node>, contents: map<nat, seq<Byte>>, nextObj: nat,
                   files: seq<OpenFile>, closed: multiset<nat>)

  predicate IsDir(tree: map<Path, Node>, p: Path) {
    p in tree && tree[p].kind == Dir
  }

  ghost predicate TreeOk(tree: map<Path, Node>, nextObj: nat, root: Path) {
    && IsDir(tree, root)
    && (forall p :: p in tree ==> root <= p && CleanPath(p) && tree[p].id < nextObj)
    && (forall p {:trigger Parent(p)} :: p in tree && p != root ==> IsDir(tree, Parent(p)))
    && (forall p, q :: p in tree && q in tree && tree[p].id == tree[q].id ==> p == q)
  }

  ghost predicate WellFormed(fs: Fs, root: Path) {
    TreeOk(fs.tree, fs.nextObj, root)
  }

  /** ENOENT, or ENOTDIR when the nearest existing ancestor is not a directory. */
  function MissingErrno(tree: map<Path, Node>, p: Path): int
    decreases |p|
  {
    if p == [] then ENOENT
    else if Parent(p) in tree then (if IsDir(tree, Parent(p)) then ENOENT else ENOTDIR)
    else MissingErrno(tree, Parent(p))
  }

  function Lstat(fs: Fs, p: Path, denied: set<Path>): Result<Node, int> {
    if p in denied then Err(EACCES)
    else if p in fs.tree then Ok(fs.tree[p])
    else Err(MissingErrno(fs.tree, p))
  }

  // ----- Open flags -----

  datatype OpenMode = OpenMode(read: bool, write: bool, create: bool, excl: bool, trunc: bool, append: bool)

  function OsOpenFlagsFromLinux(flags: bv64): OpenMode {
    OpenMode(flags & 0x3 != 0x1,
             flags & 0x3 == 0x1 || flags & 0x3 == 0x2,
             flags & 0x40 != 0,
             flags & 0x80 != 0,
             flags & 0x200 != 0,
             flags & 0x400 != 0)
  }

  predicate HasWriteIntent(flags: bv64) {
    flags & 0x3 != 0 || flags & 0x40 != 0 || flags & 0x200 != 0 || flags & 0x400 != 0
  }

  /**
   The read-only filter refuses exactly the flag words whose translation could write, plus
   those with both access-mode bits set (which would translate to a plain read).
   */
  lemma WriteIntentIsExact(flags: bv64)
    ensures var m := OsOpenFlagsFromLinux(flags);
            HasWriteIntent(flags) <==> m.write || m.create || m.trunc || m.append || flags & 0x3 == 0x3
  {
  }

  // ----- System calls -----

  function OsOpen(fs: Fs, p: Path, m: OpenMode, fails: Option<int>): Result<(Fs, nat), int> {
    if fails.Some? then Err(fails.value)
    else if p in fs.tree then
      var node := fs.tree[p];
      if m.create && m.excl then Err(EEXIST)
      else if node.kind == Dir && (m.write || m.create || m.trunc) then Err(EISDIR)
      else
        var contents := if m.trunc then fs.contents[node.id := []] else fs.contents;
        Ok((fs.(contents := contents, files := fs.files + [OpenFile(node.id, m.read, m.write)]), |fs.files|))
    else if !m.create then Err(MissingErrno(fs.tree, p))
    else if p == [] || !IsDir(fs.tree, Parent(p)) then Err(MissingErrno(fs.tree, p))
    else
      Ok((fs.(tree := fs.tree[p := Node(fs.nextObj, File)],
              contents := fs.contents[fs.nextObj := []],
              nextObj := fs.nextObj + 1,
              files := fs.files + [OpenFile(fs.nextObj, m.read, m.write)]), |fs.files|))
  }

  function OsClose(fs: Fs, file: nat): Fs {
    fs.(closed := fs.closed + multiset{file})
  }

  function OsCloseAll(fs: Fs, files: set<nat>): Fs {
    fs.(closed := fs.closed + multiset(files))
  }

  function OsMkdir(fs: Fs, p: Path, fails: Option<int>): Result<Fs, int> {
    if fails.Some? then Err(fails.value)
    else if p in fs.tree then Err(EEXIST)
    else if p == [] || !IsDir(fs.tree, Parent(p)) then Err(MissingErrno(fs.tree, p))
    else Ok(fs.(tree := fs.tree[p := Node(fs.nextObj, Dir)], nextObj := fs.nextObj + 1))
  }

  /** Removal of a non-directory. */
  function OsUnlink(fs: Fs, p: Path, fails: Option<int>): Result<Fs, int> {
    if fails.Some? then Err(fails.value)
    else if p !in fs.tree then Err(MissingErrno(fs.tree, p))
    else if fs.tree[p].kind == Dir then Err(EISDIR)
    else Ok(fs.(tree := fs.tree - {p}))
  }

  /**
   Rename fails on an existing directory target and on moving a directory into itself; a
   non-directory may replace a non-directory; renaming a file to itself does nothing.
   */
  function OsRename(fs: Fs, src: Path, dst: Path, fails: Option<int>): Result<Fs, int> {
    if fails.Some? then Err(fails.value)
    else if src !in fs.tree then Err(MissingErrno(fs.tree, src))
    else if IsDir(fs.tree, dst) then Err(EEXIST)
    else if src == dst then Ok(fs)
    else if src <= dst then Err(if IsDir(fs.tree, src) then EINVAL else ENOTDIR)
    else if dst == [] || !IsDir(fs.tree, Parent(dst)) then Err(MissingErrno(fs.tree, dst))
    else if IsDir(fs.tree, src) && dst in fs.tree then Err(ENOTDIR)
    else Ok(fs.(tree := MoveSubtree(fs.tree, src, dst)))
  }

  // ----- Contents -----

  function BytesOf(fs: Fs, obj: nat): seq<Byte> {
    if obj in fs.contents then fs.contents[obj] else []
  }

  /** data, filled up with zeros to at least n bytes. */
  function Padded(data: seq<Byte>, n: nat): (r: seq<Byte>)
    ensures |r| == if |data| < n then n else |data|
    ensures data <= r
  {
    if |data| < n then data + seq(n - |data|, _ => 0) else data
  }

  /** data with the given bytes written at a position, a gap before them filled with zeros. */
  function Overlay(data: seq<Byte>, at: nat, bytes: seq<Byte>): seq<Byte> {
    if bytes == [] then data
    else
      var base := Padded(data, at);
      base[..at] + bytes + if at + |bytes| < |base| then base[at + |bytes|..] else []
  }

  function Resized(data: seq<Byte>, size: nat): seq<Byte> {
    if size <= |data| then data[..size] else Padded(data, size)
  }

  function Stored(fs: Fs, obj: nat, at: nat, bytes: seq<Byte>): Fs {
    if bytes == [] then fs else fs.(contents := fs.contents[obj := Overlay(BytesOf(fs, obj), at, bytes)])
  }

  /** What a failing write may have stored: some first part of the data. */
  function Part(data: seq<Byte>, n: nat): seq<Byte> {
    if n < |data| then data[..n] else data
  }

  /** Write at a position: the file system afterwards and the error, if there is one. No data, no system call. */
  function OsWriteAt(fs: Fs, file: OpenFile, at: nat, data: seq<Byte>, fails: Option<int>, stored: nat): (Fs, Option<int>) {
    if data == [] then (fs, None)
    else if !file.writable then (fs, Some(EBADF))
    else if fails.Some? then (Stored(fs, file.obj, at, Part(data, stored)), fails)
    else (Stored(fs, file.obj, at, data), None)
  }

  /** Write at the end of the file. */
  function OsAppend(fs: Fs, file: OpenFile, data: seq<Byte>, fails: Option<int>, stored: nat): (Fs, Option<int>) {
    var end := |BytesOf(fs, file.obj)|;
    if !file.writable then (fs, Some(EBADF))
    else if fails.Some? then (Stored(fs, file.obj, end, Part(data, stored)), fails)
    else (Stored(fs, file.obj, end, data), None)
  }

  /** Change of a file's size; a size beyond the signed range is invalid. */
  function OsTruncate(fs: Fs, obj: nat, size: nat, fails: Option<int>): Result<Fs, int> {
    if size >= 0x8000_0000_0000_0000 then Err(EINVAL)
    else if fails.Some? then Err(fails.value)
    else Ok(fs.(contents := fs.contents[obj := Resized(BytesOf(fs, obj), size)]))
  }

  // ----- Well-formedness is kept -----

  lemma DescendantOfDir(fs: Fs, root: Path, p: Path, q: Path)
    requires WellFormed(fs, root) && q in fs.tree && p < q && root <= p
    ensures IsDir(fs.tree, p)
    decreases |q|
  {
    if Parent(q) != p {
      DescendantOfDir(fs, root, p, Parent(q));
    }
  }

  lemma NodeAdded(fs: Fs, root: Path, p: Path, kind: Kind)
    requires WellFormed(fs, root) && p !in fs.tree && p != [] && IsDir(fs.tree, Parent(p))
    requires root <= p && CleanPath(p)
    ensures WellFormed(fs.(tree := fs.tree[p := Node(fs.nextObj, kind)], nextObj := fs.nextObj + 1), root)
  {
  }

  lemma LeafRemoved(fs: Fs, root: Path, p: Path)
    requires WellFormed(fs, root) && p in fs.tree && !IsDir(fs.tree, p)
    ensures WellFormed(fs.(tree := fs.tree - {p}), root)
  {
  }

  /** What a successful rename does to the tree, and that the tree stays a tree. */
  lemma RenameKeepsTree(fs: Fs, root: Path, src: Path, dst: Path)
    requires WellFormed(fs, root) && root <= src && root <= dst && CleanPath(dst)
    requires OsRename(fs, src, dst, None).Ok? && src != dst
    ensures root < src && root < dst
    ensures forall q :: q in fs.tree && dst <= q ==> q == dst
    ensures WellFormed(OsRename(fs, src, dst, None).value, root)
  {
    var tree := fs.tree;
    var fs' := OsRename(fs, src, dst, None).value;
    assert src != root && dst != root;
    forall q | q in tree && dst <= q
      ensures q == dst
    {
      if q != dst {
        DescendantOfDir(fs, root, dst, q);
      }
    }
    forall p | p in fs'.tree
      ensures root <= p && CleanPath(p) && fs'.tree[p].id < fs'.nextObj
    {
      if Lands(tree, src, dst, p) {
        RebaseInverse(p, dst, src);
        CleanRebase(Rebase(p, dst, src), src, dst);
      }
    }
    forall p | p in fs'.tree && p != root
      ensures IsDir(fs'.tree, Parent(p))
    {
      RenamedParent(fs, root, src, dst, p);
    }
    forall p, q | p in fs'.tree && q in fs'.tree && fs'.tree[p].id == fs'.tree[q].id
      ensures p == q
    {
      RenamedIdentity(fs, root, src, dst, p, q);
    }
  }

  lemma RenamedParent(fs: Fs, root: Path, src: Path, dst: Path, p: Path)
    requires WellFormed(fs, root) && root < src && root < dst && src in fs.tree
    requires !(src <= dst) && IsDir(fs.tree, Parent(dst)) && !IsDir(fs.tree, dst)
    requires p in MoveSubtree(fs.tree, src, dst) && p != root
    ensures Parent(p) in MoveSubtree(fs.tree, src, dst) && MoveSubtree(fs.tree, src, dst)[Parent(p)].kind == Dir
  {
    hide MoveSubtree; hide CleanPath;
    var tree := fs.tree;
    if Lands(tree, src, dst, p) {
      var from := Rebase(p, dst, src);
      if p == dst {
        assert !(src <= Parent(dst));
        assert !Lands(tree, src, dst, Parent(dst));
      } else {
        assert dst <= Parent(p) && Rebase(Parent(p), dst, src) == Parent(from);
        assert from != root && IsDir(fs.tree, Parent(from));
        assert Lands(tree, src, dst, Parent(p));
      }
    } else {
      var up := Parent(p);
      assert IsDir(fs.tree, up) && !(src <= up);
      if dst <= up {
        if dst != up {
          DescendantOfDir(fs, root, dst, up);
        }
        assert false;
      }
    }
  }

  lemma RenamedIdentity(fs: Fs, root: Path, src: Path, dst: Path, p: Path, q: Path)
    requires WellFormed(fs, root)
    requires var m := MoveSubtree(fs.tree, src, dst); p in m && q in m && m[p].id == m[q].id
    ensures p == q
  {
  }
}
