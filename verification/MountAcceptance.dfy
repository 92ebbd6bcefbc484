/**
 When the server accepts a request, said in terms of the host tree, the raw flag words and the
 handle table, and what it then does. Together with `MountLaws` this fixes the answers a client
 gets, not only what follows from an answer.
 */
module MountAcceptance {
  import opened Common
  import opened Paths
  import opened InodeTable
  import opened HandleTable
  import opened HostFs
  import opened Readdir
  import opened MountSpec
  import opened MountRuns
  import opened MountLaws

  // ----- Dispatch -----

  /**
   A request that would change something is refused on a read-only or unspecified-mode mount,
   with nothing changed; otherwise each request is answered by its own handler.
   */
  lemma Dispatches(s: State, r: Request, o: Oracle)
    requires Servable(s, r, o)
    ensures s.mode != ReadWriteMode && (r.Write? || r.Create? || r.Mkdir? || r.Unlink? || r.Rename? || r.Truncate?)
            ==> Serve(s, r, o) == (s, Fail(30))
    ensures r.Lookup? ==> Serve(s, r, o) == DoLookup(s, r.parent, r.name, o)
    ensures r.Getattr? ==> Serve(s, r, o) == DoGetattr(s, r.ino, o)
    ensures r.ReadDir? ==> Serve(s, r, o) == DoReadDir(s, r.ino, r.offset, r.maxEntries, o)
    ensures r.Open? ==> Serve(s, r, o) == DoOpen(s, r.ino, r.flags, o)
    ensures r.Read? ==> Serve(s, r, o) == DoRead(s, r.fh, r.offset, r.size, o)
    ensures r.Release? ==> Serve(s, r, o) == DoRelease(s, r.fh)
    ensures r.Ping? ==> Serve(s, r, o) == (s, Pong(if s.mode == ReadWriteMode then "rw" else "ro"))
    ensures r.UnknownOp? ==> Serve(s, r, o) == (s, Fail(38))
    ensures s.mode == ReadWriteMode ==>
              && (r.Write? ==> Serve(s, r, o) == DoWrite(s, r.fh, r.offset, r.data, o))
              && (r.Create? ==> Serve(s, r, o) == DoCreate(s, r.parent, r.name, r.flags, o))
              && (r.Mkdir? ==> Serve(s, r, o) == DoMkdir(s, r.parent, r.name, o))
              && (r.Unlink? ==> Serve(s, r, o) == DoUnlink(s, r.parent, r.name, o))
              && (r.Rename? ==> Serve(s, r, o) == DoRename(s, r, o))
              && (r.Truncate? ==> Serve(s, r, o) == DoTruncate(s, r.ino, r.size, o))
  {
    hide DoLookup; hide DoGetattr; hide DoReadDir; hide DoOpen; hide DoRead; hide DoRelease; hide Consistent; hide Rooted;
    hide DoCreate; hide DoMkdir; hide DoUnlink; hide DoRename; hide DoTruncate; hide DoWrite; hide ListingOk;
  }

  // ----- Names -----

  /** The parent inode is known and its path holds a directory the host lets the server stat. */
  ghost predicate Directory(s: State, ino: nat, o: Oracle) {
    && ino in s.table.inoToPath && s.table.inoToPath[ino] !in o.denied
    && s.table.inoToPath[ino] in s.fs.tree && s.fs.tree[s.table.inoToPath[ino]].kind == Dir
  }

  /** The path of a proper name under a known inode. */
  function Child(s: State, parent: nat, name: string): Path
    requires parent in s.table.inoToPath
  {
    s.table.inoToPath[parent] + [name]
  }

  lemma ChildResolves(s: State, parent: nat, name: string)
    requires TableInv(s) && parent in s.table.inoToPath && ValidName(name)
    ensures ResolveChildPath(s.root, s.table.inoToPath[parent], name) == Ok(Child(s, parent, name))
    ensures Inside(s.root, Child(s, parent, name)) && Parent(Child(s, parent, name)) == s.table.inoToPath[parent]
  {
    hide ResolveChildPath;
    StoredInside(s, parent);
    Resolves(s.root, s.table.inoToPath[parent], name);
  }

  /** How a lookup of a proper name fails: unknown parent, parent that is no directory, nothing there, or a symbolic link. */
  lemma LookupRefusals(s: State, parent: nat, name: string, o: Oracle)
    requires TableInv(s)
    ensures parent !in s.table.inoToPath ==> DoLookup(s, parent, name, o) == (s, Fail(20))
    ensures parent in s.table.inoToPath && (name == "" || '/' in name) ==> DoLookup(s, parent, name, o) == (s, Fail(22))
    ensures parent in s.table.inoToPath && ValidName(name) && Child(s, parent, name) in o.denied
            ==> DoLookup(s, parent, name, o) == (s, Fail(13))
    ensures parent in s.table.inoToPath && ValidName(name) && Child(s, parent, name) !in o.denied
            ==> var dir, target := s.table.inoToPath[parent], Child(s, parent, name);
                && (IsDir(s.fs.tree, dir) && target !in s.fs.tree ==> DoLookup(s, parent, name, o) == (s, Fail(2)))
                && (dir in s.fs.tree && !IsDir(s.fs.tree, dir) ==> DoLookup(s, parent, name, o) == (s, Fail(20)))
                && (target in s.fs.tree && s.fs.tree[target].kind == Symlink ==> DoLookup(s, parent, name, o) == (s, Fail(40)))
  {
    if parent in s.table.inoToPath && ValidName(name) {
      ChildResolves(s, parent, name);
      var target := Child(s, parent, name);
      assert target in s.fs.tree && target != s.root ==> IsDir(s.fs.tree, Parent(target));
    }
    if parent in s.table.inoToPath && (name == "" || '/' in name) {
      StoredInside(s, parent);
      Resolves(s.root, s.table.inoToPath[parent], name);
    }
    hide IsWithinRoot;
  }

  /**
   Listing, mkdir, create, unlink and rename refuse a parent that is not a directory, with 20, or
   that the host does not let them look at, with 13, and change nothing.
   */
  lemma ParentRefusals(s: State, r: Request, o: Oracle, parent: nat)
    requires Servable(s, r, o) && parent in s.table.inoToPath && s.mode == ReadWriteMode
    requires match r
             case ReadDir(ino, _, _) => parent == ino
             case Create(p, _, _) => parent == p
             case Mkdir(p, _) => parent == p
             case Unlink(p, _) => parent == p
             case Rename(p, _, d, _) => d in s.table.inoToPath && parent == p
             case _ => false
    ensures s.table.inoToPath[parent] in o.denied ==> Serve(s, r, o) == (s, Fail(13))
    ensures var dir := s.table.inoToPath[parent];
            dir !in o.denied && dir in s.fs.tree && s.fs.tree[dir].kind != Dir ==> Serve(s, r, o) == (s, Fail(20))
  {
  }

  /**
   A proper name under a directory can be made into a new directory exactly if nothing is there
   yet, unless the host fails.
   */
  lemma MkdirAccepted(s: State, parent: nat, name: string, o: Oracle)
    requires TableInv(s) && Directory(s, parent, o) && ValidName(name) && o.fails.None? && o.statFails.None?
    ensures DoMkdir(s, parent, name, o).1.Entry? <==> Child(s, parent, name) !in s.fs.tree
    ensures Child(s, parent, name) in s.fs.tree ==> DoMkdir(s, parent, name, o) == (s, Fail(17))
  {
    hide ResolveChildPath; hide TreeOk; hide Consistent; hide Rooted;
    ChildResolves(s, parent, name);
  }

  /**
   A proper name under a directory can be created or opened for creation exactly if nothing is
   there yet, or something other than a directory or a symbolic link and the exclusive flag is
   not set, unless the host fails or does not let the server look.
   */
  lemma CreateAccepted(s: State, parent: nat, name: string, flags: bv64, o: Oracle)
    requires TableInv(s) && CanAllocate(s) && Directory(s, parent, o) && ValidName(name)
    requires o.fails.None? && o.statFails.None?
    ensures var target := Child(s, parent, name);
            && (DoCreate(s, parent, name, flags, o).1.Created? <==>
                && target !in o.denied
                && (target in s.fs.tree ==>
                      s.fs.tree[target].kind != Dir && s.fs.tree[target].kind != Symlink && flags & 0x80 == 0))
            && (target in o.denied ==> DoCreate(s, parent, name, flags, o) == (s, Fail(13)))
  {
    hide ResolveChildPath; hide TreeOk; hide Consistent; hide Rooted; hide FirstFree;
    ChildResolves(s, parent, name);
  }

  /** A name can be unlinked exactly if something other than a directory or a symbolic link is there, unless the host fails. */
  lemma UnlinkAccepted(s: State, parent: nat, name: string, o: Oracle)
    requires TableInv(s) && Directory(s, parent, o) && ValidName(name)
    requires o.fails.None?
    ensures var target := Child(s, parent, name);
            && (DoUnlink(s, parent, name, o).1 == Done <==>
                target !in o.denied && target in s.fs.tree && s.fs.tree[target].kind != Dir && s.fs.tree[target].kind != Symlink)
            && (target in o.denied ==> DoUnlink(s, parent, name, o) == (s, Fail(13)))
            && (target !in o.denied && target in s.fs.tree && s.fs.tree[target].kind == Dir ==> DoUnlink(s, parent, name, o) == (s, Fail(21)))
  {
    hide ResolveChildPath; hide TreeOk; hide Consistent; hide Rooted; hide MissingErrno;
    ChildResolves(s, parent, name);
  }

  // ----- Rename -----

  /** What a rename of src to dst needs of the tree. */
  ghost predicate CanRename(tree: map<Path, Node>, src: Path, dst: Path) {
    && src in tree && tree[src].kind != Symlink
    && !(dst in tree && tree[dst].kind == Dir)
    && (src == dst || !(src <= dst))
    && (tree[src].kind == Dir ==> dst !in tree)
  }

  /**
   A rename between two directories, under proper names and without a failure of the host,
   succeeds exactly if the source exists and is no symbolic link, the target is no directory and
   not below the source, and nothing is at the target when the source is a directory.
   */
  lemma RenameAccepted(s: State, r: Request, o: Oracle)
    requires TableInv(s) && r.Rename? && o.fails.None?
    requires Directory(s, r.srcParent, o) && Directory(s, r.dstParent, o) && ValidName(r.srcName) && ValidName(r.dstName)
    requires Child(s, r.srcParent, r.srcName) !in o.denied
    ensures RenamePaths(s, r, o) == Ok((Child(s, r.srcParent, r.srcName), Child(s, r.dstParent, r.dstName)))
    ensures DoRename(s, r, o).1 == Done
            <==> CanRename(s.fs.tree, Child(s, r.srcParent, r.srcName), Child(s, r.dstParent, r.dstName))
  {
    hide ResolveChildPath; hide TreeOk; hide Consistent; hide Rooted; hide MissingErrno; hide Remap; hide MoveSubtree;
    ChildResolves(s, r.srcParent, r.srcName);
    ChildResolves(s, r.dstParent, r.dstName);
  }

  /**
   Such a rename moves everything at or below the source: each object is found at its moved
   path, with its inode if it had one, and not at the old one; everything else stays where it
   was, save what the target replaced.
   */
  lemma RenameMovesSubtree(s: State, r: Request, o: Oracle, q: Path)
    requires TableInv(s) && r.Rename? && o.fails.None?
    requires Directory(s, r.srcParent, o) && Directory(s, r.dstParent, o) && ValidName(r.srcName) && ValidName(r.dstName)
    requires Child(s, r.srcParent, r.srcName) !in o.denied && Child(s, r.srcParent, r.srcName) != Child(s, r.dstParent, r.dstName)
    requires CanRename(s.fs.tree, Child(s, r.srcParent, r.srcName), Child(s, r.dstParent, r.dstName)) && q in s.fs.tree
    ensures var src, dst, s' := Child(s, r.srcParent, r.srcName), Child(s, r.dstParent, r.dstName), DoRename(s, r, o).0;
            if src <= q then
              var q' := dst + q[|src|..];
              && q' in s'.fs.tree && s'.fs.tree[q'] == s.fs.tree[q] && q !in s'.fs.tree
              && (q in s.table.pathToIno ==>
                    && q' in s'.table.pathToIno && s'.table.pathToIno[q'] == s.table.pathToIno[q]
                    && s'.table.inoToPath[s.table.pathToIno[q]] == q')
            else if q != dst then
              && q in s'.fs.tree && s'.fs.tree[q] == s.fs.tree[q]
              && (q in s.table.pathToIno ==> q in s'.table.pathToIno && s'.table.pathToIno[q] == s.table.pathToIno[q])
            else
              q in s'.fs.tree && s'.fs.tree[q] == s.fs.tree[src]
  {
    hide DoRename; hide TableInv; hide OsRename; hide Remap; hide CanRename;
    var src, dst := Child(s, r.srcParent, r.srcName), Child(s, r.dstParent, r.dstName);
    RenameApplied(s, r, o);
    MovedNode(s, src, dst, q);
    if q in s.table.pathToIno {
      MovedInode(s, src, dst, q);
    }
  }

  /** The state after such a rename. */
  lemma RenameApplied(s: State, r: Request, o: Oracle)
    requires TableInv(s) && r.Rename? && o.fails.None?
    requires Directory(s, r.srcParent, o) && Directory(s, r.dstParent, o) && ValidName(r.srcName) && ValidName(r.dstName)
    requires Child(s, r.srcParent, r.srcName) !in o.denied
    requires CanRename(s.fs.tree, Child(s, r.srcParent, r.srcName), Child(s, r.dstParent, r.dstName))
    ensures var src, dst := Child(s, r.srcParent, r.srcName), Child(s, r.dstParent, r.dstName);
            && Inside(s.root, src) && Inside(s.root, dst) && OsRename(s.fs, src, dst, None).Ok? && src in s.fs.tree
            && DoRename(s, r, o).0 == s.(fs := OsRename(s.fs, src, dst, None).value, table := Remap(s.table, src, dst))
  {
    hide DoRename; hide TableInv; hide OsRename; hide Remap;
    RenameAccepted(s, r, o);
    RenameEffect(s, r, o);
    RenamePathsNear(s, r, o);
  }

  lemma MovedNode(s: State, src: Path, dst: Path, q: Path)
    requires TableInv(s) && Inside(s.root, src) && Inside(s.root, dst) && OsRename(s.fs, src, dst, None).Ok? && src != dst && q in s.fs.tree
    ensures var tree' := OsRename(s.fs, src, dst, None).value.tree;
            if src <= q then dst + q[|src|..] in tree' && tree'[dst + q[|src|..]] == s.fs.tree[q] && q !in tree'
            else if q != dst then q in tree' && tree'[q] == s.fs.tree[q]
            else q in tree' && src in s.fs.tree && tree'[q] == s.fs.tree[src]
  {
    hide Consistent; hide Rooted;
    RenameKeepsTree(s.fs, s.root, src, dst);
    if src <= q {
      MovedKeysArrive(s.fs.tree, src, dst, q);
    } else if q == dst {
      MovedKeysArrive(s.fs.tree, src, dst, src);
      assert Rebase(src, src, dst) == dst;
    }
  }

  lemma MovedInode(s: State, src: Path, dst: Path, q: Path)
    requires TableInv(s) && Inside(s.root, src) && Inside(s.root, dst) && OsRename(s.fs, src, dst, None).Ok? && src != dst
    requires q in s.fs.tree && q in s.table.pathToIno
    ensures var t' := Remap(s.table, src, dst);
            if src <= q then
              var q' := dst + q[|src|..];
              && q' in t'.pathToIno && t'.pathToIno[q'] == s.table.pathToIno[q]
              && s.table.pathToIno[q] in t'.inoToPath && t'.inoToPath[s.table.pathToIno[q]] == q'
            else q != dst ==> q in t'.pathToIno && t'.pathToIno[q] == s.table.pathToIno[q]
  {
    hide Rooted;
    RenameKeepsTree(s.fs, s.root, src, dst);
    hide OsRename; hide TreeOk;
    if src <= q {
      MovedKeysArrive(s.table.pathToIno, src, dst, q);
    }
  }

  // ----- Files -----

  /**
   An open succeeds exactly for an inode whose path holds something other than a directory or a
   symbolic link, unless creation is demanded exclusively, the host fails, or the mount is
   read-only and the flags ask for any kind of writing.
   */
  lemma OpenAccepted(s: State, ino: nat, flags: bv64, o: Oracle)
    requires CanAllocate(s) && o.fails.None?
    ensures DoOpen(s, ino, flags, o).1.Opened? <==>
            && !(s.mode != ReadWriteMode && (flags & 0x3 != 0 || flags & 0x40 != 0 || flags & 0x200 != 0 || flags & 0x400 != 0))
            && ino in s.table.inoToPath && s.table.inoToPath[ino] !in o.denied && s.table.inoToPath[ino] in s.fs.tree
            && s.fs.tree[s.table.inoToPath[ino]].kind != Dir && s.fs.tree[s.table.inoToPath[ino]].kind != Symlink
            && !(flags & 0x40 != 0 && flags & 0x80 != 0)
    ensures s.mode != ReadWriteMode && (flags & 0x3 != 0 || flags & 0x40 != 0 || flags & 0x200 != 0 || flags & 0x400 != 0)
            ==> DoOpen(s, ino, flags, o) == (s, Fail(30))
  {
    hide FirstFree; hide MissingErrno;
  }

  /**
   The handle of a successful open is on the object at the inode's path; it can be read unless
   the flags say write-only and written only if they say so, appends exactly with the append
   flag, and counts as just used. Contents stay unless the truncate flag is set; then that one
   file is emptied.
   */
  lemma OpenedHandle(s: State, ino: nat, flags: bv64, o: Oracle)
    requires CanAllocate(s) && DoOpen(s, ino, flags, o).1.Opened?
    ensures ino in s.table.inoToPath && s.table.inoToPath[ino] in s.fs.tree
    ensures var (s', reply) := DoOpen(s, ino, flags, o);
            var obj := s.fs.tree[s.table.inoToPath[ino]].id;
            && reply.fh in s'.handles && s'.handles[reply.fh].ino == ino && s'.handles[reply.fh].lastUsed == o.now
            && s'.handles[reply.fh].append == (flags & 0x400 != 0)
            && s'.handles[reply.fh].file == |s.fs.files| && |s'.fs.files| == |s.fs.files| + 1
            && s'.fs.files[|s.fs.files|] == OpenFile(obj, flags & 0x3 != 0x1, flags & 0x3 == 0x1 || flags & 0x3 == 0x2)
            && s'.fs.tree == s.fs.tree
            && (flags & 0x200 == 0 ==> s'.fs.contents == s.fs.contents)
            && (flags & 0x200 != 0 ==> s'.fs.contents == s.fs.contents[obj := []])
  {
    hide FirstFree; hide MissingErrno; hide HasWriteIntent;
  }

  /**
   The handle of a successful create is for reading and writing as the flags say. A file that was
   there keeps its contents unless the truncate flag is set; a new one is empty; no other file
   changes.
   */
  lemma CreatedHandle(s: State, parent: nat, name: string, flags: bv64, o: Oracle)
    requires TableInv(s) && CanAllocate(s) && Directory(s, parent, o) && ValidName(name)
    requires DoCreate(s, parent, name, flags, o).1.Created?
    ensures var (s', reply) := DoCreate(s, parent, name, flags, o);
            var target := Child(s, parent, name);
            && reply.fh in s'.handles && s'.handles[reply.fh].lastUsed == o.now && s'.handles[reply.fh].file == |s.fs.files|
            && s'.handles[reply.fh].append == (flags & 0x400 != 0) && |s'.fs.files| == |s.fs.files| + 1
            && s'.fs.files[|s.fs.files|].readable == (flags & 0x3 != 0x1)
            && s'.fs.files[|s.fs.files|].writable == (flags & 0x3 == 0x1 || flags & 0x3 == 0x2)
            && target in s'.fs.tree && s'.fs.tree == s.fs.tree[target := s'.fs.tree[target]]
            && (target in s.fs.tree ==> s'.fs.tree[target] == s.fs.tree[target])
            && (target in s.fs.tree && flags & 0x200 == 0 ==> s'.fs.contents == s.fs.contents)
            && (target !in s.fs.tree || flags & 0x200 != 0 ==> s'.fs.contents == s.fs.contents[s'.fs.tree[target].id := []])
  {
    hide FirstFree; hide MissingErrno; hide ResolveChildPath; hide TreeOk; hide Consistent; hide Rooted;
    ChildResolves(s, parent, name);
  }

  /**
   A read through a readable handle, from an offset below 2^63 and without a failure of the host,
   returns the bytes of the file from there: as many as were asked for, at most 256 KiB, and no
   more than are left.
   */
  lemma ReadReply(s: State, fh: nat, offset: U64, size: U64, o: Oracle)
    requires fh in s.handles && s.handles[fh].file < |s.fs.files| && s.fs.files[s.handles[fh].file].readable
    requires offset < 0x8000_0000_0000_0000 && o.fails.None?
    ensures var bytes, reply := BytesOf(s.fs, s.fs.files[s.handles[fh].file].obj), DoRead(s, fh, offset, size, o).1;
            && reply.Data?
            && |reply.data| == Least(size, 262144, if offset < |bytes| then |bytes| - offset else 0)
            && forall k :: 0 <= k < |reply.data| ==> reply.data[k] == bytes[offset + k]
    ensures var s' := DoRead(s, fh, offset, size, o).0;
            s' == s.(handles := s'.handles) && fh in s'.handles && s'.handles[fh] == s.handles[fh].(lastUsed := o.now)
  {
  }

  function Least(a: nat, b: nat, c: nat): nat {
    if a <= b && a <= c then a else if b <= c then b else c
  }

  /** An unknown handle and one not open for reading are refused with 9, an offset of 2^63 or more with 5. */
  lemma ReadRefused(s: State, fh: nat, offset: U64, size: U64, o: Oracle)
    ensures fh !in s.handles ==> DoRead(s, fh, offset, size, o) == (s, Fail(9))
    ensures fh in s.handles && offset >= 0x8000_0000_0000_0000 ==> DoRead(s, fh, offset, size, o).1 == Fail(5)
    ensures fh in s.handles && offset < 0x8000_0000_0000_0000 && size > 0
            && (s.handles[fh].file >= |s.fs.files| || !s.fs.files[s.handles[fh].file].readable)
            ==> DoRead(s, fh, offset, size, o).1 == Fail(9)
  {
  }

  /**
   A write through a writable handle, in append mode or at an offset below 2^63, succeeds with
   all the data unless the host fails; through a handle not open for writing it is refused.
   */
  lemma WriteAccepted(s: State, fh: nat, offset: U64, data: seq<Byte>, o: Oracle)
    requires fh in s.handles && s.handles[fh].file < |s.fs.files|
    ensures s.fs.files[s.handles[fh].file].writable && (s.handles[fh].append || offset < 0x8000_0000_0000_0000) && o.fails.None?
            ==> DoWrite(s, fh, offset, data, o).1 == Wrote(|data|)
    ensures !s.fs.files[s.handles[fh].file].writable && data != [] ==> DoWrite(s, fh, offset, data, o).1.Fail?
    ensures var s' := DoWrite(s, fh, offset, data, o).0; fh in s'.handles && s'.handles[fh] == s.handles[fh].(lastUsed := o.now)
  {
    hide Overlay;
  }

  /** A truncate succeeds exactly for an existing file and a size below 2^63, unless the host fails; then the file has that size. */
  lemma TruncateAccepted(s: State, ino: nat, size: U64, o: Oracle)
    requires o.fails.None?
    ensures DoTruncate(s, ino, size, o).1 == Done <==>
            && ino in s.table.inoToPath && s.table.inoToPath[ino] !in o.denied && s.table.inoToPath[ino] in s.fs.tree
            && s.fs.tree[s.table.inoToPath[ino]].kind != Dir && s.fs.tree[s.table.inoToPath[ino]].kind != Symlink
            && size < 0x8000_0000_0000_0000
    ensures DoTruncate(s, ino, size, o).1 == Done ==>
              var obj := s.fs.tree[s.table.inoToPath[ino]].id;
              var before, after := BytesOf(s.fs, obj), BytesOf(DoTruncate(s, ino, size, o).0.fs, obj);
              && |after| == size && forall k :: 0 <= k < size ==> after[k] == if k < |before| then before[k] else 0
  {
    hide MissingErrno;
  }

  /** A new mount knows the root only, as inode 1; a file created below it first gets inode 2 and handle 1. */
  lemma FirstHandle(root: Path, mode: Mode, cfg: Config, now: int, fs: Fs, parent: nat, name: string, flags: bv64, o: Oracle)
    requires CleanPath(root) && WellFormed(fs, root) && ValidName(name)
    requires DoCreate(FreshState(root, mode, cfg, now, fs), parent, name, flags, o).1.Created?
    ensures parent == 1 && DoCreate(FreshState(root, mode, cfg, now, fs), parent, name, flags, o).1 == Created(2, 1)
  {
    hide FirstFree; hide MissingErrno; hide WellFormed;
    assert root + [name] != root;
    Resolves(root, root, name);
    FirstFreeUnique(map[], 1, 1, FirstFree(map[], 1));
  }

  // ----- Collection -----

  /** A new mount counts as just collected. */
  lemma FirstCollection(root: Path, mode: Mode, cfg: Config, now: int, fs: Fs, o: Oracle, mid: State)
    requires MaybeGc(FreshState(root, mode, cfg, now, fs), o, mid) && o.now - now < cfg.gcInterval && cfg.gcInterval > 0
    ensures mid == FreshState(root, mode, cfg, now, fs)
  {
  }

  /**
   A call made at least the collection interval after the last collection finds no handle that
   has been idle for longer than the limit allows, and at most the permitted number of handles;
   a call made earlier finds everything as it was.
   */
  lemma CollectionDue(s: State, o: Oracle, mid: State)
    requires FilesInv(s) && MaybeGc(s, o, mid)
    ensures s.cfg.gcInterval <= 0 || o.now - s.lastGC >= s.cfg.gcInterval ==>
              && mid.lastGC == o.now
              && (s.cfg.idleTtl > 0 ==> forall fh :: fh in mid.handles ==> mid.handles[fh].lastUsed >= o.now - s.cfg.idleTtl)
              && (s.cfg.maxHandles > 0 ==> |mid.handles| <= s.cfg.maxHandles)
              && (s.cfg.maxInodes > 0 && |mid.table.pathToIno| > s.cfg.maxInodes ==>
                    forall p :: p in mid.table.pathToIno && p in o.gone ==>
                      mid.table.pathToIno[p] == 1 || exists fh :: fh in mid.handles && mid.handles[fh].ino == mid.table.pathToIno[p])
    ensures s.cfg.gcInterval > 0 && o.now - s.lastGC < s.cfg.gcInterval ==> mid == s
  {
    hide InodeGc;
    if s.cfg.gcInterval <= 0 || o.now - s.lastGC >= s.cfg.gcInterval {
      HandleGcOutcome(s.handles, s.cfg.idleTtl, s.cfg.maxHandles, o.now, mid.handles);
      GoneAreDropped(s.table, s.root, mid.handles, o.gone, s.cfg.maxInodes, mid.table);
    }
  }

  lemma GoneAreDropped(t: Table, root: Path, handles: Handles, gone: set<Path>, limit: int, t': Table)
    requires InodeGc(t, root, Pinned(handles), gone, limit, t')
    ensures limit > 0 && |t'.pathToIno| > limit ==>
              forall p :: p in t'.pathToIno && p in gone ==>
                t'.pathToIno[p] == 1 || exists fh :: fh in handles && handles[fh].ino == t'.pathToIno[p]
  {
    hide Pinned; hide IsWithinRoot;
    if limit > 0 && |t'.pathToIno| > limit {
      CandidatesGone(t, root, Pinned(handles), gone, limit, t');
      forall p | p in t'.pathToIno && p in gone
        ensures t'.pathToIno[p] == 1 || exists fh :: fh in handles && handles[fh].ino == t'.pathToIno[p]
      {
        PinnedIs(handles, t'.pathToIno[p]);
      }
    }
  }

  lemma CandidatesGone(t: Table, root: Path, pinned: set<nat>, gone: set<Path>, limit: int, t': Table)
    requires InodeGc(t, root, pinned, gone, limit, t') && limit > 0 && |t'.pathToIno| > limit
    ensures forall p :: p in t'.pathToIno && p in gone ==> t'.pathToIno[p] in pinned
  {
    hide IsWithinRoot;
    var candidates := Evictable(t, root, pinned, gone);
    var dropped := t.pathToIno.Keys - t'.pathToIno.Keys;
    assert t'.pathToIno.Keys == t.pathToIno.Keys - dropped;
    assert |t'.pathToIno.Keys| == |t.pathToIno.Keys| - |dropped|;
    assert |dropped| == |candidates|;
    SubsetSameSize(dropped, candidates);
  }
}
