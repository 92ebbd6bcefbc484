/**
 What holds over every run of the FS-RPC server: the inode table stays an exact, rooted
 index; every opened host file is in the handle table or closed exactly once; a read-only
 mount changes nothing.
 */
module MountRuns {
  import opened Common
  import opened Paths
  import opened InodeTable
  import opened HandleTable
  import opened HostFs
  import opened Readdir
  import opened MountSpec

  // ----- Runs -----

  /** A request, a change to the host tree made by somebody else, or the server's shutdown. */
  datatype Event = Call(req: Request, oracle: Oracle) | External(fs: Fs) | Close

  ghost predicate Next(s: State, e: Event, s': State) {
    match e
    case Call(r, o) =>
      && o.now > 0 && o.gone !! s.fs.tree.Keys
      && exists mid :: MaybeGc(s, o, mid) && Servable(mid, r, o) && s' == Serve(mid, r, o).0
    case External(fs) =>
      && WellFormed(fs, s.root) && fs.files == s.fs.files && fs.closed == s.fs.closed
      && s' == s.(fs := fs)
    case Close => s' == Shutdown(s)
  }

  /** The server, in state s, answers the call with this reply and is then in state s'. */
  ghost predicate Answers(s: State, e: Event, reply: Reply, s': State) {
    && e.Call? && e.oracle.now > 0 && e.oracle.gone !! s.fs.tree.Keys
    && exists mid :: MaybeGc(s, e.oracle, mid) && Servable(mid, e.req, e.oracle) && (s', reply) == Serve(mid, e.req, e.oracle)
  }

  ghost predicate IsRun(ss: seq<State>, es: seq<Event>) {
    && |ss| == |es| + 1
    && forall i :: 0 <= i < |es| ==> Next(ss[i], es[i], ss[i + 1])
  }

  // ----- Table and tree invariant -----

  ghost predicate TableInv(s: State) {
    && CleanPath(s.root)
    && Consistent(s.table) && Rooted(s.table, s.root)
    && WellFormed(s.fs, s.root)
  }

  /** The ways a request can change the inode table and the host tree. */
  datatype Change =
    | Quiet
    | Seen(path: Path)
    | Made(path: Path, kind: Kind, mapped: bool)
    | Listed(dir: Path, names: seq<string>)
    | Unlinked(path: Path)
    | Renamed(src: Path, dst: Path)

  /** p is a stored path, the parent of one, or a child of one. */
  ghost predicate Near(t: Table, p: Path) {
    exists x :: x in t.pathToIno && (p == x || p == Parent(x) || Parent(p) == x)
  }

  predicate Inside(root: Path, p: Path) {
    root <= p && CleanPath(p)
  }

  function Added(fs: Fs, p: Path, kind: Kind): map<Path, Node> {
    fs.tree[p := Node(fs.nextObj, kind)]
  }

  /** s' differs from s in table and tree by exactly the change c. */
  ghost predicate Changed(s: State, c: Change, s': State) {
    && s'.root == s.root && s'.mode == s.mode && s'.cfg == s.cfg
    && match c
       case Quiet =>
         s'.table == s.table && s'.fs.tree == s.fs.tree && s'.fs.nextObj == s.fs.nextObj
       case Seen(p) =>
         && Inside(s.root, p) && p in s.fs.tree && Near(s.table, p)
         && s'.table == Ensure(s.table, p) && s'.fs.tree == s.fs.tree && s'.fs.nextObj == s.fs.nextObj
       case Made(p, kind, mapped) =>
         && Inside(s.root, p) && p != [] && p !in s.fs.tree && IsDir(s.fs.tree, Parent(p)) && Parent(p) in s.table.pathToIno
         && s'.table == (if mapped then Ensure(s.table, p) else s.table)
         && s'.fs.tree == Added(s.fs, p, kind) && s'.fs.nextObj == s.fs.nextObj + 1
       case Listed(dir, names) =>
         && dir in s.table.pathToIno && ListingOk(s.fs, dir, names)
         && s'.table == ReaddirTable(s.table, s.root, dir, names)
         && s'.fs.tree == s.fs.tree && s'.fs.nextObj == s.fs.nextObj
       case Unlinked(p) =>
         && p in s.fs.tree && !IsDir(s.fs.tree, p)
         && s'.table == Remove(s.table, p) && s'.fs.tree == s.fs.tree - {p} && s'.fs.nextObj == s.fs.nextObj
       case Renamed(src, dst) =>
         && Inside(s.root, src) && Inside(s.root, dst) && OsRename(s.fs, src, dst, None).Ok?
         && Near(s.table, dst)
         && s'.table == Remap(s.table, src, dst)
         && s'.fs.tree == OsRename(s.fs, src, dst, None).value.tree && s'.fs.nextObj == s.fs.nextObj
  }

  lemma ResolvedNear(s: State, parent: nat, name: string)
    requires TableInv(s) && parent in s.table.inoToPath
    ensures var r := ResolveChildPath(s.root, s.table.inoToPath[parent], name);
            r.Ok? ==> Inside(s.root, r.value) && Near(s.table, r.value)
  {
    ResolveStaysInside(s.root, s.table.inoToPath[parent], name);
    assert s.table.inoToPath[parent] in s.table.pathToIno;
  }

  lemma LookupChange(s: State, parent: nat, name: string, o: Oracle) returns (c: Change)
    requires TableInv(s)
    ensures Changed(s, c, DoLookup(s, parent, name, o).0)
    ensures !c.Renamed? && !c.Unlinked?
  {
    c := Quiet;
    if parent in s.table.inoToPath {
      ResolvedNear(s, parent, name);
      var target := ResolveChildPath(s.root, s.table.inoToPath[parent], name);
      if target.Ok? && Lstat(s.fs, target.value, o.denied).Ok? && s.fs.tree[target.value].kind != Symlink {
        c := Seen(target.value);
      }
    }
  }

  lemma ReadDirChange(s: State, ino: nat, offset: U64, maxEntries: U64, o: Oracle) returns (c: Change)
    requires TableInv(s)
    requires ino in s.table.inoToPath ==> ListingOk(s.fs, s.table.inoToPath[ino], o.listing)
    ensures Changed(s, c, DoReadDir(s, ino, offset, maxEntries, o).0)
    ensures !c.Renamed? && !c.Unlinked?
  {
    hide TreeOk; hide Consistent; hide Rooted; hide ReaddirTable; hide Entries; hide PageOf; hide ListingOk; hide Near;
    hide DirectoryCheck; hide CleanPath;
    c := Quiet;
    if ino in s.table.inoToPath && DirectoryCheck(s.fs, s.table.inoToPath[ino], o.denied).None? && o.fails.None? {
      StoredInside(s, ino);
      c := Listed(s.table.inoToPath[ino], o.listing);
    }
  }

  lemma StoredInside(s: State, ino: nat)
    requires TableInv(s) && ino in s.table.inoToPath
    ensures s.table.inoToPath[ino] in s.table.pathToIno && Inside(s.root, s.table.inoToPath[ino])
  {
  }

  lemma OpenEffect(s: State, ino: nat, flags: bv64, o: Oracle)
    requires CanAllocate(s)
    ensures var s' := DoOpen(s, ino, flags, o).0;
            s' == s ||
            (&& !(ReadOnly(s.mode) && HasWriteIntent(flags)) && ino in s.table.inoToPath && s.table.inoToPath[ino] in s.fs.tree
             && var openRes := OsOpen(s.fs, s.table.inoToPath[ino], OsOpenFlagsFromLinux(flags), o.fails);
             && openRes.Ok?
             && s' == AddHandle(s, openRes.value.0, openRes.value.1, flags & 0x400 != 0, ino, o.now).0)
  {
  }

  lemma OpenChange(s: State, ino: nat, flags: bv64, o: Oracle)
    requires TableInv(s) && CanAllocate(s)
    ensures Changed(s, Quiet, DoOpen(s, ino, flags, o).0)
  {
    hide DoOpen; hide OsOpenFlagsFromLinux; hide HasWriteIntent; hide FirstFree; hide TableInv;
    OpenEffect(s, ino, flags, o);
  }

  lemma CreateEffect(s: State, parent: nat, name: string, flags: bv64, o: Oracle)
    requires CanAllocate(s)
    ensures var s' := DoCreate(s, parent, name, flags, o).0;
            s' == s ||
            (&& parent in s.table.inoToPath && IsDir(s.fs.tree, s.table.inoToPath[parent])
             && var target := ResolveChildPath(s.root, s.table.inoToPath[parent], name);
             && target.Ok?
             && var openRes := OsOpen(s.fs, target.value, OsOpenFlagsFromLinux(flags).(create := true), o.fails);
             && openRes.Ok?
             && s'.root == s.root && s'.mode == s.mode && s'.cfg == s.cfg
             && s'.fs.tree == openRes.value.0.tree && s'.fs.nextObj == openRes.value.0.nextObj
             && s'.table == if o.statFails.None? then Ensure(s.table, target.value) else s.table)
  {
  }

  lemma CreateChange(s: State, parent: nat, name: string, flags: bv64, o: Oracle) returns (c: Change)
    requires TableInv(s) && CanAllocate(s)
    ensures Changed(s, c, DoCreate(s, parent, name, flags, o).0)
    ensures !c.Renamed? && !c.Unlinked?
  {
    c := Quiet;
    CreateEffect(s, parent, name, flags, o);
    if DoCreate(s, parent, name, flags, o).0 != s {
      ResolvedNear(s, parent, name);
      var dir := s.table.inoToPath[parent];
      var target := ResolveChildPath(s.root, dir, name).value;
      ChildOfParent(s, dir, name);
      if target !in s.fs.tree {
        c := Made(target, File, o.statFails.None?);
      } else if o.statFails.None? {
        c := Seen(target);
      }
    }
  }

  lemma MkdirChange(s: State, parent: nat, name: string, o: Oracle) returns (c: Change)
    requires TableInv(s)
    ensures Changed(s, c, DoMkdir(s, parent, name, o).0)
    ensures !c.Renamed? && !c.Unlinked?
  {
    c := Quiet;
    if parent in s.table.inoToPath {
      ResolvedNear(s, parent, name);
      var dir := s.table.inoToPath[parent];
      var target := ResolveChildPath(s.root, dir, name);
      if target.Ok? && DirectoryCheck(s.fs, dir, o.denied).None? && OsMkdir(s.fs, target.value, o.fails).Ok? {
        ChildOfParent(s, dir, name);
        c := Made(target.value, Dir, o.statFails.None?);
      }
    }
  }

  /** A path that does not exist yet can only be resolved as a child of an existing directory. */
  lemma ChildOfParent(s: State, dir: Path, name: string)
    requires TableInv(s) && Inside(s.root, dir) && ResolveChildPath(s.root, dir, name).Ok?
    ensures var target := ResolveChildPath(s.root, dir, name).value;
            IsDir(s.fs.tree, dir) && target !in s.fs.tree ==> target != [] && Parent(target) == dir
  {
  }

  lemma UnlinkChange(s: State, parent: nat, name: string, o: Oracle) returns (c: Change)
    requires TableInv(s)
    ensures Changed(s, c, DoUnlink(s, parent, name, o).0)
    ensures !c.Renamed?
  {
    hide DoUnlink; hide ResolveChildPath; hide TableInv;
    c := Quiet;
    UnlinkEffect(s, parent, name, o);
    if DoUnlink(s, parent, name, o).1.Done? {
      c := Unlinked(ResolveChildPath(s.root, s.table.inoToPath[parent], name).value);
    }
  }

  lemma UnlinkEffect(s: State, parent: nat, name: string, o: Oracle)
    ensures var (s', reply) := DoUnlink(s, parent, name, o);
            if reply.Done? then
              && parent in s.table.inoToPath
              && var target := ResolveChildPath(s.root, s.table.inoToPath[parent], name);
              && target.Ok? && target.value in s.fs.tree && !IsDir(s.fs.tree, target.value)
              && s' == s.(table := Remove(s.table, target.value), fs := s.fs.(tree := s.fs.tree - {target.value}))
            else s' == s
  {
  }

  lemma RenameEffect(s: State, r: Request, o: Oracle)
    requires r.Rename?
    ensures var (s', reply) := DoRename(s, r, o);
            if reply.Done? then
              && RenamePaths(s, r, o).Ok?
              && var (src, dst) := RenamePaths(s, r, o).value;
              && OsRename(s.fs, src, dst, None).Ok?
              && s' == s.(fs := OsRename(s.fs, src, dst, None).value, table := Remap(s.table, src, dst))
              && s'.fs.nextObj == s.fs.nextObj
            else s' == s
  {
  }

  lemma RenameChange(s: State, r: Request, o: Oracle) returns (c: Change)
    requires TableInv(s) && r.Rename?
    ensures Changed(s, c, DoRename(s, r, o).0)
    ensures c.Renamed? ==> RenamePaths(s, r, o) == Ok((c.src, c.dst))
    ensures c == Quiet || c.Renamed?
    ensures DoRename(s, r, o).1.Done? ==> c.Renamed?
  {
    hide MoveSubtree; hide Remap; hide RenamePaths; hide OsRename; hide TableInv; hide Near; hide Lstat;
    c := Quiet;
    RenameEffect(s, r, o);
    if DoRename(s, r, o).1.Done? {
      var (src, dst) := RenamePaths(s, r, o).value;
      RenamePathsNear(s, r, o);
      c := Renamed(src, dst);
    }
  }

  lemma RenamePathsNear(s: State, r: Request, o: Oracle)
    requires TableInv(s) && r.Rename? && RenamePaths(s, r, o).Ok?
    ensures var (src, dst) := RenamePaths(s, r, o).value;
            Inside(s.root, src) && Inside(s.root, dst) && Near(s.table, dst)
  {
    ResolvedNear(s, r.srcParent, r.srcName);
    ResolvedNear(s, r.dstParent, r.dstName);
  }

  /** Every request makes one of the listed changes to table and tree. */
  lemma ServeChange(s: State, r: Request, o: Oracle) returns (c: Change)
    requires TableInv(s) && Servable(s, r, o)
    ensures Changed(s, c, Serve(s, r, o).0)
    ensures c.Renamed? ==> r.Rename? && RenamePaths(s, r, o) == Ok((c.src, c.dst))
    ensures c.Unlinked? ==> r.Unlink?
  {
    hide DoLookup; hide DoGetattr; hide DoReadDir; hide DoOpen; hide DoRead; hide DoRelease; hide TableInv; hide Changed;
    hide ListingOk; hide RenamePaths;
    c := Quiet;
    QuietRequests(s, r, o);
    if Mutates(r) {
      if !ReadOnly(s.mode) {
        c := MutationChange(s, r, o);
      }
    } else {
      match r {
        case Lookup(parent, name) => c := LookupChange(s, parent, name, o);
        case ReadDir(ino, offset, maxEntries) => c := ReadDirChange(s, ino, offset, maxEntries, o);
        case Open(ino, flags) => OpenChange(s, ino, flags, o);
        case _ =>
      }
    }
  }

  lemma MutationChange(s: State, r: Request, o: Oracle) returns (c: Change)
    requires TableInv(s) && Servable(s, r, o) && Mutates(r) && !ReadOnly(s.mode)
    ensures Changed(s, c, Serve(s, r, o).0)
    ensures c.Renamed? ==> r.Rename? && RenamePaths(s, r, o) == Ok((c.src, c.dst))
    ensures c.Unlinked? ==> r.Unlink?
  {
    hide DoWrite; hide DoCreate; hide DoMkdir; hide DoUnlink; hide DoRename; hide DoTruncate; hide TableInv; hide Changed;
    hide RenamePaths;
    c := Quiet;
    QuietRequests(s, r, o);
    match r {
      case Create(parent, name, flags) => c := CreateChange(s, parent, name, flags, o);
      case Mkdir(parent, name) => c := MkdirChange(s, parent, name, o);
      case Unlink(parent, name) => c := UnlinkChange(s, parent, name, o);
      case Rename(_, _, _, _) => c := RenameChange(s, r, o);
      case _ =>
    }
  }

  /** Requests that touch neither table nor tree, and requests a read-only mount refuses. */
  lemma QuietRequests(s: State, r: Request, o: Oracle)
    ensures Changed(s, Quiet, s)
    ensures r.Getattr? ==> Changed(s, Quiet, DoGetattr(s, r.ino, o).0)
    ensures r.Read? ==> Changed(s, Quiet, DoRead(s, r.fh, r.offset, r.size, o).0)
    ensures r.Release? ==> Changed(s, Quiet, DoRelease(s, r.fh).0)
    ensures r.Write? ==> Changed(s, Quiet, DoWrite(s, r.fh, r.offset, r.data, o).0)
    ensures r.Truncate? ==> Changed(s, Quiet, DoTruncate(s, r.ino, r.size, o).0)
  {
  }

  lemma RemapSame(t: Table, p: Path)
    requires Consistent(t)
    ensures Remap(t, p, p) == t
  {
    assert forall q :: p <= q ==> Rebase(q, p, p) == q;
    assert MoveSubtree(t.pathToIno, p, p) == t.pathToIno;
  }

  /** Every change keeps the index exact and rooted, and the host tree a tree. */
  lemma ChangeKeepsTable(s: State, c: Change, s': State)
    requires TableInv(s) && Changed(s, c, s')
    ensures TableInv(s')
  {
    assert c.Listed? ==> Inside(s.root, c.dir);
    hide MoveSubtree; hide Consistent; hide Rooted; hide TreeOk; hide Remap; hide RemoveAll; hide ReaddirTable; hide OsRename; hide Near;
    match c {
      case Quiet =>
      case Seen(p) => EnsureKeeps(s.table, s.root, p);
      case Made(p, kind, _) =>
        NodeAdded(s.fs, s.root, p, kind);
        EnsureKeeps(s.table, s.root, p);
      case Listed(dir, names) => ReaddirTableKeeps(s.table, s.root, dir, names);
      case Unlinked(p) =>
        LeafRemoved(s.fs, s.root, p);
        RemoveAllKeeps(s.table, s.root, {p});
      case Renamed(src, dst) => RenamedKeepsTable(s, src, dst, s');
    }
  }

  lemma RenamedKeepsTable(s: State, src: Path, dst: Path, s': State)
    requires TableInv(s) && Changed(s, Renamed(src, dst), s')
    ensures TableInv(s')
  {
    hide MoveSubtree; hide Remap; hide Consistent; hide Rooted; hide TreeOk;
    if src == dst {
      RemapSame(s.table, src);
    } else {
      RenameKeepsTree(s.fs, s.root, src, dst);
      RemapConsistent(s.table, src, dst);
      RemapRooted(s.table, s.root, src, dst);
    }
  }

  // ----- Descriptor invariant -----

  /**
   Every descriptor the host handed out is in the handle table under exactly one id, or has
   been closed exactly once, never both.
   */
  ghost predicate Balanced(handles: Handles, nextFH: nat, files: nat, closed: multiset<nat>) {
    && ValidId(nextFH)
    && (forall fh :: fh in handles ==> ValidId(fh) && handles[fh].file < files && handles[fh].lastUsed != 0)
    && DistinctFiles(handles)
    && (forall f: nat :: closed[f] == if f < files && f !in FileSet(handles) then 1 else 0)
  }

  ghost predicate FilesInv(s: State) {
    Balanced(s.handles, s.nextFH, |s.fs.files|, s.fs.closed)
  }

  lemma AddHandleFiles(s: State, fs: Fs, file: nat, append: bool, ino: nat, now: int)
    requires FilesInv(s) && CanAllocate(s) && now != 0
    requires fs.closed == s.fs.closed && file == |s.fs.files| && |fs.files| == file + 1
    ensures FilesInv(AddHandle(s, fs, file, append, ino, now).0)
  {
    var (s', fh) := AddHandle(s, fs, file, append, ino, now);
    assert s'.handles == s.handles[fh := s'.handles[fh]] && fh !in s.handles;
    forall f: nat
      ensures f in FileSet(s'.handles) <==> f in FileSet(s.handles) || f == file
    {
      if f in FileSet(s.handles) {
        var a :| a in s.handles && s.handles[a].file == f;
        assert a in s'.handles && s'.handles[a].file == f;
      }
      if f == file {
        assert s'.handles[fh].file == f;
      }
    }
    assert file !in FileSet(s.handles);
  }

  lemma TouchFiles(s: State, fh: nat, now: int)
    requires FilesInv(s) && now != 0
    ensures FilesInv(Touch(s, fh, now))
  {
  }

  /** Dropping a set of handles and closing their files keeps the account balanced. */
  lemma DropFiles(s: State, kept: Handles)
    requires FilesInv(s)
    requires forall fh :: fh in kept ==> fh in s.handles && kept[fh] == s.handles[fh]
    ensures FilesInv(s.(handles := kept, fs := OsCloseAll(s.fs, FileSet(s.handles - kept.Keys))))
  {
    var dropped := s.handles - kept.Keys;
    forall f: nat
      ensures f in FileSet(s.handles) <==> f in FileSet(kept) || f in FileSet(dropped)
      ensures f in FileSet(kept) ==> f !in FileSet(dropped)
    {
      if f in FileSet(s.handles) {
        var a :| a in s.handles && s.handles[a].file == f;
        assert (a in kept && kept[a].file == f) || (a in dropped && dropped[a].file == f);
      }
      if f in FileSet(kept) {
        var a :| a in kept && kept[a].file == f;
        assert forall b :: b in dropped ==> s.handles[b].file != s.handles[a].file;
      }
    }
  }

  /** A file opened and closed at once is accounted for. */
  lemma OpenedAndClosed(handles: Handles, nextFH: nat, files: nat, closed: multiset<nat>)
    requires Balanced(handles, nextFH, files, closed)
    ensures Balanced(handles, nextFH, files + 1, closed + multiset{files})
  {
  }

  lemma OpenKeepsFiles(s: State, ino: nat, flags: bv64, o: Oracle)
    requires FilesInv(s) && CanAllocate(s) && o.now != 0
    ensures FilesInv(DoOpen(s, ino, flags, o).0)
  {
    if ino in s.table.inoToPath {
      var openRes := OsOpen(s.fs, s.table.inoToPath[ino], OsOpenFlagsFromLinux(flags), o.fails);
      if openRes.Ok? {
        AddHandleFiles(s, openRes.value.0, openRes.value.1, flags & 0x400 != 0, ino, o.now);
      }
    }
  }

  lemma CreateKeepsFiles(s: State, parent: nat, name: string, flags: bv64, o: Oracle)
    requires FilesInv(s) && CanAllocate(s) && o.now != 0
    ensures FilesInv(DoCreate(s, parent, name, flags, o).0)
  {
    hide Balanced; hide HasWriteIntent; hide MissingErrno; hide IsFirstFree;
    if parent in s.table.inoToPath {
      var target := ResolveChildPath(s.root, s.table.inoToPath[parent], name);
      if target.Ok? {
        var openRes := OsOpen(s.fs, target.value, OsOpenFlagsFromLinux(flags).(create := true), o.fails);
        if openRes.Ok? {
          OpenedAndClosed(s.handles, s.nextFH, |s.fs.files|, s.fs.closed);
          var t := Ensure(s.table, target.value);
          AddHandleFiles(s.(table := t), openRes.value.0, openRes.value.1, flags & 0x400 != 0,
                         t.pathToIno[target.value], o.now);
        }
      }
    }
  }

  lemma ReleaseKeepsFiles(s: State, fh: nat)
    requires FilesInv(s)
    ensures FilesInv(DoRelease(s, fh).0)
  {
  }

  /** The other requests leave handles and descriptors alone. */
  lemma OthersKeepFiles(s: State, r: Request, o: Oracle)
    requires Servable(s, r, o)
    requires !(r.Open? || r.Create? || r.Read? || r.Write? || r.Release?)
    ensures var s' := Serve(s, r, o).0;
            s'.handles == s.handles && s'.nextFH == s.nextFH && s'.fs.files == s.fs.files && s'.fs.closed == s.fs.closed
  {
    hide Consistent; hide Rooted; hide Ensure; hide Remap; hide Remove; hide ReaddirTable; hide Lstat; hide IsDir;
    hide PageOf; hide Entries; hide ListingOk; hide DirectoryCheck; hide ResolveChildPath; hide RenamePaths; hide MissingErrno;
  }

  lemma WriteKeepsFiles(s: State, fh: nat, offset: U64, data: seq<Byte>, o: Oracle)
    requires FilesInv(s) && o.now != 0
    ensures FilesInv(DoWrite(s, fh, offset, data, o).0)
  {
    TouchFiles(s, fh, o.now);
  }

  /** Every request keeps the descriptor account: opened files are held or closed exactly once. */
  lemma ServeKeepsFiles(s: State, r: Request, o: Oracle)
    requires FilesInv(s) && Servable(s, r, o) && o.now != 0
    ensures FilesInv(Serve(s, r, o).0)
  {
    hide Balanced; hide DoOpen; hide DoCreate; hide DoRelease; hide DoWrite; hide DoLookup; hide DoReadDir; hide Touch; hide DoMkdir; hide DoUnlink; hide DoRename;
    match r {
      case Open(ino, flags) => OpenKeepsFiles(s, ino, flags, o);
      case Read(fh, _, _) => TouchFiles(s, fh, o.now);
      case Write(fh, offset, data) => WriteKeepsFiles(s, fh, offset, data, o);
      case Release(fh) => ReleaseKeepsFiles(s, fh);
      case Create(parent, name, flags) => CreateKeepsFiles(s, parent, name, flags, o);
      case _ => OthersKeepFiles(s, r, o);
    }
  }

  // ----- Collection -----

  /** Pinned are the root's inode and those of the open handles. */
  lemma PinnedIs(handles: Handles, ino: nat)
    ensures ino in Pinned(handles) <==> ino == 1 || (ino != 0 && exists fh :: fh in handles && handles[fh].ino == ino)
  {
  }

  lemma GcKeeps(s: State, o: Oracle, mid: State)
    requires TableInv(s) && FilesInv(s) && MaybeGc(s, o, mid)
    ensures TableInv(mid) && FilesInv(mid)
    ensures mid.root == s.root && mid.mode == s.mode && mid.fs == s.fs.(closed := mid.fs.closed)
    ensures forall fh :: fh in mid.handles ==> fh in s.handles && mid.handles[fh] == s.handles[fh]
    ensures forall i :: i in s.table.inoToPath && (i in Pinned(mid.handles) || s.table.inoToPath[i] !in o.gone)
                        ==> i in mid.table.inoToPath
    ensures forall i :: i in mid.table.inoToPath ==> i in s.table.inoToPath && mid.table.inoToPath[i] == s.table.inoToPath[i]
    ensures mid.table.nextIno == s.table.nextIno
    ensures forall fh :: fh in mid.handles && mid.handles[fh].ino in s.table.inoToPath ==> mid.handles[fh].ino in mid.table.inoToPath
  {
    hide Pinned;
    forall fh | fh in mid.handles && mid.handles[fh].ino in s.table.inoToPath
      ensures mid.handles[fh].ino in Pinned(mid.handles)
    {
      PinnedIs(mid.handles, mid.handles[fh].ino);
    }
    PinnedIs(mid.handles, ROOT_INO);
    if mid != s {
      HandleGcOutcome(s.handles, s.cfg.idleTtl, s.cfg.maxHandles, o.now, mid.handles);
      InodeGcKeeps(s.table, s.root, Pinned(mid.handles), o.gone, s.cfg.maxInodes, mid.table);
      DropFiles(s, mid.handles);
    }
  }

  // ----- Theorem: table and descriptors over every run -----

  ghost predicate Inv(s: State) {
    TableInv(s) && FilesInv(s)
  }

  lemma NextKeepsInv(s: State, e: Event, s': State)
    requires Inv(s) && Next(s, e, s')
    ensures Inv(s')
  {
    match e {
      case Call(r, o) =>
        var mid :| MaybeGc(s, o, mid) && Servable(mid, r, o) && s' == Serve(mid, r, o).0;
        GcKeeps(s, o, mid);
        var c := ServeChange(mid, r, o);
        ChangeKeepsTable(mid, c, s');
        ServeKeepsFiles(mid, r, o);
      case External(fs) =>
      case Close =>
        var none: Handles := map[];
        DropFiles(s, none);
        assert s.handles - none.Keys == s.handles;
    }
  }

  lemma FreshInv(root: Path, mode: Mode, cfg: Config, now: int, fs: Fs)
    requires CleanPath(root) && WellFormed(fs, root) && fs.files == [] && fs.closed == multiset{}
    ensures Inv(FreshState(root, mode, cfg, now, fs))
  {
  }

  /**
   In every reachable state of every run, even with other processes changing the host tree:
   the two maps are exact inverses below nextIno, every stored path is the root or a
   descendant of it, inode 1 is the root, and every host file ever opened is in the handle
   table under exactly one id or has been closed exactly once.
   */
  lemma {:induction false} InvOverRuns(ss: seq<State>, es: seq<Event>, k: nat)
    requires IsRun(ss, es) && Inv(ss[0]) && k < |ss|
    ensures Inv(ss[k])
  {
    if k > 0 {
      InvOverRuns(ss, es, k - 1);
      NextKeepsInv(ss[k - 1], es[k - 1], ss[k]);
    }
  }

  /** Shutting down closes what is open, so nothing is left open and nothing is closed twice. */
  lemma AllClosedOnce(s: State)
    requires FilesInv(s)
    ensures FilesInv(Shutdown(s))
    ensures forall f: nat :: f < |s.fs.files| ==> Shutdown(s).fs.closed[f] == 1
  {
    var none: Handles := map[];
    DropFiles(s, none);
    assert s.handles - none.Keys == s.handles;
  }

  /** Once the server has shut down, every descriptor it ever opened has been closed exactly once. */
  lemma NothingLiveAfterClose(ss: seq<State>, es: seq<Event>, k: nat, f: nat)
    requires IsRun(ss, es) && Inv(ss[0]) && k < |es| && es[k] == Close
    requires f < |ss[k + 1].fs.files|
    ensures ss[k + 1].handles == map[] && ss[k + 1].fs.closed[f] == 1
  {
    InvOverRuns(ss, es, k + 1);
  }

  // ----- Theorem: inodes of open files stay -----

  /** After a request a handle is one that was there before, on the same file and inode, or it is on a file just opened. */
  lemma ServeHandles(s: State, r: Request, o: Oracle, fh: nat)
    requires Servable(s, r, o) && fh in Serve(s, r, o).0.handles
    ensures var h := Serve(s, r, o).0.handles[fh];
            h.file == |s.fs.files| || (fh in s.handles && s.handles[fh].file == h.file && s.handles[fh].ino == h.ino)
  {
    hide Consistent; hide Rooted; hide ListingOk; hide CanAllocate; hide DoOpen; hide DoCreate; hide DoWrite; hide DoRead;
    hide DoLookup; hide DoReadDir; hide DoMkdir; hide DoUnlink; hide DoRename; hide DoTruncate; hide DoGetattr;
    match r {
      case Open(ino, flags) => OpenHandles(s, ino, flags, o);
      case Create(parent, name, flags) => CreateHandles(s, parent, name, flags, o);
      case Read(_, _, _) => TouchHandles(s, r, o);
      case Write(_, _, _) => TouchHandles(s, r, o);
      case Release(_) =>
      case _ => OthersKeepFiles(s, r, o);
    }
  }

  lemma OpenHandles(s: State, ino: nat, flags: bv64, o: Oracle)
    requires CanAllocate(s)
    ensures var s' := DoOpen(s, ino, flags, o).0;
            forall fh :: fh in s'.handles ==> s'.handles[fh].file == |s.fs.files| || (fh in s.handles && s'.handles[fh] == s.handles[fh])
  {
    hide DoOpen; hide OsOpenFlagsFromLinux; hide HasWriteIntent; hide FirstFree;
    OpenEffect(s, ino, flags, o);
  }

  lemma CreateHandles(s: State, parent: nat, name: string, flags: bv64, o: Oracle)
    requires CanAllocate(s)
    ensures var s' := DoCreate(s, parent, name, flags, o).0;
            forall fh :: fh in s'.handles ==> s'.handles[fh].file == |s.fs.files| || (fh in s.handles && s'.handles[fh] == s.handles[fh])
  {
    hide OsOpenFlagsFromLinux; hide FirstFree; hide MissingErrno; hide ResolveChildPath; hide DirectoryCheck;
  }

  lemma TouchHandles(s: State, r: Request, o: Oracle)
    requires r.Read? || r.Write?
    ensures var s' := if r.Read? then DoRead(s, r.fh, r.offset, r.size, o).0 else DoWrite(s, r.fh, r.offset, r.data, o).0;
            forall fh :: fh in s'.handles ==>
              fh in s.handles && s'.handles[fh].file == s.handles[fh].file && s'.handles[fh].ino == s.handles[fh].ino
  {
    hide Slice; hide OsAppend; hide OsWriteAt; hide BytesOf;
  }

  /** A change other than an unlink or a rename keeps every inode at its path. */
  lemma ChangeKeepsInodes(s: State, c: Change, s': State)
    requires TableInv(s) && Changed(s, c, s') && !c.Unlinked? && !c.Renamed?
    ensures forall i :: i in s.table.inoToPath ==> i in s'.table.inoToPath && s'.table.inoToPath[i] == s.table.inoToPath[i]
  {
    hide TreeOk; hide Near;
    if c.Listed? {
      ListedKeepsInodes(s.table, s.root, c.dir, c.names);
    }
    hide ReaddirTable;
  }

  lemma ListedKeepsInodes(t: Table, root: Path, dir: Path, names: seq<string>)
    requires Consistent(t) && Rooted(t, root) && dir in t.pathToIno
    requires forall i :: 0 <= i < |names| ==> ValidName(names[i])
    ensures var t' := ReaddirTable(t, root, dir, names);
            forall i :: i in t.inoToPath ==> i in t'.inoToPath && t'.inoToPath[i] == t.inoToPath[i]
  {
    ReaddirTableKeeps(t, root, dir, names);
    var t' := ReaddirTable(t, root, dir, names);
    hide ReaddirTable;
    forall i | i in t.inoToPath
      ensures i in t'.inoToPath && t'.inoToPath[i] == t.inoToPath[i]
    {
      var p := t.inoToPath[i];
      assert p in t'.pathToIno && t'.pathToIno[p] == i;
    }
  }

  /** The handle is open in s on a file whose inode the table knows. */
  ghost predicate OpenOn(s: State, fh: nat, file: nat, ino: nat) {
    fh in s.handles && s.handles[fh].file == file && s.handles[fh].ino == ino
  }

  /** The event is an unlink or a rename. */
  predicate Removes(e: Event) {
    e.Call? && (e.req.Unlink? || e.req.Rename?)
  }

  lemma NextKeepsOpen(s: State, e: Event, s': State, fh: nat, file: nat, ino: nat)
    requires Inv(s) && Next(s, e, s') && !Removes(e)
    requires OpenOn(s, fh, file, ino) && OpenOn(s', fh, file, ino) && ino in s.table.inoToPath
    ensures ino in s'.table.inoToPath && s'.table.inoToPath[ino] == s.table.inoToPath[ino]
  {
    hide MaybeGc; hide Servable; hide Serve; hide TableInv; hide WellFormed; hide Shutdown;
    if e.Call? {
      var mid :| MaybeGc(s, e.oracle, mid) && Servable(mid, e.req, e.oracle) && s' == Serve(mid, e.req, e.oracle).0;
      GcKeeps(s, e.oracle, mid);
      ServeHandles(mid, e.req, e.oracle, fh);
      assert mid.handles[fh].ino == ino;
      var c := ServeChange(mid, e.req, e.oracle);
      ChangeKeepsInodes(mid, c, s');
    } else if e.Close? {
      assert Shutdown(s).handles == map[] by {
        ShutdownEmpties(s);
      }
    }
  }

  lemma ShutdownEmpties(s: State)
    ensures Shutdown(s).handles == map[]
  {
  }

  /**
   In every run, even while other processes remove files: as long as a file stays open under its
   handle and no unlink or rename is served, its inode stays in the table at its path, through
   every collection.
   */
  lemma {:induction false} OpenInodeStays(ss: seq<State>, es: seq<Event>, j: nat, k: nat, fh: nat, file: nat, ino: nat)
    requires IsRun(ss, es) && Inv(ss[0]) && j <= k < |ss| && ino in ss[j].table.inoToPath
    requires forall m :: j <= m <= k ==> OpenOn(ss[m], fh, file, ino)
    requires forall m :: j <= m < k ==> !Removes(es[m])
    ensures ino in ss[k].table.inoToPath && ss[k].table.inoToPath[ino] == ss[j].table.inoToPath[ino]
    decreases k
  {
    hide Inv; hide Next; hide OpenOn;
    if j < k {
      OpenInodeStays(ss, es, j, k - 1, fh, file, ino);
      InvOverRuns(ss, es, k - 1);
      NextKeepsOpen(ss[k - 1], es[k - 1], ss[k], fh, file, ino);
    }
  }

  // ----- Theorem: a read-only mount changes nothing -----

  /** No handle in the table can write. */
  ghost predicate NoWriters(s: State) {
    forall fh :: fh in s.handles ==> s.handles[fh].file < |s.fs.files| && !s.fs.files[s.handles[fh].file].writable
  }

  /** From s to s' the host tree and all contents are untouched and no writable descriptor was opened. */
  ghost predicate Untouched(s: State, s': State) {
    && s'.mode == s.mode
    && s'.fs.tree == s.fs.tree && s'.fs.contents == s.fs.contents && s'.fs.nextObj == s.fs.nextObj
    && s.fs.files <= s'.fs.files
    && (forall f :: |s.fs.files| <= f < |s'.fs.files| ==> !s'.fs.files[f].writable)
  }

  lemma ReadOnlyOpen(s: State, ino: nat, flags: bv64, o: Oracle)
    requires ReadOnly(s.mode) && NoWriters(s) && CanAllocate(s)
    ensures var s' := DoOpen(s, ino, flags, o).0; NoWriters(s') && Untouched(s, s')
  {
    hide DoOpen; hide OsOpenFlagsFromLinux; hide HasWriteIntent; hide FirstFree;
    OpenEffect(s, ino, flags, o);
    WriteIntentIsExact(flags);
  }

  /** A request that leaves tree, contents and descriptors alone and only renews or drops handles. */
  lemma QuietHandles(s: State, s': State)
    requires NoWriters(s) && s'.mode == s.mode
    requires s'.fs.tree == s.fs.tree && s'.fs.contents == s.fs.contents && s'.fs.nextObj == s.fs.nextObj && s'.fs.files == s.fs.files
    requires forall fh :: fh in s'.handles ==> fh in s.handles && s'.handles[fh].file == s.handles[fh].file
    ensures NoWriters(s') && Untouched(s, s')
  {
  }

  lemma ReadOnlyReads(s: State, r: Request, o: Oracle)
    requires NoWriters(s)
    ensures r.Read? ==> var s' := DoRead(s, r.fh, r.offset, r.size, o).0; NoWriters(s') && Untouched(s, s')
    ensures r.Release? ==> var s' := DoRelease(s, r.fh).0; NoWriters(s') && Untouched(s, s')
    ensures r.Lookup? ==> var s' := DoLookup(s, r.parent, r.name, o).0; NoWriters(s') && Untouched(s, s')
    ensures r.Getattr? ==> DoGetattr(s, r.ino, o).0 == s
    ensures NoWriters(s) && Untouched(s, s)
  {
    hide NoWriters; hide Untouched; hide Slice; hide ResolveChildPath; hide Ensure; hide MissingErrno; hide BytesOf;
    QuietHandles(s, s);
    match r {
      case Read(fh, offset, size) => QuietHandles(s, DoRead(s, fh, offset, size, o).0);
      case Release(fh) => QuietHandles(s, DoRelease(s, fh).0);
      case Lookup(parent, name) => QuietHandles(s, DoLookup(s, parent, name, o).0);
      case _ =>
    }
  }

  lemma ReadOnlyReadDir(s: State, ino: nat, offset: U64, maxEntries: U64, o: Oracle)
    requires NoWriters(s) && Consistent(s.table) && Rooted(s.table, s.root)
    requires ino in s.table.inoToPath ==> ListingOk(s.fs, s.table.inoToPath[ino], o.listing)
    ensures var s' := DoReadDir(s, ino, offset, maxEntries, o).0; NoWriters(s') && Untouched(s, s')
  {
    hide NoWriters; hide Untouched; hide Consistent; hide Rooted; hide ListingOk; hide ReaddirTable; hide Entries; hide PageOf;
    hide DirectoryCheck;
    QuietHandles(s, DoReadDir(s, ino, offset, maxEntries, o).0);
  }

  lemma ReadOnlyServe(s: State, r: Request, o: Oracle)
    requires ReadOnly(s.mode) && NoWriters(s) && Servable(s, r, o)
    ensures var s' := Serve(s, r, o).0; NoWriters(s') && Untouched(s, s')
  {
    hide NoWriters; hide Untouched; hide Consistent; hide Rooted; hide ListingOk; hide CanAllocate;
    hide DoLookup; hide DoGetattr; hide DoReadDir; hide DoOpen; hide DoRead; hide DoRelease;
    hide DoCreate; hide DoMkdir; hide DoUnlink; hide DoRename; hide DoTruncate; hide DoWrite;
    ReadOnlyReads(s, r, o);
    match r {
      case Open(ino, flags) => ReadOnlyOpen(s, ino, flags, o);
      case ReadDir(ino, offset, maxEntries) => ReadOnlyReadDir(s, ino, offset, maxEntries, o);
      case _ =>
    }
  }

  lemma ReadOnlyNext(s: State, e: Event, s': State)
    requires ReadOnly(s.mode) && NoWriters(s) && FilesInv(s) && TableInv(s) && Next(s, e, s') && !e.External?
    ensures NoWriters(s') && Untouched(s, s')
  {
    hide Serve; hide MaybeGc; hide Servable; hide TableInv; hide Balanced; hide WellFormed;
    if e.Call? {
      var mid :| MaybeGc(s, e.oracle, mid) && Servable(mid, e.req, e.oracle) && s' == Serve(mid, e.req, e.oracle).0;
      GcKeeps(s, e.oracle, mid);
      assert NoWriters(mid);
      ReadOnlyServe(mid, e.req, e.oracle);
    }
  }

  /**
   On a read-only or unspecified-mode mount, every sequence of requests, with every flag word,
   leaves the host tree and all file contents as they were; no descriptor opened for writing
   is ever created or entered in the handle table.
   */
  lemma {:induction false} ReadOnlyRuns(ss: seq<State>, es: seq<Event>, k: nat)
    requires IsRun(ss, es) && Inv(ss[0]) && ReadOnly(ss[0].mode) && NoWriters(ss[0])
    requires forall i :: 0 <= i < |es| ==> !es[i].External?
    requires k < |ss|
    ensures NoWriters(ss[k]) && Untouched(ss[0], ss[k])
  {
    hide Inv; hide Next; hide NoWriters; hide ReadOnly;
    if k == 0 {
      QuietHandles(ss[0], ss[0]);
    } else {
      ReadOnlyRuns(ss, es, k - 1);
      InvOverRuns(ss, es, k - 1);
      ReadOnlyStep(ss[k - 1], es[k - 1], ss[k]);
    }
  }

  lemma ReadOnlyStep(s: State, e: Event, s': State)
    requires ReadOnly(s.mode) && NoWriters(s) && Inv(s) && Next(s, e, s') && !e.External?
    ensures NoWriters(s') && Untouched(s, s')
  {
    hide Next; hide TableInv; hide FilesInv; hide NoWriters; hide Untouched;
    ReadOnlyNext(s, e, s');
  }
}
