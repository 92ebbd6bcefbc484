/**
 The FS-RPC server of one mount, request by request, as functions on a state value. The
 class `FsrpcMount` serves the same requests in place and is proved to compute these
 functions; `MountRuns` proves what holds over every run.
 */
module MountSpec {
  import opened Common
  import opened Paths
  import opened InodeTable
  import opened HandleTable
  import opened HostFs
  import opened Readdir

  datatype Mode = UnspecifiedMode | ReadOnlyMode | ReadWriteMode

  /** The collector's tunables. */
  datatype Config = Config(maxHandles: int, idleTtl: int, maxInodes: int, gcInterval: int)

  datatype State = State(root: Path, mode: Mode, cfg: Config, table: Table,
                         handles: Handles, nextFH: nat, lastGC: int, fs: Fs)

  datatype Request =
    | Lookup(parent: nat, name: string)
    | Getattr(ino: nat)
    | ReadDir(ino: nat, offset: U64, maxEntries: U64)
    | Open(ino: nat, flags: bv64)
    | Read(fh: nat, offset: U64, size: U64)
    | Release(fh: nat)
    | Ping
    | Write(fh: nat, offset: U64, data: seq<Byte>)
    | Create(parent: nat, name: string, flags: bv64)
    | Mkdir(parent: nat, name: string)
    | Unlink(parent: nat, name: string)
    | Rename(srcParent: nat, srcName: string, dstParent: nat, dstName: string)
    | Truncate(ino: nat, size: U64)
    | UnknownOp

  /**
   What the host contributes while one request is served: the clock, the paths it refuses to
   stat, the paths it reports as gone, whether the main system call or the stat after it
   fails, the directory listing, and how many bytes a failing write has stored.
   */
  datatype Oracle = Oracle(now: int, denied: set<Path>, gone: set<Path>, fails: Option<int>,
                           statFails: Option<int>, listing: seq<string>, stored: nat)

  datatype Reply =
    | Fail(errno: int)
    | Entry(ino: nat, node: Node)
    | Attr(ino: nat, node: Node)
    | Listing(entries: seq<PagedEntry>)
    | Panic
    | Opened(fh: nat)
    | Created(ino: nat, fh: nat)
    | Data(data: seq<Byte>)
    | Wrote(size: nat)
    | Done
    | Pong(modeLabel: string)

  predicate ReadOnly(mode: Mode) {
    mode == UnspecifiedMode || mode == ReadOnlyMode
  }

  function PathErrno(e: PathError): int {
    match e
    case EmptyName => EINVAL
    case SeparatorInName => EINVAL
    case EscapesRoot => EACCES
  }

  /** The checks every request on a parent directory makes on it. */
  function DirectoryCheck(fs: Fs, dir: Path, denied: set<Path>): Option<int> {
    match Lstat(fs, dir, denied)
    case Err(e) => Some(e)
    case Ok(node) =>
      if node.kind != Dir then Some(ENOTDIR) else None
  }

  function DoLookup(s: State, parent: nat, name: string, o: Oracle): (State, Reply) {
    if parent !in s.table.inoToPath then (s, Fail(ENOTDIR))
    else match ResolveChildPath(s.root, s.table.inoToPath[parent], name)
      case Err(e) => (s, Fail(PathErrno(e)))
      case Ok(target) =>
        match Lstat(s.fs, target, o.denied)
        case Err(e) => (s, Fail(e))
        case Ok(node) =>
          if node.kind == Symlink then (s, Fail(ELOOP))
          else
            var t := Ensure(s.table, target);
            (s.(table := t), Entry(t.pathToIno[target], node))
  }

  function DoGetattr(s: State, ino: nat, o: Oracle): (State, Reply) {
    if ino !in s.table.inoToPath then (s, Fail(EINVAL))
    else match Lstat(s.fs, s.table.inoToPath[ino], o.denied)
      case Err(e) => (s, Fail(e))
      case Ok(node) => if node.kind == Symlink then (s, Fail(ELOOP)) else (s, Attr(ino, node))
  }

  /** The host lists every child of the directory, each once, under a proper name. */
  ghost predicate ListingOk(fs: Fs, dir: Path, names: seq<string>) {
    && (forall i :: 0 <= i < |names| ==> ValidName(names[i]) && dir + [names[i]] in fs.tree)
    && (forall i, j :: 0 <= i < j < |names| ==> names[i] != names[j])
    && (forall p :: p in fs.tree && p != [] && Parent(p) == dir ==> p[|p| - 1] in names)
    && |names| < TWO_63 / 2
  }

  ghost function DoReadDir(s: State, ino: nat, offset: U64, maxEntries: U64, o: Oracle): (State, Reply)
    requires Consistent(s.table) && Rooted(s.table, s.root)
    requires ino in s.table.inoToPath ==> ListingOk(s.fs, s.table.inoToPath[ino], o.listing)
  {
    if ino !in s.table.inoToPath then (s, Fail(EINVAL))
    else
      var dir := s.table.inoToPath[ino];
      match DirectoryCheck(s.fs, dir, o.denied)
      case Some(e) => (s, Fail(e))
      case None =>
        if o.fails.Some? then (s, Fail(o.fails.value))
        else
          var t := ReaddirTable(s.table, s.root, dir, o.listing);
          ReaddirTableKeeps(s.table, s.root, dir, o.listing);
          var page := PageOf(Entries(t, s.root, ino, dir, o.listing, s.fs.tree), offset, maxEntries);
          (s.(table := t), if page.None? then Panic else Listing(page.value))
  }

  ghost predicate CanAllocate(s: State) {
    ValidId(s.nextFH) && |s.handles| < LAST_ID
  }

  /** Enters a freshly opened file in the handle table. */
  ghost function AddHandle(s: State, fs: Fs, file: nat, append: bool, ino: nat, now: int): (r: (State, nat))
    requires CanAllocate(s)
  {
    var fh := FirstFree(s.handles, s.nextFH);
    (s.(fs := fs, handles := s.handles[fh := Handle(file, append, ino, now)], nextFH := Bump(fh)), fh)
  }

  ghost function DoOpen(s: State, ino: nat, flags: bv64, o: Oracle): (State, Reply)
    requires CanAllocate(s)
  {
    if ReadOnly(s.mode) && HasWriteIntent(flags) then (s, Fail(EROFS))
    else if ino !in s.table.inoToPath then (s, Fail(EINVAL))
    else
      var path := s.table.inoToPath[ino];
      match Lstat(s.fs, path, o.denied)
      case Err(e) => (s, Fail(e))
      case Ok(node) =>
        if node.kind == Dir then (s, Fail(EISDIR))
        else if node.kind == Symlink then (s, Fail(ELOOP))
        else match OsOpen(s.fs, path, OsOpenFlagsFromLinux(flags), o.fails)
          case Err(e) => (s, Fail(e))
          case Ok((fs, file)) =>
            var (s', fh) := AddHandle(s, fs, file, flags & 0x400 != 0, ino, o.now);
            (s', Opened(fh))
  }

  /** Using a handle refreshes its time stamp. */
  function Touch(s: State, fh: nat, now: int): State {
    if fh in s.handles then s.(handles := s.handles[fh := s.handles[fh].(lastUsed := now)]) else s
  }

  const MAX_READ: nat := 0x4_0000

  /** The bytes of a file from offset, at most size of them. */
  function Slice(data: seq<Byte>, offset: nat, size: nat): seq<Byte> {
    if offset >= |data| then []
    else if offset + size <= |data| then data[offset..offset + size]
    else data[offset..]
  }

  function DoRead(s: State, fh: nat, offset: U64, size: U64, o: Oracle): (State, Reply) {
    if fh !in s.handles then (s, Fail(EBADF))
    else
      var s' := Touch(s, fh, o.now);
      var file := s.handles[fh].file;
      if offset >= TWO_63 then (s', Fail(EIO))
      else if size == 0 then (s', Data([]))
      else if file >= |s.fs.files| || !s.fs.files[file].readable then (s', Fail(EBADF))
      else if o.fails.Some? then (s', Fail(o.fails.value))
      else (s', Data(Slice(BytesOf(s.fs, s.fs.files[file].obj), offset, if size > MAX_READ then MAX_READ else size)))
  }

  function DoRelease(s: State, fh: nat): (State, Reply) {
    if fh !in s.handles then (s, Fail(EBADF))
    else (s.(handles := s.handles - {fh}, fs := OsClose(s.fs, s.handles[fh].file)), Done)
  }

  function DoWrite(s: State, fh: nat, offset: U64, data: seq<Byte>, o: Oracle): (State, Reply) {
    if fh !in s.handles then (s, Fail(EBADF))
    else
      var s' := Touch(s, fh, o.now);
      var h := s.handles[fh];
      if h.file >= |s.fs.files| then (s', Fail(EBADF))
      else if !h.append && offset >= TWO_63 then (s', Fail(EIO))
      else
        var (fs, e) := if h.append then OsAppend(s.fs, s.fs.files[h.file], data, o.fails, o.stored)
                       else OsWriteAt(s.fs, s.fs.files[h.file], offset, data, o.fails, o.stored);
        (s'.(fs := fs), if e.Some? then Fail(e.value) else Wrote(|data|))
  }

  ghost function DoCreate(s: State, parent: nat, name: string, flags: bv64, o: Oracle): (State, Reply)
    requires CanAllocate(s)
  {
    if parent !in s.table.inoToPath then (s, Fail(ENOTDIR))
    else
      var dir := s.table.inoToPath[parent];
      match DirectoryCheck(s.fs, dir, o.denied)
      case Some(e) => (s, Fail(e))
      case None =>
        match ResolveChildPath(s.root, dir, name)
        case Err(e) => (s, Fail(PathErrno(e)))
        case Ok(target) =>
          var existing := Lstat(s.fs, target, o.denied);
          if existing.Ok? && existing.value.kind == Symlink then (s, Fail(ELOOP))
          else if existing.Ok? && existing.value.kind == Dir then (s, Fail(EISDIR))
          else if existing.Err? && existing.error != ENOENT then (s, Fail(existing.error))
          else match OsOpen(s.fs, target, OsOpenFlagsFromLinux(flags).(create := true), o.fails)
            case Err(e) => (s, Fail(e))
            case Ok((fs, file)) =>
              if o.statFails.Some? then (s.(fs := OsClose(fs, file)), Fail(o.statFails.value))
              else
                var t := Ensure(s.table, target);
                var ino := t.pathToIno[target];
                var (s', fh) := AddHandle(s.(table := t), fs, file, flags & 0x400 != 0, ino, o.now);
                (s', Created(ino, fh))
  }

  function DoMkdir(s: State, parent: nat, name: string, o: Oracle): (State, Reply) {
    if parent !in s.table.inoToPath then (s, Fail(ENOTDIR))
    else
      var dir := s.table.inoToPath[parent];
      match DirectoryCheck(s.fs, dir, o.denied)
      case Some(e) => (s, Fail(e))
      case None =>
        match ResolveChildPath(s.root, dir, name)
        case Err(e) => (s, Fail(PathErrno(e)))
        case Ok(target) =>
          match OsMkdir(s.fs, target, o.fails)
          case Err(e) => (s, Fail(e))
          case Ok(fs) =>
            if o.statFails.Some? then (s.(fs := fs), Fail(o.statFails.value))
            else
              var t := Ensure(s.table, target);
              (s.(table := t, fs := fs), Entry(t.pathToIno[target], Node(s.fs.nextObj, Dir)))
  }

  function DoUnlink(s: State, parent: nat, name: string, o: Oracle): (State, Reply) {
    if parent !in s.table.inoToPath then (s, Fail(ENOTDIR))
    else
      var dir := s.table.inoToPath[parent];
      match DirectoryCheck(s.fs, dir, o.denied)
      case Some(e) => (s, Fail(e))
      case None =>
        match ResolveChildPath(s.root, dir, name)
        case Err(e) => (s, Fail(PathErrno(e)))
        case Ok(target) =>
          match Lstat(s.fs, target, o.denied)
          case Err(e) => (s, Fail(e))
          case Ok(node) =>
            if node.kind == Dir then (s, Fail(EISDIR))
            else if node.kind == Symlink then (s, Fail(ELOOP))
            else match OsUnlink(s.fs, target, o.fails)
              case Err(e) => (s, Fail(e))
              case Ok(fs) => (s.(fs := fs, table := Remove(s.table, target)), Done)
  }

  /** The two paths a rename request denotes, once both parents have passed their checks. */
  function RenamePaths(s: State, r: Request, o: Oracle): Result<(Path, Path), int>
    requires r.Rename?
  {
    if r.srcParent !in s.table.inoToPath || r.dstParent !in s.table.inoToPath then Err(ENOTDIR)
    else
      var srcDir, dstDir := s.table.inoToPath[r.srcParent], s.table.inoToPath[r.dstParent];
      match DirectoryCheck(s.fs, srcDir, o.denied)
      case Some(e) => Err(e)
      case None =>
        match DirectoryCheck(s.fs, dstDir, o.denied)
        case Some(e) => Err(e)
        case None =>
          match ResolveChildPath(s.root, srcDir, r.srcName)
          case Err(e) => Err(PathErrno(e))
          case Ok(src) =>
            match ResolveChildPath(s.root, dstDir, r.dstName)
            case Err(e) => Err(PathErrno(e))
            case Ok(dst) => Ok((src, dst))
  }

  function DoRename(s: State, r: Request, o: Oracle): (State, Reply)
    requires r.Rename?
  {
    match RenamePaths(s, r, o)
    case Err(e) => (s, Fail(e))
    case Ok((src, dst)) =>
      match Lstat(s.fs, src, o.denied)
      case Err(e) => (s, Fail(e))
      case Ok(node) =>
        if node.kind == Symlink then (s, Fail(ELOOP))
        else match OsRename(s.fs, src, dst, o.fails)
          case Err(e) => (s, Fail(e))
          case Ok(fs) => (s.(fs := fs, table := Remap(s.table, src, dst)), Done)
  }

  function DoTruncate(s: State, ino: nat, size: U64, o: Oracle): (State, Reply) {
    if ino !in s.table.inoToPath then (s, Fail(EINVAL))
    else match Lstat(s.fs, s.table.inoToPath[ino], o.denied)
      case Err(e) => (s, Fail(e))
      case Ok(node) =>
        if node.kind == Dir then (s, Fail(EISDIR))
        else if node.kind == Symlink then (s, Fail(ELOOP))
        else match OsTruncate(s.fs, node.id, size, o.fails)
          case Err(e) => (s, Fail(e))
          case Ok(fs) => (s.(fs := fs), Done)
  }

  /** Requests refused outright on a read-only mount. */
  predicate Mutates(r: Request) {
    r.Write? || r.Create? || r.Mkdir? || r.Unlink? || r.Rename? || r.Truncate?
  }

  /** A request the server can serve: the listing is the host's, and a handle id can be found. */
  ghost predicate Servable(s: State, r: Request, o: Oracle) {
    && Consistent(s.table) && Rooted(s.table, s.root)
    && CanAllocate(s)
    && (r.ReadDir? && r.ino in s.table.inoToPath ==> ListingOk(s.fs, s.table.inoToPath[r.ino], o.listing))
  }

  ghost function Serve(s: State, r: Request, o: Oracle): (State, Reply)
    requires Servable(s, r, o)
  {
    if Mutates(r) && ReadOnly(s.mode) then (s, Fail(EROFS))
    else match r
      case Lookup(parent, name) => DoLookup(s, parent, name, o)
      case Getattr(ino) => DoGetattr(s, ino, o)
      case ReadDir(ino, offset, maxEntries) => DoReadDir(s, ino, offset, maxEntries, o)
      case Open(ino, flags) => DoOpen(s, ino, flags, o)
      case Read(fh, offset, size) => DoRead(s, fh, offset, size, o)
      case Release(fh) => DoRelease(s, fh)
      case Ping => (s, Pong(if ReadOnly(s.mode) then "ro" else "rw"))
      case Write(fh, offset, data) => DoWrite(s, fh, offset, data, o)
      case Create(parent, name, flags) => DoCreate(s, parent, name, flags, o)
      case Mkdir(parent, name) => DoMkdir(s, parent, name, o)
      case Unlink(parent, name) => DoUnlink(s, parent, name, o)
      case Rename(_, _, _, _) => DoRename(s, r, o)
      case Truncate(ino, size) => DoTruncate(s, ino, size, o)
      case UnknownOp => (s, Fail(ENOSYS))
  }

  // ----- Collection before each request -----

  /** Inodes a collection must keep: the root's and those of open handles. */
  function Pinned(handles: Handles): set<nat> {
    {ROOT_INO} + set fh | fh in handles && handles[fh].ino != 0 :: handles[fh].ino
  }

  /** s' is a possible outcome of the collection that precedes a request. */
  ghost predicate MaybeGc(s: State, o: Oracle, s': State) {
    if s.cfg.gcInterval > 0 && o.now - s.lastGC < s.cfg.gcInterval then s' == s
    else
      && HandleGc(s.handles, s.cfg.idleTtl, s.cfg.maxHandles, o.now, s'.handles)
      && InodeGc(s.table, s.root, Pinned(s'.handles), o.gone, s.cfg.maxInodes, s'.table)
      && s' == s.(lastGC := o.now, handles := s'.handles, table := s'.table,
                  fs := OsCloseAll(s.fs, FileSet(s.handles - s'.handles.Keys)))
  }

  /** Server shutdown: every handle is closed and forgotten. */
  function Shutdown(s: State): State {
    s.(handles := map[], fs := OsCloseAll(s.fs, FileSet(s.handles)))
  }

  function FreshState(root: Path, mode: Mode, cfg: Config, now: int, fs: Fs): State {
    State(root, mode, cfg, FreshTable(root), map[], 1, now, fs)
  }
}
