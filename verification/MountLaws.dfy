/**
 What a client can rely on from one request to the next: replies tell the truth about the host
 tree, an inode or a handle from one reply works in the next request, and what was written is
 read back. All laws hold in every state a run can reach.
 */
module MountLaws {
  import opened Common
  import opened Paths
  import opened InodeTable
  import opened HandleTable
  import opened HostFs
  import opened Readdir
  import opened MountSpec
  import opened MountRuns

  // ----- Names and attributes -----

  /** The name under the parent denotes an existing object that may be looked up. */
  ghost predicate Names(s: State, parent: nat, name: string, o: Oracle, target: Path) {
    && parent in s.table.inoToPath && ResolveChildPath(s.root, s.table.inoToPath[parent], name) == Ok(target)
    && target in s.fs.tree && target !in o.denied && s.fs.tree[target].kind != Symlink
  }

  /**
   A lookup succeeds exactly for a name that denotes an existing object other than a symbolic
   link. It then returns that object and the inode the path has from now on; no inode handed
   out before changes. A lookup that fails changes nothing.
   */
  lemma LookupReply(s: State, parent: nat, name: string, o: Oracle)
    requires TableInv(s)
    ensures var (s', reply) := DoLookup(s, parent, name, o);
            && (reply.Entry? <==> exists target :: Names(s, parent, name, o, target))
            && (!reply.Entry? ==> s' == s && reply.Fail?)
            && s' == s.(table := s'.table) && TableInv(s')
            && (forall i :: i in s.table.inoToPath ==> i in s'.table.inoToPath && s'.table.inoToPath[i] == s.table.inoToPath[i])
    ensures forall target :: Names(s, parent, name, o, target) ==>
              var (s', reply) := DoLookup(s, parent, name, o);
              reply.Entry? && reply.ino in s'.table.inoToPath && s'.table.inoToPath[reply.ino] == target && reply.node == s.fs.tree[target]
  {
    hide TreeOk; hide MissingErrno; hide ResolveChildPath;
    if parent in s.table.inoToPath {
      ResolvedNear(s, parent, name);
      var r := ResolveChildPath(s.root, s.table.inoToPath[parent], name);
      if r.Ok? {
        EnsureKeeps(s.table, s.root, r.value);
        assert Names(s, parent, name, o, r.value) <==> r.value in s.fs.tree && r.value !in o.denied && s.fs.tree[r.value].kind != Symlink;
      }
    }
  }

  /** The attributes of an inode are those of the object at its path; asking changes nothing. */
  lemma GetattrReply(s: State, ino: nat, o: Oracle, node: Node)
    ensures DoGetattr(s, ino, o).0 == s
    ensures DoGetattr(s, ino, o).1 == Attr(ino, node) <==>
            && ino in s.table.inoToPath && s.table.inoToPath[ino] !in o.denied
            && s.table.inoToPath[ino] in s.fs.tree && s.fs.tree[s.table.inoToPath[ino]] == node && node.kind != Symlink
  {
  }

  /** The inode a lookup returns gives, at once, the attributes the lookup returned; a second lookup returns the same. */
  lemma LookupThenGetattr(s: State, parent: nat, name: string, o: Oracle)
    requires TableInv(s) && DoLookup(s, parent, name, o).1.Entry?
    ensures var (s', reply) := DoLookup(s, parent, name, o);
            && DoGetattr(s', reply.ino, o) == (s', Attr(reply.ino, reply.node))
            && DoLookup(s', parent, name, o) == (s', reply)
  {
    hide DoLookup; hide DoGetattr; hide TableInv;
    LookupReply(s, parent, name, o);
    var (s', reply) := DoLookup(s, parent, name, o);
    var target :| Names(s, parent, name, o, target);
    GetattrReply(s', reply.ino, o, reply.node);
    StoredLookup(s', parent, name, o, target, reply.ino);
  }

  /** Looking up a path that has an inode returns that inode and changes nothing. */
  lemma StoredLookup(s: State, parent: nat, name: string, o: Oracle, target: Path, ino: nat)
    requires TableInv(s) && Names(s, parent, name, o, target)
    requires ino in s.table.inoToPath && s.table.inoToPath[ino] == target
    ensures DoLookup(s, parent, name, o) == (s, Entry(ino, s.fs.tree[target]))
  {
    hide TreeOk; hide ResolveChildPath; hide Rooted;
  }

  // ----- Making and removing names -----

  /** A directory just made is found under its name, with the inode and object the reply gave. */
  lemma MkdirThenLookup(s: State, parent: nat, name: string, o: Oracle)
    requires TableInv(s) && DoMkdir(s, parent, name, o).1.Entry?
    requires forall target :: ResolveChildPath(s.root, s.table.inoToPath[parent], name) == Ok(target) ==> target !in o.denied
    ensures var (s', reply) := DoMkdir(s, parent, name, o);
            reply.node.kind == Dir && DoLookup(s', parent, name, o) == (s', reply)
  {
    hide DoMkdir; hide DoLookup; hide TableInv; hide ResolveChildPath;
    var c := MkdirChange(s, parent, name, o);
    var (s', reply) := DoMkdir(s, parent, name, o);
    ChangeKeepsTable(s, c, s');
    MkdirEffect(s, parent, name, o);
    var target := ResolveChildPath(s.root, s.table.inoToPath[parent], name).value;
    StoredLookup(s', parent, name, o, target, reply.ino);
  }

  lemma MkdirEffect(s: State, parent: nat, name: string, o: Oracle)
    requires TableInv(s) && DoMkdir(s, parent, name, o).1.Entry?
    ensures parent in s.table.inoToPath && ResolveChildPath(s.root, s.table.inoToPath[parent], name).Ok?
    ensures var (s', reply) := DoMkdir(s, parent, name, o);
            var target := ResolveChildPath(s.root, s.table.inoToPath[parent], name).value;
            && s'.root == s.root && target in s'.fs.tree && s'.fs.tree[target] == reply.node && reply.node.kind == Dir
            && parent in s'.table.inoToPath && s'.table.inoToPath[parent] == s.table.inoToPath[parent]
            && reply.ino in s'.table.inoToPath && s'.table.inoToPath[reply.ino] == target
  {
    hide TreeOk; hide ResolveChildPath; hide DirectoryCheck; hide Rooted; hide MissingErrno;
  }

  /**
   A file just created is found under its name, with the inode the reply gave; its handle is new
   and open on the object found.
   */
  lemma CreateThenLookup(s: State, parent: nat, name: string, flags: bv64, o: Oracle)
    requires TableInv(s) && CanAllocate(s) && DoCreate(s, parent, name, flags, o).1.Created?
    requires forall target :: ResolveChildPath(s.root, s.table.inoToPath[parent], name) == Ok(target) ==> target !in o.denied
    ensures var (s', reply) := DoCreate(s, parent, name, flags, o);
            && reply.fh !in s.handles && reply.fh in s'.handles && s'.handles[reply.fh].ino == reply.ino
            && DoLookup(s', parent, name, o).0 == s' && DoLookup(s', parent, name, o).1.Entry?
            && DoLookup(s', parent, name, o).1.ino == reply.ino && DoLookup(s', parent, name, o).1.node.kind != Dir
            && s'.handles[reply.fh].file < |s'.fs.files|
            && s'.fs.files[s'.handles[reply.fh].file].obj == DoLookup(s', parent, name, o).1.node.id
  {
    hide DoCreate; hide DoLookup; hide TableInv; hide ResolveChildPath; hide CanAllocate;
    var c := CreateChange(s, parent, name, flags, o);
    var (s', reply) := DoCreate(s, parent, name, flags, o);
    ChangeKeepsTable(s, c, s');
    CreatedEffect(s, parent, name, flags, o);
    var target := ResolveChildPath(s.root, s.table.inoToPath[parent], name).value;
    StoredLookup(s', parent, name, o, target, reply.ino);
  }

  lemma CreatedEffect(s: State, parent: nat, name: string, flags: bv64, o: Oracle)
    requires TableInv(s) && CanAllocate(s) && DoCreate(s, parent, name, flags, o).1.Created?
    requires forall target :: ResolveChildPath(s.root, s.table.inoToPath[parent], name) == Ok(target) ==> target !in o.denied
    ensures parent in s.table.inoToPath && ResolveChildPath(s.root, s.table.inoToPath[parent], name).Ok?
    ensures var (s', reply) := DoCreate(s, parent, name, flags, o);
            var target := ResolveChildPath(s.root, s.table.inoToPath[parent], name).value;
            && s'.root == s.root && target in s'.fs.tree && s'.fs.tree[target].kind != Dir && s'.fs.tree[target].kind != Symlink
            && parent in s'.table.inoToPath && s'.table.inoToPath[parent] == s.table.inoToPath[parent]
            && reply.ino in s'.table.inoToPath && s'.table.inoToPath[reply.ino] == target
            && reply.fh !in s.handles && reply.fh in s'.handles && s'.handles[reply.fh].ino == reply.ino
            && s'.handles[reply.fh].file < |s'.fs.files|
            && s'.fs.files[s'.handles[reply.fh].file].obj == s'.fs.tree[target].id
  {
    hide TreeOk; hide ResolveChildPath; hide Rooted; hide OsOpenFlagsFromLinux; hide FirstFree;
  }

  /** A file just unlinked is not found any more, and its inode, if it had one, is unknown. */
  lemma UnlinkThenLookup(s: State, parent: nat, name: string, o: Oracle)
    requires TableInv(s) && DoUnlink(s, parent, name, o).1.Done?
    ensures var s' := DoUnlink(s, parent, name, o).0;
            && DoLookup(s', parent, name, o) == (s', Fail(ENOENT))
            && forall i :: i in s.table.inoToPath && s.table.inoToPath[i] !in s'.fs.tree && s.table.inoToPath[i] in s.fs.tree
                           ==> DoGetattr(s', i, o) == (s', Fail(EINVAL))
  {
    hide DoUnlink; hide ResolveChildPath; hide Rooted; hide MissingErrno;
    UnlinkEffect(s, parent, name, o);
    UnlinkedMissing(s, parent, name, o);
  }

  lemma UnlinkedMissing(s: State, parent: nat, name: string, o: Oracle)
    requires TableInv(s) && DoUnlink(s, parent, name, o).1.Done?
    ensures parent in s.table.inoToPath && ResolveChildPath(s.root, s.table.inoToPath[parent], name).Ok?
    ensures var target := ResolveChildPath(s.root, s.table.inoToPath[parent], name).value;
            && target !in o.denied && target in s.fs.tree && target != s.table.inoToPath[parent]
            && MissingErrno(s.fs.tree - {target}, target) == ENOENT
  {
    var target := ResolveChildPath(s.root, s.table.inoToPath[parent], name).value;
    ResolvedNear(s, parent, name);
    assert target != s.root;
    assert IsDir(s.fs.tree, Parent(target));
  }

  /** Neither parent moves with the source, and nothing lands on it. */
  lemma ParentsStay(s: State, src: Path, dst: Path)
    requires TableInv(s) && Inside(s.root, src) && Inside(s.root, dst) && OsRename(s.fs, src, dst, None).Ok? && src != dst
    ensures !(src <= Parent(src)) && !(dst <= Parent(src)) && IsDir(s.fs.tree, Parent(src))
    ensures !(src <= Parent(dst)) && !(dst <= Parent(dst))
  {
    RenameKeepsTree(s.fs, s.root, src, dst);
    assert IsDir(s.fs.tree, Parent(src));
    assert dst <= Parent(src) ==> Parent(src) == dst;
  }

  /** What the tree holds after a genuine rename. */
  lemma RenamedTree(s: State, src: Path, dst: Path)
    requires TableInv(s) && Inside(s.root, src) && Inside(s.root, dst) && OsRename(s.fs, src, dst, None).Ok? && src != dst
    ensures var tree' := OsRename(s.fs, src, dst, None).value.tree;
            && src in s.fs.tree && dst in tree' && tree'[dst] == s.fs.tree[src] && src !in tree'
            && IsDir(tree', Parent(src)) && src != [] && Parent(src) != src
  {
    hide Consistent; hide Rooted;
    RenameKeepsTree(s.fs, s.root, src, dst);
    MovedKeysArrive(s.fs.tree, src, dst, src);
    assert Rebase(src, src, dst) == dst;
    ParentsStay(s, src, dst);
  }

  /** What the table holds after it: the source's inode at the target, the two parents where they were. */
  lemma RenamedTable(s: State, src: Path, dst: Path)
    requires TableInv(s) && Inside(s.root, src) && Inside(s.root, dst) && OsRename(s.fs, src, dst, None).Ok? && src != dst
    ensures var t' := Remap(s.table, src, dst);
            && (src in s.table.pathToIno ==>
                  s.table.pathToIno[src] in t'.inoToPath && t'.inoToPath[s.table.pathToIno[src]] == dst)
            && forall i :: i in s.table.inoToPath && (s.table.inoToPath[i] == Parent(src) || s.table.inoToPath[i] == Parent(dst)) ==>
                 i in t'.inoToPath && t'.inoToPath[i] == s.table.inoToPath[i]
  {
    hide OsRename; hide TreeOk; hide Rooted; hide MoveSubtree;
    assert Rebase(src, src, dst) == dst;
    ParentsStay(s, src, dst);
  }

  /**
   After a rename of a file that has an inode, the new name gives that inode and the same
   object, and the old name is gone.
   */
  lemma RenameThenLookup(s: State, r: Request, o: Oracle)
    requires TableInv(s) && r.Rename? && DoRename(s, r, o).1.Done? && RenamePaths(s, r, o).Ok?
    requires ValidName(r.srcName) && ValidName(r.dstName)
    requires var (src, dst) := RenamePaths(s, r, o).value;
             src != dst && src in s.table.pathToIno && src !in o.denied && dst !in o.denied
    ensures var s', (src, dst) := DoRename(s, r, o).0, RenamePaths(s, r, o).value;
            && src in s.fs.tree
            && DoLookup(s', r.dstParent, r.dstName, o) == (s', Entry(s.table.pathToIno[src], s.fs.tree[src]))
            && DoLookup(s', r.srcParent, r.srcName, o) == (s', Fail(ENOENT))
  {
    hide TableInv; hide DoRename; hide OsRename; hide Remap; hide DoLookup; hide ResolveChildPath; hide DirectoryCheck;
    var (src, dst) := RenamePaths(s, r, o).value;
    var s' := DoRename(s, r, o).0;
    RenameEffect(s, r, o);
    RenamePathsNear(s, r, o);
    var c := RenameChange(s, r, o);
    ChangeKeepsTable(s, c, s');
    RenamedTree(s, src, dst);
    RenamedTable(s, src, dst);
    ChildNames(s, r, o);
    RenamedKind(s, r, o);
    StoredLookup(s', r.dstParent, r.dstName, o, dst, s.table.pathToIno[src]);
    GoneLookup(s', r.srcParent, r.srcName, o, src);
  }

  /** With proper names the two paths of a rename are children of the two parents. */
  lemma ChildNames(s: State, r: Request, o: Oracle)
    requires r.Rename? && RenamePaths(s, r, o).Ok? && ValidName(r.srcName) && ValidName(r.dstName)
    ensures r.srcParent in s.table.inoToPath && r.dstParent in s.table.inoToPath
    ensures var (src, dst) := RenamePaths(s, r, o).value;
            && Parent(src) == s.table.inoToPath[r.srcParent] && Parent(dst) == s.table.inoToPath[r.dstParent]
            && ResolveChildPath(s.root, s.table.inoToPath[r.srcParent], r.srcName) == Ok(src)
            && ResolveChildPath(s.root, s.table.inoToPath[r.dstParent], r.dstName) == Ok(dst)
  {
    hide IsWithinRoot; hide DirectoryCheck;
  }

  lemma RenamedKind(s: State, r: Request, o: Oracle)
    requires r.Rename? && DoRename(s, r, o).1.Done? && RenamePaths(s, r, o).Ok?
    ensures var (src, dst) := RenamePaths(s, r, o).value; src in s.fs.tree && s.fs.tree[src].kind != Symlink
  {
    hide RenamePaths; hide OsRename; hide Remap;
  }

  lemma GoneLookup(s: State, parent: nat, name: string, o: Oracle, target: Path)
    requires parent in s.table.inoToPath && ResolveChildPath(s.root, s.table.inoToPath[parent], name) == Ok(target)
    requires target !in s.fs.tree && target !in o.denied && target != [] && IsDir(s.fs.tree, Parent(target))
    ensures DoLookup(s, parent, name, o) == (s, Fail(ENOENT))
  {
    hide ResolveChildPath;
  }

  // ----- Listings -----

  /**
   Every entry of a listing, the dot entries included, is what a lookup of its name in that
   directory finds: the same inode, and an object of the kind listed.
   */
  lemma ListThenLookup(s: State, ino: nat, offset: U64, maxEntries: U64, o: Oracle, k: nat, o2: Oracle)
    requires TableInv(s) && ino in s.table.inoToPath && ListingOk(s.fs, s.table.inoToPath[ino], o.listing)
    requires var reply := DoReadDir(s, ino, offset, maxEntries, o).1; reply.Listing? && k < |reply.entries|
    requires o2.denied == {} && DoReadDir(s, ino, offset, maxEntries, o).1.entries[k].entry.kind != Symlink
    ensures var (s', reply) := DoReadDir(s, ino, offset, maxEntries, o);
            var e, found := reply.entries[k].entry, DoLookup(s', ino, reply.entries[k].entry.name, o2);
            found.0 == s' && found.1.Entry? && found.1.ino == e.ino && found.1.node.kind == e.kind
  {
    hide Consistent; hide Rooted; hide TreeOk; hide DoReadDir; hide DoLookup; hide ListingOk;
    var c := ReadDirChange(s, ino, offset, maxEntries, o);
    var (s', reply) := DoReadDir(s, ino, offset, maxEntries, o);
    ChangeKeepsTable(s, c, s');
    var target := ListedEntry(s, ino, offset, maxEntries, o, k);
    StoredLookup(s', ino, reply.entries[k].entry.name, o2, target, reply.entries[k].entry.ino);
  }

  /** The path an entry of a listing stands for. */
  lemma ListedEntry(s: State, ino: nat, offset: U64, maxEntries: U64, o: Oracle, k: nat) returns (target: Path)
    requires TableInv(s) && ino in s.table.inoToPath && ListingOk(s.fs, s.table.inoToPath[ino], o.listing)
    requires var reply := DoReadDir(s, ino, offset, maxEntries, o).1; reply.Listing? && k < |reply.entries|
    ensures var (s', reply) := DoReadDir(s, ino, offset, maxEntries, o);
            var e := reply.entries[k].entry;
            && s'.root == s.root && s'.fs == s.fs && ino in s'.table.inoToPath && s'.table.inoToPath[ino] == s.table.inoToPath[ino]
            && ResolveChildPath(s.root, s.table.inoToPath[ino], e.name) == Ok(target)
            && target in s.fs.tree && s.fs.tree[target].kind == e.kind
            && e.ino in s'.table.inoToPath && s'.table.inoToPath[e.ino] == target
  {
    hide ReaddirTable; hide PageOf; hide ResolveChildPath; hide ListingOk; hide TreeOk; hide Entries;
    var dir := s.table.inoToPath[ino];
    var t := ReaddirTable(s.table, s.root, dir, o.listing);
    ListingFacts(s, ino, o.listing);
    var all := Entries(t, s.root, ino, dir, o.listing, s.fs.tree);
    PageExact(all, offset, maxEntries);
    var at := PageStart(offset) + k;
    target := EntryPath(s, ino, dir, o.listing, t, at);
  }

  lemma ListingFacts(s: State, ino: nat, names: seq<string>)
    requires TableInv(s) && ino in s.table.inoToPath && ListingOk(s.fs, s.table.inoToPath[ino], names)
    ensures var dir := s.table.inoToPath[ino];
            var t := ReaddirTable(s.table, s.root, dir, names);
            && Consistent(t) && (dir != s.root ==> Parent(dir) in t.pathToIno)
            && (forall i :: 0 <= i < |names| ==> dir + [names[i]] in t.pathToIno && dir + [names[i]] in s.fs.tree)
            && (forall i :: i in s.table.inoToPath ==> i in t.inoToPath && t.inoToPath[i] == s.table.inoToPath[i])
            && |names| + 2 < TWO_63
  {
    StoredInside(s, ino);
    ListedKeepsInodes(s.table, s.root, s.table.inoToPath[ino], names);
    ReaddirTableKeeps(s.table, s.root, s.table.inoToPath[ino], names);
    hide ReaddirTable; hide TreeOk;
  }

  lemma EntryPath(s: State, ino: nat, dir: Path, names: seq<string>, t: Table, at: nat) returns (target: Path)
    requires TableInv(s) && ino in s.table.inoToPath && dir == s.table.inoToPath[ino] && ListingOk(s.fs, dir, names)
    requires Consistent(t) && ino in t.inoToPath && t.inoToPath[ino] == dir && dir in s.fs.tree && IsDir(s.fs.tree, dir)
    requires dir != s.root ==> Parent(dir) in t.pathToIno
    requires forall i :: 0 <= i < |names| ==> dir + [names[i]] in t.pathToIno && dir + [names[i]] in s.fs.tree
    requires at < |names| + 2
    ensures var e := Entries(t, s.root, ino, dir, names, s.fs.tree)[at];
            && ResolveChildPath(s.root, dir, e.name) == Ok(target)
            && target in s.fs.tree && s.fs.tree[target].kind == e.kind
            && e.ino in t.inoToPath && t.inoToPath[e.ino] == target
  {
    hide Entries; hide ResolveChildPath; hide Consistent; hide Rooted; hide TreeOk; hide ListingOk;
    StoredInside(s, ino);
    EntryAt(t, s.root, ino, dir, names, s.fs.tree, at);
    if at == 0 {
      Resolves(s.root, dir, ".");
      target := dir;
    } else if at == 1 {
      Resolves(s.root, dir, "..");
      target := if dir == s.root then dir else Parent(dir);
      if dir != s.root {
        ParentExists(s, dir);
        StoredBack(t, target);
      }
    } else {
      ListedName(s, dir, names, at - 2);
      Resolves(s.root, dir, names[at - 2]);
      target := dir + [names[at - 2]];
      StoredBack(t, target);
    }
  }

  lemma EntryAt(t: Table, root: Path, ino: nat, dir: Path, names: seq<string>, kinds: map<Path, Node>, at: nat)
    requires dir != root ==> Parent(dir) in t.pathToIno
    requires forall i :: 0 <= i < |names| ==> dir + [names[i]] in t.pathToIno && dir + [names[i]] in kinds
    requires at < |names| + 2
    ensures Entries(t, root, ino, dir, names, kinds)[at] ==
            if at == 0 then DirEntry(ino, ".", Dir)
            else if at == 1 then DirEntry(if dir == root then ino else t.pathToIno[Parent(dir)], "..", Dir)
            else DirEntry(t.pathToIno[dir + [names[at - 2]]], names[at - 2], kinds[dir + [names[at - 2]]].kind)
  {
  }

  lemma ParentExists(s: State, dir: Path)
    requires TableInv(s) && dir in s.fs.tree && dir != s.root
    ensures IsDir(s.fs.tree, Parent(dir)) && dir != []
  {
    assert s.root <= dir;
  }

  lemma StoredBack(t: Table, p: Path)
    requires Consistent(t) && p in t.pathToIno
    ensures t.pathToIno[p] in t.inoToPath && t.inoToPath[t.pathToIno[p]] == p
  {
  }

  lemma ListedName(s: State, dir: Path, names: seq<string>, i: nat)
    requires ListingOk(s.fs, dir, names) && i < |names|
    ensures ValidName(names[i])
  {
  }

  /** Dot entries and proper names resolve to exactly the paths they stand for; nothing else does. */
  lemma Resolves(root: Path, parent: Path, name: string)
    requires CleanPath(parent) && root <= parent
    ensures ValidName(name) ==> ResolveChildPath(root, parent, name) == Ok(parent + [name])
    ensures ResolveChildPath(root, parent, ".") == Ok(parent)
    ensures ResolveChildPath(root, parent, "..") == Ok(if parent == root then root else parent[..|parent| - 1])
    ensures name == "" || '/' in name ==> ResolveChildPath(root, parent, name).Err?
  {
    hide IsWithinRoot; hide CleanPath;
    ResolveStaysInside(root, parent, name);
    ResolveStaysInside(root, parent, ".");
    ResolveStaysInside(root, parent, "..");
  }

  /** Every child of the directory is listed, under its own name. */
  lemma EveryChildListed(s: State, ino: nat, dir: Path, names: seq<string>, t: Table, name: string) returns (k: nat)
    requires ListingOk(s.fs, dir, names) && dir + [name] in s.fs.tree
    requires dir != s.root ==> Parent(dir) in t.pathToIno
    requires forall i :: 0 <= i < |names| ==> dir + [names[i]] in t.pathToIno && dir + [names[i]] in s.fs.tree
    ensures k < |names| + 2 && Entries(t, s.root, ino, dir, names, s.fs.tree)[k].name == name
  {
    hide ListingOk; hide Entries;
    var i := NameListed(s.fs, dir, names, name);
    EntryNamed(t, s.root, ino, dir, names, s.fs.tree, i);
    k := i + 2;
  }

  lemma NameListed(fs: Fs, dir: Path, names: seq<string>, name: string) returns (i: nat)
    requires ListingOk(fs, dir, names) && dir + [name] in fs.tree
    ensures i < |names| && names[i] == name
  {
    var p := dir + [name];
    assert Parent(p) == dir && p[|p| - 1] == name;
    i :| i < |names| && names[i] == name;
  }

  lemma EntryNamed(t: Table, root: Path, ino: nat, dir: Path, names: seq<string>, kinds: map<Path, Node>, i: nat)
    requires dir != root ==> Parent(dir) in t.pathToIno
    requires forall i :: 0 <= i < |names| ==> dir + [names[i]] in t.pathToIno && dir + [names[i]] in kinds
    requires i < |names|
    ensures Entries(t, root, ino, dir, names, kinds)[i + 2].name == names[i]
  {
  }

  // ----- Handles -----

  /** Releasing a handle just opened leaves the handle table as it was, with the file closed; it cannot be released twice. */
  lemma OpenThenRelease(s: State, ino: nat, flags: bv64, o: Oracle)
    requires FilesInv(s) && CanAllocate(s) && DoOpen(s, ino, flags, o).1.Opened?
    ensures var (s', reply) := DoOpen(s, ino, flags, o);
            var (s'', done) := DoRelease(s', reply.fh);
            && reply.fh !in s.handles && reply.fh in s'.handles && s'.handles[reply.fh].ino == ino
            && done == Done && s''.handles == s.handles && s''.table == s.table && s''.fs.tree == s.fs.tree
            && s''.fs.closed == s.fs.closed + multiset{|s.fs.files|} && |s''.fs.files| == |s.fs.files| + 1
            && DoRelease(s'', reply.fh) == (s'', Fail(EBADF))
  {
    hide OsOpenFlagsFromLinux; hide HasWriteIntent; hide FirstFree; hide MissingErrno; hide Balanced;
  }

  /** A released handle is refused by every later request on it, and other handles read what they read before. */
  lemma ReleaseThenUse(s: State, fh: nat, offset: U64, size: U64, data: seq<Byte>, o: Oracle, other: nat)
    requires fh in s.handles && other != fh
    ensures var s' := DoRelease(s, fh).0;
            && DoRead(s', fh, offset, size, o) == (s', Fail(EBADF))
            && DoWrite(s', fh, offset, data, o) == (s', Fail(EBADF))
            && DoRelease(s', fh) == (s', Fail(EBADF))
            && DoRead(s', other, offset, size, o).1 == DoRead(s, other, offset, size, o).1
  {
    hide Slice;
  }

  // ----- Contents -----

  /** Every byte after a write at a position: the data where it was written, the old bytes elsewhere, zeros in a gap. */
  lemma OverlayExact(data: seq<Byte>, at: nat, bytes: seq<Byte>, k: nat)
    requires bytes != [] && k < |Overlay(data, at, bytes)|
    ensures |Overlay(data, at, bytes)| == (if at + |bytes| > |data| then at + |bytes| else |data|)
    ensures Overlay(data, at, bytes)[k] ==
            if at <= k < at + |bytes| then bytes[k - at] else if k < |data| then data[k] else 0
  {
    var base := Padded(data, at);
    assert k < |base| ==> base[k] == if k < |data| then data[k] else 0;
  }

  /** Reading where data was just written gives that data. */
  lemma SliceOfOverlay(data: seq<Byte>, at: nat, bytes: seq<Byte>)
    ensures bytes != [] ==> Slice(Overlay(data, at, bytes), at, |bytes|) == bytes
  {
    if bytes != [] {
      var all := Overlay(data, at, bytes);
      OverlayExact(data, at, bytes, 0);
      forall k | 0 <= k < |bytes|
        ensures all[at..at + |bytes|][k] == bytes[k]
      {
        OverlayExact(data, at, bytes, at + k);
      }
      assert all[at..at + |bytes|] == bytes;
    }
  }

  /** A handle that can be read and written, on a file the server has open. */
  ghost predicate ReadsAndWrites(s: State, fh: nat) {
    && fh in s.handles && s.handles[fh].file < |s.fs.files|
    && s.fs.files[s.handles[fh].file].readable && s.fs.files[s.handles[fh].file].writable
  }

  /** Where a write through the handle goes: to the end of the file in append mode, else to the offset. */
  function WritePos(s: State, fh: nat, offset: U64): nat
    requires fh in s.handles && s.handles[fh].file < |s.fs.files|
  {
    if s.handles[fh].append then |BytesOf(s.fs, s.fs.files[s.handles[fh].file].obj)| else offset
  }

  /**
   Data written through a handle is read back through it from where it went, whatever was in
   the file before and wherever that is.
   */
  lemma WriteThenRead(s: State, fh: nat, offset: U64, data: seq<Byte>, o: Oracle, o2: Oracle)
    requires ReadsAndWrites(s, fh) && data != [] && |data| <= MAX_READ
    requires o.fails.None? && o2.fails.None? && WritePos(s, fh, offset) < TWO_63
    ensures DoWrite(s, fh, offset, data, o).1 == Wrote(|data|)
    ensures DoRead(DoWrite(s, fh, offset, data, o).0, fh, WritePos(s, fh, offset), |data|, o2).1 == Data(data)
  {
    hide Overlay; hide Slice;
    SliceOfOverlay(BytesOf(s.fs, s.fs.files[s.handles[fh].file].obj), WritePos(s, fh, offset), data);
  }

  /** A write that fails has stored a first part of the data, where it belongs, and nothing else. */
  lemma FailedWrite(s: State, fh: nat, offset: U64, data: seq<Byte>, o: Oracle)
    requires fh in s.handles && s.handles[fh].file < |s.fs.files| && DoWrite(s, fh, offset, data, o).1.Fail?
    ensures var h := s.handles[fh];
            var file := s.fs.files[h.file];
            var tried := file.writable && (h.append || offset < 0x8000_0000_0000_0000);
            var n := if !tried then 0 else if o.stored < |data| then o.stored else |data|;
            BytesOf(DoWrite(s, fh, offset, data, o).0.fs, file.obj)
            == Overlay(BytesOf(s.fs, file.obj), WritePos(s, fh, offset), data[..n])
  {
    assert data[..|data|] == data && data[..0] == [];
  }

  /**
   A write, whether it succeeds or not, does not change what is read through a handle on another
   file; through a handle that is not open for writing it changes what no handle reads.
   */
  lemma WriteThenReadOther(s: State, fh: nat, offset: U64, data: seq<Byte>, o: Oracle, other: nat, at: U64, size: U64, o2: Oracle)
    requires fh in s.handles && s.handles[fh].file < |s.fs.files| && other in s.handles && s.handles[other].file < |s.fs.files|
    requires !s.fs.files[s.handles[fh].file].writable
             || s.fs.files[s.handles[other].file].obj != s.fs.files[s.handles[fh].file].obj
    ensures DoRead(DoWrite(s, fh, offset, data, o).0, other, at, size, o2).1 == DoRead(s, other, at, size, o2).1
  {
    hide Overlay; hide Slice;
  }

  /** After a truncate the file reads as it was cut to the size asked for, or filled up with zeros. */
  lemma TruncateThenRead(s: State, ino: nat, size: U64, o: Oracle, fh: nat, o2: Oracle)
    requires DoTruncate(s, ino, size, o).1.Done? && size <= MAX_READ && o2.fails.None?
    requires ino in s.table.inoToPath && s.table.inoToPath[ino] in s.fs.tree
    requires fh in s.handles && s.handles[fh].file < |s.fs.files| && s.fs.files[s.handles[fh].file].readable
    requires s.fs.files[s.handles[fh].file].obj == s.fs.tree[s.table.inoToPath[ino]].id
    ensures var before := BytesOf(s.fs, s.fs.tree[s.table.inoToPath[ino]].id);
            var reply := DoRead(DoTruncate(s, ino, size, o).0, fh, 0, MAX_READ, o2).1;
            && reply.Data? && |reply.data| == size
            && forall k :: 0 <= k < size ==> reply.data[k] == if k < |before| then before[k] else 0
  {
  }
}
