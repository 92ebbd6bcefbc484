/**
 Directory listings: the entries the server builds, the page it cuts out of them, and the
 further cut the guest makes to fit its reply buffer.
 */
module Readdir {
  import opened Common
  import opened Paths
  import opened InodeTable
  import opened HostFs

  datatype DirEntry = DirEntry(ino: nat, name: string, kind: Kind)

  /** An entry as sent: the offset resumes the listing right after it. */
  datatype PagedEntry = PagedEntry(entry: DirEntry, offset: nat)

  function EnsureNames(t: Table, dir: Path, names: seq<string>): Table
    decreases |names|
  {
    if names == [] then t else EnsureNames(Ensure(t, dir + [names[0]]), dir, names[1..])
  }

  /** The table after the parent (unless at the root) and every child have an inode. */
  function ReaddirTable(t: Table, root: Path, dir: Path, names: seq<string>): Table {
    EnsureNames(if dir == root then t else Ensure(t, Parent(dir)), dir, names)
  }

  ghost predicate Extends(t: Table, t': Table) {
    && (forall p :: p in t.pathToIno ==> p in t'.pathToIno && t'.pathToIno[p] == t.pathToIno[p])
    && t.nextIno <= t'.nextIno
  }

  lemma EnsureNumbers(t: Table, p: Path)
    requires Consistent(t)
    ensures Extends(t, Ensure(t, p)) && t.nextIno <= Ensure(t, p).nextIno
    ensures forall i :: i in Ensure(t, p).inoToPath && i < t.nextIno
                        ==> i in t.inoToPath && Ensure(t, p).inoToPath[i] == t.inoToPath[i]
  {
  }

  lemma {:induction false} EnsureNamesKeeps(t: Table, root: Path, dir: Path, names: seq<string>)
    requires Consistent(t) && root <= dir && CleanPath(dir)
    requires forall i :: 0 <= i < |names| ==> ValidName(names[i])
    ensures var t' := EnsureNames(t, dir, names);
            && Consistent(t') && Extends(t, t')
            && (Rooted(t, root) ==> Rooted(t', root))
            && (forall i :: 0 <= i < |names| ==> dir + [names[i]] in t'.pathToIno)
            && (forall p :: p in t'.pathToIno ==> p in t.pathToIno || exists i :: 0 <= i < |names| && p == dir + [names[i]])
            && (forall i :: i in t'.inoToPath && i < t.nextIno ==> i in t.inoToPath && t'.inoToPath[i] == t.inoToPath[i])
    decreases |names|
  {
    hide Consistent; hide Rooted; hide Ensure;
    if names != [] {
      EnsureKeeps(t, root, dir + [names[0]]);
      EnsureNumbers(t, dir + [names[0]]);
      EnsureNamesKeeps(Ensure(t, dir + [names[0]]), root, dir, names[1..]);
    }
  }

  /** When every name already has an inode nothing changes. */
  lemma {:induction false} EnsureNamesNoChange(t: Table, dir: Path, names: seq<string>)
    requires forall i :: 0 <= i < |names| ==> dir + [names[i]] in t.pathToIno
    ensures EnsureNames(t, dir, names) == t
  {
    if names != [] {
      assert Ensure(t, dir + [names[0]]) == t;
      EnsureNamesNoChange(t, dir, names[1..]);
    }
  }

  lemma ReaddirTableKeeps(t: Table, root: Path, dir: Path, names: seq<string>)
    requires Consistent(t) && root <= dir && CleanPath(dir)
    requires forall i :: 0 <= i < |names| ==> ValidName(names[i])
    ensures var t' := ReaddirTable(t, root, dir, names);
            && Consistent(t') && Extends(t, t')
            && (Rooted(t, root) ==> Rooted(t', root))
            && (dir != root ==> Parent(dir) in t'.pathToIno)
            && (forall i :: 0 <= i < |names| ==> dir + [names[i]] in t'.pathToIno)
            && (forall p :: p in t'.pathToIno ==> p in t.pathToIno || (dir != root && p == Parent(dir))
                                                  || exists i :: 0 <= i < |names| && p == dir + [names[i]])
            && (forall i :: i in t'.inoToPath && i < t.nextIno ==> i in t.inoToPath && t'.inoToPath[i] == t.inoToPath[i])
  {
    if dir != root {
      EnsureKeeps(t, root, Parent(dir));
    }
    EnsureNamesKeeps(if dir == root then t else Ensure(t, Parent(dir)), root, dir, names);
  }

  /** The full listing: ".", "..", then the children in the order the host lists them. */
  function Entries(t: Table, root: Path, ino: nat, dir: Path, names: seq<string>, kinds: map<Path, Node>): (es: seq<DirEntry>)
    requires dir != root ==> Parent(dir) in t.pathToIno
    requires forall i :: 0 <= i < |names| ==> dir + [names[i]] in t.pathToIno && dir + [names[i]] in kinds
    ensures |es| == |names| + 2
  {
    [DirEntry(ino, ".", Dir),
     DirEntry(if dir == root then ino else t.pathToIno[Parent(dir)], "..", Dir)]
    + seq(|names|, i requires 0 <= i < |names| =>
                     DirEntry(t.pathToIno[dir + [names[i]]], names[i], kinds[dir + [names[i]]].kind))
  }

  // ----- The server's page -----

  const TWO_63: int := 0x8000_0000_0000_0000

  /** An unsigned 64-bit request field. */
  type U64 = x: int | 0 <= x < 0x1_0000_0000_0000_0000

  /** Conversion of an unsigned value, or of a sum of two signed ones, to a signed 64-bit integer. */
  function Int64(x: int): (r: int)
    requires -TWO_63 <= x < 2 * TWO_63
    ensures -TWO_63 <= r < TWO_63
  {
    if x < TWO_63 then x else x - 2 * TWO_63
  }

  /** None stands for the run-time panic on a negative page length. */
  function PageOf(entries: seq<DirEntry>, offset: U64, maxEntries: U64): Option<seq<PagedEntry>> {
    var size := if maxEntries == 0 then 128 else maxEntries;
    var start := if Int64(offset) < 0 then 0 else Int64(offset);
    if start >= |entries| then Some([])
    else
      var sum := Int64(start + Int64(size));
      var end := if sum > |entries| then |entries| else sum;
      if end < start then None
      else Some(seq(end - start, k requires 0 <= k < end - start => PagedEntry(entries[start + k], start + k + 1)))
  }

  /** Where a page starts: an offset beyond the signed range counts as zero. */
  function PageStart(offset: U64): nat {
    if offset >= TWO_63 then 0 else offset
  }

  function PageSize(maxEntries: U64): nat {
    if maxEntries == 0 then 128 else maxEntries
  }

  /**
   For every request: the page panics exactly when it starts inside the listing and start plus
   size does not fit in a signed 64-bit integer; it is empty when it starts at or beyond the
   end; otherwise it is the next min(size, rest) entries, each with the offset that follows it.
   */
  lemma PageExact(entries: seq<DirEntry>, offset: U64, maxEntries: U64)
    requires |entries| < TWO_63
    ensures var start, size, page := PageStart(offset), PageSize(maxEntries), PageOf(entries, offset, maxEntries);
            && (page.None? <==> start < |entries| && start + size >= TWO_63)
            && (start >= |entries| ==> page == Some([]))
            && (start < |entries| && page.Some? ==>
                  && |page.value| == (if size <= |entries| - start then size else |entries| - start)
                  && forall k :: 0 <= k < |page.value| ==> page.value[k] == PagedEntry(entries[start + k], start + k + 1))
  {
  }

  /** Three requests that panic on a directory with nothing but its dot entries. */
  lemma PagePanics()
    ensures var entries := [DirEntry(1, ".", Dir), DirEntry(1, "..", Dir)];
            && PageOf(entries, 0, 0x8000_0000_0000_0000) == None
            && PageOf(entries, 0x8000_0000_0000_0000, 0x8000_0000_0000_0000) == None
            && PageOf(entries, 1, 0x7FFF_FFFF_FFFF_FFFF) == None
  {
  }

  // ----- The guest's cut -----

  const DIRENT_HEADER: nat := 24

  /** The least multiple of eight that is at least len. */
  function AlignDirent(len: nat): (r: nat)
    ensures r % 8 == 0 && len <= r < len + 8
  {
    (len + 7) / 8 * 8
  }

  /** Bytes the first k entries, with these names, take in the guest's reply buffer. */
  function DirentBytes(names: seq<seq<Byte>>, k: nat): nat
    requires k <= |names|
  {
    if k == 0 then 0 else DirentBytes(names, k - 1) + AlignDirent(DIRENT_HEADER + |names[k - 1]|)
  }

  /**
   The guest appends entries until the buffer reaches the requested size. It keeps at least
   one entry of a non-empty page and stops at the first entry that reaches the size.
   */
  method FillDirentBuffer(names: seq<seq<Byte>>, size: nat) returns (kept: nat)
    ensures kept <= |names|
    ensures names != [] ==> kept >= 1
    ensures kept < |names| ==> DirentBytes(names, kept) >= size
    ensures forall k :: 1 <= k < kept ==> DirentBytes(names, k) < size
  {
    var bufLen := 0;
    kept := 0;
    while kept < |names|
      invariant 0 <= kept <= |names|
      invariant bufLen == DirentBytes(names, kept)
      invariant forall k :: 1 <= k <= kept ==> DirentBytes(names, k) < size
    {
      bufLen := bufLen + AlignDirent(DIRENT_HEADER + |names[kept]|);
      kept := kept + 1;
      if bufLen >= size {
        break;
      }
    }
  }

  // ----- Listing a directory to the end -----

  /** A directory being listed. */
  datatype Directory = Directory(root: Path, ino: nat, path: Path, names: seq<string>, kinds: map<Path, Node>)

  ghost predicate Listable(d: Directory) {
    && d.root <= d.path && CleanPath(d.path)
    && (forall i :: 0 <= i < |d.names| ==> ValidName(d.names[i]) && d.path + [d.names[i]] in d.kinds)
    && |d.names| < TWO_63 / 2
  }

  ghost function EntriesFrom(t: Table, d: Directory): (es: seq<DirEntry>)
    requires Consistent(t) && Listable(d)
    ensures |es| == |d.names| + 2
  {
    ReaddirTableKeeps(t, d.root, d.path, d.names);
    Entries(ReaddirTable(t, d.root, d.path, d.names), d.root, d.ino, d.path, d.names, d.kinds)
  }

  /** The listed children, and the parent, still have in t' the inodes they have in t. */
  ghost predicate StillStored(d: Directory, t: Table, t': Table) {
    && (forall i :: 0 <= i < |d.names| ==> SameInode(t, t', d.path + [d.names[i]]))
    && (d.path != d.root ==> SameInode(t, t', Parent(d.path)))
  }

  ghost predicate SameInode(t: Table, t': Table, p: Path) {
    p in t.pathToIno ==> p in t'.pathToIno && t'.pathToIno[p] == t.pathToIno[p]
  }

  /** Inodes per name are stable: a later call that finds them all stored builds the same entries. */
  lemma EntriesStable(t: Table, t2: Table, d: Directory)
    requires Consistent(t) && Consistent(t2) && Listable(d)
    requires StillStored(d, ReaddirTable(t, d.root, d.path, d.names), t2)
    ensures EntriesFrom(t2, d) == EntriesFrom(t, d)
    ensures ReaddirTable(t2, d.root, d.path, d.names) == t2
  {
    ReaddirTableKeeps(t, d.root, d.path, d.names);
    var left := ReaddirTable(t, d.root, d.path, d.names);
    hide ReaddirTable; hide Consistent; hide Extends;
    NamesStored(d, left, t2);
    assert EntriesFrom(t2, d) == EntriesFrom(t, d);
  }

  lemma NamesStored(d: Directory, t: Table, t2: Table)
    requires StillStored(d, t, t2)
    requires d.path != d.root ==> Parent(d.path) in t.pathToIno
    requires forall i :: 0 <= i < |d.names| ==> d.path + [d.names[i]] in t.pathToIno
    ensures ReaddirTable(t2, d.root, d.path, d.names) == t2
    ensures d.path != d.root ==> Parent(d.path) in t2.pathToIno && t2.pathToIno[Parent(d.path)] == t.pathToIno[Parent(d.path)]
    ensures forall i :: 0 <= i < |d.names| ==> d.path + [d.names[i]] in t2.pathToIno
                                               && t2.pathToIno[d.path + [d.names[i]]] == t.pathToIno[d.path + [d.names[i]]]
  {
    assert forall i :: 0 <= i < |d.names| ==> SameInode(t, t2, d.path + [d.names[i]]);
    EnsureNamesNoChange(t2, d.path, d.names);
  }

  /** Every entry with the offset that follows it. */
  function Paged(all: seq<DirEntry>): (ps: seq<PagedEntry>)
    ensures |ps| == |all|
  {
    seq(|all|, k requires 0 <= k < |all| => PagedEntry(all[k], k + 1))
  }

  /** What the guest keeps of a page: its first entries, as many as fit. */
  function Kept(page: seq<PagedEntry>, cut: nat): (kept: seq<PagedEntry>)
    ensures kept <= page
  {
    if cut < |page| then page[..cut] else page
  }

  /** Where a client resumes: after the last entry it kept. */
  function NextOffset(offset: int, kept: seq<PagedEntry>): int {
    if kept == [] then offset else kept[|kept| - 1].offset
  }

  /** What is kept of a stretch of the listing is a stretch of it that starts at the same place. */
  lemma StretchKept(all: seq<DirEntry>, offset: nat, page: seq<PagedEntry>, cut: nat)
    requires offset + |page| <= |all| && cut >= 1
    requires forall k :: 0 <= k < |page| ==> page[k] == PagedEntry(all[offset + k], offset + k + 1)
    ensures var kept := Kept(page, cut);
            && offset + |kept| <= |all| && kept == Paged(all)[offset..offset + |kept|]
            && NextOffset(offset, kept) == offset + |kept| && (page != [] ==> kept != [])
  {
    var kept := Kept(page, cut);
    forall k | 0 <= k < |kept|
      ensures kept[k] == Paged(all)[offset..offset + |kept|][k]
    {
    }
  }

  /** A page of moderate size never panics, and what is kept of it is the next stretch of the listing. */
  lemma KeptExact(all: seq<DirEntry>, offset: U64, maxEntries: U64, cut: nat)
    requires offset <= |all| < TWO_63 / 2 + 2
    requires 1 <= maxEntries <= 0x8000_0000 && cut >= 1
    ensures PageOf(all, offset, maxEntries).Some?
    ensures var kept := Kept(PageOf(all, offset, maxEntries).value, cut);
            && offset + |kept| <= |all| && kept == Paged(all)[offset..offset + |kept|]
            && NextOffset(offset, kept) == offset + |kept|
            && (offset < |all| ==> kept != [])
    ensures offset == |all| ==> PageOf(all, offset, maxEntries) == Some([])
  {
    hide PageOf; hide Kept; hide Paged; hide NextOffset;
    PageExact(all, offset, maxEntries);
    StretchKept(all, offset, PageOf(all, offset, maxEntries).value, cut);
  }

  /** No name is listed twice: the children are distinct and none is a dot entry. */
  lemma NamesOnce(t: Table, d: Directory, i: nat, j: nat)
    requires Consistent(t) && Listable(d)
    requires forall a, b :: 0 <= a < b < |d.names| ==> d.names[a] != d.names[b]
    requires i < j < |d.names| + 2
    ensures EntriesFrom(t, d)[i].name != EntriesFrom(t, d)[j].name
  {
  }
}
