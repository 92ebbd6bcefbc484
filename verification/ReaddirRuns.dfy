/**
 Listing a directory page by page inside a run of the mount. Other requests may come between
 the pages, collections too; as long as the directory itself holds the same objects, the pages
 put together are the full listing, once and in order.
 */
module ReaddirRuns {
  import opened Common
  import opened Paths
  import opened InodeTable
  import opened HostFs
  import opened Readdir
  import opened MountSpec
  import opened MountRuns
  import opened MountAgreement

  /** The object at p is the one the directory was first seen with. */
  ghost predicate Unchanged(s: State, d: Directory, p: Path) {
    p in s.fs.tree && p in d.kinds && s.fs.tree[p] == d.kinds[p]
  }

  /** The event is a listing request for d, with a page size a client may choose, that the host does not fail. */
  ghost predicate AsksFor(e: Event, d: Directory) {
    && e.Call? && e.req.ReadDir? && e.req.ino == d.ino && e.oracle.listing == d.names
    && 1 <= e.req.maxEntries <= 0x8000_0000 && e.oracle.fails.None? && d.path !in e.oracle.denied
  }

  /** The inode still names the directory, and its children and its parent are the objects d describes. */
  ghost predicate Finds(s: State, d: Directory) {
    && s.root == d.root && d.ino in s.table.inoToPath && s.table.inoToPath[d.ino] == d.path && IsDir(s.fs.tree, d.path)
    && (forall i :: 0 <= i < |d.names| ==> Unchanged(s, d, d.path + [d.names[i]]))
    && (d.path != d.root ==> Unchanged(s, d, Parent(d.path)))
  }

  /** One turn of a client: the position of its request in the run, the reply, how many entries it keeps. */
  datatype Turn = Turn(at: nat, reply: Reply, cut: nat)

  /** What the client keeps of the reply. */
  function KeptOf(turn: Turn): seq<PagedEntry> {
    if turn.reply.Listing? then Kept(turn.reply.entries, turn.cut) else []
  }

  /** Everything kept, in the order it came. */
  function Together(turns: seq<Turn>): seq<PagedEntry> {
    if turns == [] then [] else Together(turns[..|turns| - 1]) + KeptOf(turns[|turns| - 1])
  }

  /**
   The turns are listing requests of the run, in order, each with the reply the server gave; the
   first starts at offset zero and each later one after the last entry kept before.
   */
  ghost predicate Lists(ss: seq<State>, es: seq<Event>, d: Directory, turns: seq<Turn>) {
    && |ss| == |es| + 1
    && (forall n :: 0 <= n < |turns| ==> TurnAt(ss, es, d, turns[n]))
    && (turns != [] ==> es[turns[0].at].req.offset == 0)
    && (forall n :: 0 < n < |turns| ==> Resumes(es, turns[n - 1], turns[n]))
  }

  ghost predicate TurnAt(ss: seq<State>, es: seq<Event>, d: Directory, turn: Turn)
    requires |ss| == |es| + 1
  {
    && turn.at < |es| && turn.cut >= 1
    && AsksFor(es[turn.at], d) && Finds(ss[turn.at], d)
    && Answers(ss[turn.at], es[turn.at], turn.reply, ss[turn.at + 1])
  }

  ghost predicate Resumes(es: seq<Event>, before: Turn, after: Turn)
    requires before.at < |es| && after.at < |es|
    requires es[before.at].Call? && es[before.at].req.ReadDir? && es[after.at].Call? && es[after.at].req.ReadDir?
  {
    && before.at < after.at
    && es[after.at].req.offset == NextOffset(es[before.at].req.offset, KeptOf(before))
  }

  ghost predicate OwnRun(ss: seq<State>, es: seq<Event>) {
    && IsRun(ss, es) && Agrees(ss[0])
    && forall i :: 0 <= i < |es| ==> OwnEvent(ss[i], es[i])
  }

  /** A path that holds the same object at two points of a run keeps its inode from the first to the second. */
  lemma InodeStable(s: State, s': State, p: Path)
    requires Agrees(s) && Agrees(s') && Follows(s, s')
    requires p in s.table.pathToIno && p in s.fs.tree && p in s'.fs.tree && s'.fs.tree[p].id == s.fs.tree[p].id
    ensures p in s'.table.pathToIno && s'.table.pathToIno[p] == s.table.pathToIno[p]
  {
  }

  /** The state that serves a listing request differs from the one before it in handles only. */
  lemma ListServed(s: State, e: Event, reply: Reply, s': State, d: Directory) returns (mid: State)
    requires Agrees(s) && Answers(s, e, reply, s') && AsksFor(e, d) && Finds(s, d)
    ensures Changed(s, Quiet, mid) && Servable(mid, e.req, e.oracle)
    ensures (s', reply) == DoReadDir(mid, d.ino, e.req.offset, e.req.maxEntries, e.oracle)
  {
    hide MaybeGc; hide Agrees; hide DoReadDir; hide Changed; hide Consistent; hide Rooted; hide ListingOk; hide DirectoryCheck;
    hide Unchanged; hide CanAllocate; hide WellFormed;
    mid :| MaybeGc(s, e.oracle, mid) && Servable(mid, e.req, e.oracle) && (s', reply) == Serve(mid, e.req, e.oracle);
    GcQuiet(s, e.oracle, mid);
  }

  lemma ListableFrom(s: State, d: Directory)
    requires Consistent(s.table) && Rooted(s.table, s.root) && ListingOk(s.fs, d.path, d.names)
    requires s.root == d.root && d.ino in s.table.inoToPath && s.table.inoToPath[d.ino] == d.path
    requires forall i :: 0 <= i < |d.names| ==> Unchanged(s, d, d.path + [d.names[i]])
    ensures Listable(d)
  {
    assert forall i :: 0 <= i < |d.names| ==> Unchanged(s, d, d.path + [d.names[i]]);
  }

  lemma SameEntries(t: Table, d: Directory, kinds: map<Path, Node>)
    requires Consistent(t) && Listable(d)
    requires forall i :: 0 <= i < |d.names| ==> var p := d.path + [d.names[i]]; p in kinds && kinds[p] == d.kinds[p]
    ensures var t' := ReaddirTable(t, d.root, d.path, d.names);
            && (d.path != d.root ==> Parent(d.path) in t'.pathToIno)
            && (forall i :: 0 <= i < |d.names| ==> d.path + [d.names[i]] in t'.pathToIno)
            && Entries(t', d.root, d.ino, d.path, d.names, kinds) == EntriesFrom(t, d)
  {
    hide ReaddirTable; hide Consistent; hide Extends;
    ReaddirTableKeeps(t, d.root, d.path, d.names);
  }

  /**
   A listing request on an unchanged directory gives every listed path an inode, changes nothing
   else, and replies with the page it asks for of the directory's listing.
   */
  lemma ListStep(s: State, e: Event, reply: Reply, s': State, d: Directory)
    requires Agrees(s) && Answers(s, e, reply, s') && AsksFor(e, d) && Finds(s, d)
    ensures Consistent(s.table) && Listable(d) && ListingOk(s.fs, d.path, d.names)
    ensures s'.table == ReaddirTable(s.table, d.root, d.path, d.names) && s'.fs.tree == s.fs.tree
    ensures reply == match PageOf(EntriesFrom(s.table, d), e.req.offset, e.req.maxEntries)
                     case None => Panic
                     case Some(page) => Listing(page)
  {
    hide Answers; hide Agrees; hide ReaddirTable; hide PageOf; hide Entries; hide Consistent; hide Rooted; hide EntriesFrom;
    hide Listable; hide MissingErrno; hide ValidName;
    var mid := ListServed(s, e, reply, s', d);
    ListableFrom(mid, d);
    SameEntries(s.table, d, mid.fs.tree);
  }

  /** Between two listing requests of a run the inodes of everything listed stay. */
  lemma StillStoredBetween(ss: seq<State>, es: seq<Event>, d: Directory, before: Turn, after: Turn)
    requires OwnRun(ss, es) && TurnAt(ss, es, d, before) && TurnAt(ss, es, d, after) && before.at < after.at
    ensures StillStored(d, ReaddirTable(ss[before.at].table, d.root, d.path, d.names), ss[after.at].table)
  {
    hide Next; hide Agrees; hide Follows; hide ReaddirTable; hide ListingOk; hide DirectoryCheck; hide OwnEvent; hide Answers;
    var j, k := before.at, after.at;
    InodesFollowObjects(ss, es, j, j);
    InodesFollowObjects(ss, es, j + 1, k);
    ListStep(ss[j], es[j], before.reply, ss[j + 1], d);
    forall p | p in ss[j + 1].table.pathToIno && Unchanged(ss[j], d, p) && Unchanged(ss[k], d, p)
      ensures SameInode(ss[j + 1].table, ss[k].table, p)
    {
      InodeStable(ss[j + 1], ss[k], p);
    }
    forall i | 0 <= i < |d.names|
      ensures SameInode(ss[j + 1].table, ss[k].table, d.path + [d.names[i]])
    {
      assert Unchanged(ss[j], d, d.path + [d.names[i]]) && Unchanged(ss[k], d, d.path + [d.names[i]]);
    }
  }

  /** The listing of the directory as the table of the first turn gives it. */
  ghost function FirstListing(ss: seq<State>, es: seq<Event>, d: Directory, turns: seq<Turn>): (all: seq<DirEntry>)
    requires OwnRun(ss, es) && Lists(ss, es, d, turns) && turns != []
    ensures |all| == |d.names| + 2 < TWO_63 / 2 + 2
  {
    TurnLists(ss, es, d, turns[0]);
    EntriesFrom(ss[turns[0].at].table, d)
  }

  lemma TurnLists(ss: seq<State>, es: seq<Event>, d: Directory, turn: Turn)
    requires OwnRun(ss, es) && TurnAt(ss, es, d, turn)
    ensures Consistent(ss[turn.at].table) && Listable(d) && |d.names| < TWO_63 / 2
    ensures forall i, j :: 0 <= i < j < |d.names| ==> d.names[i] != d.names[j]
    ensures var e := es[turn.at];
            turn.reply == match PageOf(EntriesFrom(ss[turn.at].table, d), e.req.offset, e.req.maxEntries)
                          case None => Panic
                          case Some(page) => Listing(page)
  {
    hide Follows; hide OwnEvent; hide Next; hide Agrees; hide PageOf; hide EntriesFrom; hide Answers; hide ReaddirTable;
    hide Consistent; hide Finds;
    InodesFollowObjects(ss, es, turn.at, turn.at);
    ListStep(ss[turn.at], es[turn.at], turn.reply, ss[turn.at + 1], d);
  }

  /** Every turn finds the same listing. */
  lemma {:induction false} SameListing(ss: seq<State>, es: seq<Event>, d: Directory, turns: seq<Turn>, n: nat)
    requires OwnRun(ss, es) && Lists(ss, es, d, turns) && n < |turns|
    ensures Consistent(ss[turns[n].at].table) && Listable(d)
    ensures EntriesFrom(ss[turns[n].at].table, d) == FirstListing(ss, es, d, turns)
  {
    hide OwnRun; hide Finds; hide Answers; hide EntriesFrom; hide Consistent; hide Listable; hide StillStored; hide PageOf; hide ReaddirTable;
    TurnLists(ss, es, d, turns[n]);
    if n > 0 {
      SameListing(ss, es, d, turns, n - 1);
      assert Resumes(es, turns[n - 1], turns[n]);
      StillStoredBetween(ss, es, d, turns[n - 1], turns[n]);
      EntriesStable(ss[turns[n - 1].at].table, ss[turns[n].at].table, d);
    }
  }

  /** The reply of every turn is a page of that one listing. */
  lemma TurnReply(ss: seq<State>, es: seq<Event>, d: Directory, turns: seq<Turn>, n: nat)
    requires OwnRun(ss, es) && Lists(ss, es, d, turns) && n < |turns|
    requires es[turns[n].at].req.offset <= |d.names| + 2
    ensures var all, req := FirstListing(ss, es, d, turns), es[turns[n].at].req;
            && PageOf(all, req.offset, req.maxEntries).Some?
            && turns[n].reply == Listing(PageOf(all, req.offset, req.maxEntries).value)
            && KeptOf(turns[n]) == Kept(PageOf(all, req.offset, req.maxEntries).value, turns[n].cut)
  {
    hide OwnRun; hide EntriesFrom; hide FirstListing; hide Consistent; hide Listable; hide PageOf; hide Kept; hide Answers;
    SameListing(ss, es, d, turns, n);
    TurnLists(ss, es, d, turns[n]);
    KeptExact(FirstListing(ss, es, d, turns), es[turns[n].at].req.offset, es[turns[n].at].req.maxEntries, turns[n].cut);
  }

  /** After n turns the client holds the first entries of the listing, and the next turn starts after them. */
  lemma {:induction false} TogetherIs(ss: seq<State>, es: seq<Event>, d: Directory, turns: seq<Turn>, n: nat)
    requires OwnRun(ss, es) && Lists(ss, es, d, turns) && turns != [] && n <= |turns|
    ensures var all, got := FirstListing(ss, es, d, turns), Together(turns[..n]);
            && |got| <= |all| && got == Paged(all)[..|got|]
            && (n < |turns| ==> es[turns[n].at].req.offset == |got|)
            && (|got| == |all| || |got| >= n)
  {
    hide OwnRun; hide FirstListing; hide Answers; hide PageOf; hide Finds; hide Together; hide Paged; hide KeptOf; hide Kept;
    hide NextOffset;
    var all := FirstListing(ss, es, d, turns);
    if n == 0 {
      NothingTogether(turns, all);
    } else {
      TogetherIs(ss, es, d, turns, n - 1);
      var got, turn := Together(turns[..n - 1]), turns[n - 1];
      TogetherSnoc(turns, n);
      TurnReply(ss, es, d, turns, n - 1);
      KeptExact(all, |got|, es[turn.at].req.maxEntries, turn.cut);
      TwoStretches(Paged(all), |got|, |got| + |KeptOf(turn)|);
      if n < |turns| {
        assert Resumes(es, turns[n - 1], turns[n]);
      }
    }
  }

  lemma NothingTogether(turns: seq<Turn>, all: seq<DirEntry>)
    ensures Together(turns[..0]) == [] == Paged(all)[..0]
  {
  }

  lemma TogetherSnoc(turns: seq<Turn>, n: nat)
    requires 0 < n <= |turns|
    ensures Together(turns[..n]) == Together(turns[..n - 1]) + KeptOf(turns[n - 1])
  {
    assert turns[..n][..n - 1] == turns[..n - 1];
  }

  lemma TwoStretches<T>(s: seq<T>, m: nat, n: nat)
    requires m <= n <= |s|
    ensures s[..m] + s[m..n] == s[..n]
  {
  }

  /**
   In every run of the mount's own requests whose renames meet the condition of
   `RenameFollowsExactly`, let a client list one directory while its children and its parent
   stay the same objects: from offset zero, resuming each time after the last entry it kept,
   with any page sizes from 1 to 2^31 and any cuts. Then what it kept, put together, is the
   beginning of one listing, each entry once and in order, with one inode per name; as many
   turns as there are entries make it complete; no request panics; and a request at the end is
   answered with an empty page.
   */
  lemma ListingOverRuns(ss: seq<State>, es: seq<Event>, d: Directory, turns: seq<Turn>)
    requires OwnRun(ss, es) && Lists(ss, es, d, turns) && turns != []
    ensures var all := FirstListing(ss, es, d, turns);
            && Together(turns) <= Paged(all)
            && (|turns| >= |all| ==> Together(turns) == Paged(all))
            && (forall n :: 0 <= n < |turns| ==> turns[n].reply.Listing?)
            && (forall n :: 0 <= n < |turns| && es[turns[n].at].req.offset == |all| ==> turns[n].reply == Listing([]))
            && (forall i, j :: 0 <= i < j < |all| ==> all[i].name != all[j].name)
  {
    hide OwnRun; hide Together; hide Paged; hide Answers; hide PageOf; hide Finds;
    var all := FirstListing(ss, es, d, turns);
    assert turns[..|turns|] == turns;
    TogetherIs(ss, es, d, turns, |turns|);
    forall n | 0 <= n < |turns|
      ensures turns[n].reply.Listing?
      ensures es[turns[n].at].req.offset == |all| ==> turns[n].reply == Listing([])
    {
      TogetherIs(ss, es, d, turns, n);
      TurnReply(ss, es, d, turns, n);
      KeptExact(all, es[turns[n].at].req.offset, es[turns[n].at].req.maxEntries, turns[n].cut);
    }
    ListingNames(ss, es, d, turns);
  }

  lemma ListingNames(ss: seq<State>, es: seq<Event>, d: Directory, turns: seq<Turn>)
    requires OwnRun(ss, es) && Lists(ss, es, d, turns) && turns != []
    ensures var all := FirstListing(ss, es, d, turns); forall i, j :: 0 <= i < j < |all| ==> all[i].name != all[j].name
  {
    hide OwnRun; hide EntriesFrom; hide Finds; hide Answers; hide Consistent; hide Listable; hide PageOf;
    TurnLists(ss, es, d, turns[0]);
    forall i, j | 0 <= i < j < |d.names| + 2
      ensures FirstListing(ss, es, d, turns)[i].name != FirstListing(ss, es, d, turns)[j].name
    {
      NamesOnce(ss[turns[0].at].table, d, i, j);
    }
  }
}
