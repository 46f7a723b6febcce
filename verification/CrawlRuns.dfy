/** Whole runs of the folder crawl: coverage and termination of any run, over any folder graph. */
module CrawlRuns {
  import opened Prelude
  import opened Connector
  import opened FolderCrawl

  // ----- One run over an unchanging folder graph ---------------------------------------------------

  /** The saved cursor, and the history of the run: folders listed and changes emitted so far. */
  datatype CrawlState = CrawlState(cursor: ZohoCursor, listed: seq<FolderId>, emitted: seq<ChangeItem>)

  /** The start of a run, the first one or a later one: only the root waits. */
  ghost predicate BeginsRun(from: int, root: FolderId, s: CrawlState) {
    && s.cursor.queue == [FolderCursor(root, 0)] && s.cursor.visited == []
    && FromMs(s.cursor) == from && s.listed == [] && s.emitted == []
  }

  /** A successful call. */
  function CrawlCall(g: Listing, s: CrawlState): CrawlState
    requires s.cursor.queue != []
  {
    var delta := Poll(g, s.cursor, 0);
    CrawlState(delta.nextCursor, s.listed + [s.cursor.queue[0].folderId], s.emitted + delta.changes)
  }

  /** Until the first call of a life is saved, each attempt bootstraps anew, with its own clock reading. */
  function Restamp(s: CrawlState, startedMs: int): CrawlState {
    if s.listed == [] then s.(cursor := s.cursor.(runStartedMs := startedMs)) else s
  }

  /** One call: it succeeds, or it fails and leaves the crawl where it was. */
  ghost predicate CrawlNext(g: Listing, s: CrawlState, s': CrawlState) {
    s.cursor.queue != [] && exists t :: s' == Restamp(s, t) || s' == CrawlCall(g, Restamp(s, t))
  }

  ghost predicate CrawlRun(g: Listing, from: int, root: FolderId, states: seq<CrawlState>) {
    && states != [] && BeginsRun(from, root, states[0])
    && forall i :: 0 <= i < |states| - 1 ==> CrawlNext(g, states[i], states[i + 1])
  }

  /** What a folder holds in the query window of the run. */
  function Children(g: Listing, from: int, f: FolderId): seq<Entry> {
    g(f, from)
  }

  ghost predicate FolderIn(items: seq<Entry>, f: FolderId) {
    exists i :: 0 <= i < |items| && items[i].kind == Some("folder") && items[i].id == f
  }

  ghost predicate Names(g: Listing, from: int, a: FolderId, b: FolderId) {
    FolderIn(Children(g, from, a), b)
  }

  ghost predicate IsPath(g: Listing, from: int, p: seq<FolderId>) {
    p != [] && forall i :: 0 <= i < |p| - 1 ==> Names(g, from, p[i], p[i + 1])
  }

  ghost predicate Reachable(g: Listing, from: int, root: FolderId, f: FolderId) {
    exists p :: IsPath(g, from, p) && p[0] == root && p[|p| - 1] == f
  }

  lemma ReachableRoot(g: Listing, from: int, root: FolderId)
    ensures Reachable(g, from, root, root)
  {
    assert IsPath(g, from, [root]);
  }

  lemma ReachableStep(g: Listing, from: int, root: FolderId, a: FolderId, b: FolderId)
    requires Reachable(g, from, root, a) && Names(g, from, a, b)
    ensures Reachable(g, from, root, b)
  {
    var p :| IsPath(g, from, p) && p[0] == root && p[|p| - 1] == a;
    var q := p + [b];
    forall i | 0 <= i < |q| - 1 ensures Names(g, from, q[i], q[i + 1]) {
      assert i < |p| - 1 ==> Names(g, from, p[i], p[i + 1]);
    }
    assert IsPath(g, from, q);
  }

  // ----- Facts about the discovery of folders ------------------------------------------------------

  lemma FolderInAppend(a: seq<Entry>, b: seq<Entry>, f: FolderId)
    ensures FolderIn(a + b, f) <==> FolderIn(a, f) || FolderIn(b, f)
  {
    if FolderIn(a, f) {
      var i :| 0 <= i < |a| && a[i].kind == Some("folder") && a[i].id == f;
      assert (a + b)[i] == a[i];
    }
    if FolderIn(b, f) {
      var i :| 0 <= i < |b| && b[i].kind == Some("folder") && b[i].id == f;
      assert (a + b)[|a| + i] == b[i];
    }
  }

  lemma {:induction false} NewFoldersAre(items: seq<Entry>, visited: seq<FolderId>, f: FolderId)
    ensures f in NewFolders(items, visited) <==> FolderIn(items, f) && f !in visited
    ensures NoDuplicates(NewFolders(items, visited))
  {
    if items != [] {
      var front, last := items[..|items| - 1], items[|items| - 1];
      NewFoldersAre(front, visited, f);
      NewFoldersAre(front, visited, last.id);
      FolderInAppend(front, [last], f);
      assert items == front + [last];
      assert FolderIn([last], f) <==> last.IsFolder() && last.id == f by {
        assert [last][0] == last;
      }
    }
  }

  lemma {:induction false} NewFoldersAppend(a: seq<Entry>, b: seq<Entry>)
    ensures NewFolders(a + b, []) == NewFolders(a, []) + NewFolders(b, NewFolders(a, []))
  {
    if b == [] {
      assert a + b == a;
    } else {
      var front, last := b[..|b| - 1], b[|b| - 1];
      NewFoldersAppend(a, front);
      assert (a + b)[..|a + b| - 1] == a + front;
    }
  }

  /** Everything the listed folders hold, in listing order. */
  function Entries(g: Listing, from: int, listed: seq<FolderId>): seq<Entry> {
    if listed == [] then [] else Entries(g, from, listed[..|listed| - 1]) + Children(g, from, listed[|listed| - 1])
  }

  /** One change per file entry, for each folder that lists it. */
  function Emissions(g: Listing, from: int, listed: seq<FolderId>): seq<ChangeItem> {
    if listed == [] then []
    else
      var f := listed[|listed| - 1];
      Emissions(g, from, listed[..|listed| - 1]) + FileChanges(Children(g, from, f), f)
  }

  lemma {:induction false} EntriesNamed(g: Listing, from: int, listed: seq<FolderId>, f: FolderId)
    ensures FolderIn(Entries(g, from, listed), f) <==> exists a :: a in listed && Names(g, from, a, f)
  {
    if listed != [] {
      var front, last := listed[..|listed| - 1], listed[|listed| - 1];
      EntriesNamed(g, from, front, f);
      FolderInAppend(Entries(g, from, front), Children(g, from, last), f);
      assert FolderIn(Entries(g, from, listed), f) <==> FolderIn(Entries(g, from, front), f) || Names(g, from, last, f);
      hide Names, FolderIn, Entries;
      assert listed == front + [last];
      if exists a :: a in front && Names(g, from, a, f) {
        var a :| a in front && Names(g, from, a, f);
        assert a in listed;
      }
      assert last in listed;
    }
  }

  lemma ListOneMore(g: Listing, from: int, listed: seq<FolderId>, f: FolderId)
    ensures Entries(g, from, listed + [f]) == Entries(g, from, listed) + Children(g, from, f)
    ensures Emissions(g, from, listed + [f]) == Emissions(g, from, listed) + FileChanges(Children(g, from, f), f)
  {
    assert (listed + [f])[..|listed|] == listed;
  }

  // ----- The invariant of a run ---------------------------------------------------------------------

  function QueueIds(queue: seq<FolderCursor>): (r: seq<FolderId>)
    ensures |r| == |queue| && forall i :: 0 <= i < |r| ==> r[i] == queue[i].folderId
  {
    seq(|queue|, i requires 0 <= i < |queue| => queue[i].folderId)
  }

  /**
   * The folders listed, followed by those waiting, are the root and the visited list, in order;
   * and the visited list is what the listed folders named, in order of first appearance.
   */
  ghost predicate CrawlInv(g: Listing, from: int, root: FolderId, s: CrawlState) {
    && FromMs(s.cursor) == from
    && [root] + s.cursor.visited == s.listed + QueueIds(s.cursor.queue)
    && s.cursor.visited == NewFolders(Entries(g, from, s.listed), [])
    && s.emitted == Emissions(g, from, s.listed)
    && (forall c :: c in s.cursor.queue ==> c.nextOffset == 0)
  }

  lemma CrawlStepKeepsInv(g: Listing, from: int, root: FolderId, s: CrawlState)
    requires CrawlInv(g, from, root, s) && s.cursor.queue != []
    ensures CrawlInv(g, from, root, CrawlCall(g, s))
  {
    var s' := CrawlCall(g, s);
    var f := s.cursor.queue[0].folderId;
    var items := Children(g, from, f);
    assert s.cursor.queue[0] in s.cursor.queue;
    assert Unread(g, s.cursor) == items;
    var found := NewFolders(items, s.cursor.visited);
    assert s'.cursor.visited == s.cursor.visited + found;
    assert s'.cursor.queue == s.cursor.queue[1..] + AtStart(found);
    assert s'.emitted == s.emitted + FileChanges(items, f);
    hide CrawlCall, Poll, NewFolders, Entries, Emissions, FileChanges, QueueIds;
    ListOneMore(g, from, s.listed, f);
    NewFoldersAppend(Entries(g, from, s.listed), items);
    QueueAdvances(s.cursor.queue, found);
    Regroup([root], s.cursor.visited, s.listed, QueueIds(s.cursor.queue), found, f, QueueIds(s'.cursor.queue));
  }

  lemma Regroup<T>(r: seq<T>, v: seq<T>, l: seq<T>, q: seq<T>, found: seq<T>, f: T, q': seq<T>)
    requires r + v == l + q && q + found == [f] + q'
    ensures r + (v + found) == l + [f] + q'
  {
    assert r + (v + found) == r + v + found == l + q + found == l + (q + found) == l + ([f] + q');
  }

  lemma QueueAdvances(queue: seq<FolderCursor>, found: seq<FolderId>)
    requires queue != []
    ensures QueueIds(queue) + found == [queue[0].folderId] + QueueIds(queue[1..] + AtStart(found))
    ensures forall c :: c in queue[1..] + AtStart(found) ==> c in queue || c.nextOffset == 0
  {
  }

  lemma BeginInv(g: Listing, from: int, root: FolderId, s: CrawlState)
    requires BeginsRun(from, root, s)
    ensures CrawlInv(g, from, root, s) && AllReachable(g, from, root, s)
  {
  }

  /** Everything found so far is reachable. */
  ghost predicate AllReachable(g: Listing, from: int, root: FolderId, s: CrawlState) {
    forall f :: f in s.cursor.visited ==> Reachable(g, from, root, f)
  }

  lemma KnownFolders(g: Listing, from: int, root: FolderId, s: CrawlState, f: FolderId)
    requires CrawlInv(g, from, root, s) && AllReachable(g, from, root, s)
    requires f in s.listed || f in QueueIds(s.cursor.queue)
    ensures Reachable(g, from, root, f)
  {
    ReachableRoot(g, from, root);
    hide Reachable;
    assert f in s.listed + QueueIds(s.cursor.queue);
    assert f in [root] + s.cursor.visited;
  }

  lemma CrawlStepKeepsReachable(g: Listing, from: int, root: FolderId, s: CrawlState)
    requires CrawlInv(g, from, root, s) && AllReachable(g, from, root, s) && s.cursor.queue != []
    ensures AllReachable(g, from, root, CrawlCall(g, s))
  {
    var f := s.cursor.queue[0].folderId;
    assert s.cursor.queue[0] in s.cursor.queue;
    assert QueueIds(s.cursor.queue)[0] == f;
    KnownFolders(g, from, root, s, f);
    var items := Children(g, from, f);
    assert Unread(g, s.cursor) == items;
    var visited' := CrawlCall(g, s).cursor.visited;
    assert visited' == s.cursor.visited + NewFolders(items, s.cursor.visited);
    hide CrawlInv, Reachable, CrawlCall, FolderIn;
    forall b | b in visited' ensures Reachable(g, from, root, b) {
      if b !in s.cursor.visited {
        NewFoldersAre(items, s.cursor.visited, b);
        ReachableStep(g, from, root, f, b);
      }
    }
  }

  lemma RestampKeeps(g: Listing, from: int, root: FolderId, s: CrawlState, t: int)
    requires CrawlInv(g, from, root, s) && AllReachable(g, from, root, s)
    ensures CrawlInv(g, from, root, Restamp(s, t)) && AllReachable(g, from, root, Restamp(s, t))
    ensures Restamp(s, t).cursor.queue == s.cursor.queue
  {
    hide Reachable, NewFolders, Entries, Emissions;
  }

  /** Every call keeps the invariant and the reachability of what it found, whether it succeeds or fails. */
  lemma NextKeeps(g: Listing, from: int, root: FolderId, s: CrawlState, s': CrawlState)
    requires CrawlInv(g, from, root, s) && AllReachable(g, from, root, s) && CrawlNext(g, s, s')
    ensures CrawlInv(g, from, root, s') && AllReachable(g, from, root, s')
  {
    hide CrawlInv, AllReachable, CrawlCall;
    var t :| s' == Restamp(s, t) || s' == CrawlCall(g, Restamp(s, t));
    RestampKeeps(g, from, root, s, t);
    if s' == CrawlCall(g, Restamp(s, t)) {
      CrawlStepKeepsInv(g, from, root, Restamp(s, t));
      CrawlStepKeepsReachable(g, from, root, Restamp(s, t));
    }
  }

  lemma {:induction false} CrawlRunInv(g: Listing, from: int, root: FolderId, states: seq<CrawlState>)
    requires CrawlRun(g, from, root, states)
    ensures CrawlInv(g, from, root, states[|states| - 1]) && AllReachable(g, from, root, states[|states| - 1])
  {
    var n := |states| - 1;
    if n == 0 {
      BeginInv(g, from, root, states[0]);
    } else {
      var front := states[..n];
      hide CrawlInv, AllReachable, CrawlCall;
      forall i | 0 <= i < |front| - 1 ensures CrawlNext(g, front[i], front[i + 1]) {
        assert CrawlNext(g, states[i], states[i + 1]);
      }
      CrawlRunInv(g, from, root, front);
      assert CrawlNext(g, states[n - 1], states[n - 1 + 1]);
      NextKeeps(g, from, root, states[n - 1], states[n]);
    }
  }

  // ----- Coverage -----------------------------------------------------------------------------------

  lemma VisitedIsNamed(g: Listing, from: int, root: FolderId, s: CrawlState, f: FolderId)
    requires CrawlInv(g, from, root, s)
    ensures f in s.cursor.visited <==> exists a :: a in s.listed && Names(g, from, a, f)
    ensures NoDuplicates(s.cursor.visited)
  {
    NewFoldersAre(Entries(g, from, s.listed), [], f);
    EntriesNamed(g, from, s.listed, f);
  }

  lemma {:induction false} PathListed(g: Listing, from: int, root: FolderId, s: CrawlState, p: seq<FolderId>)
    requires CrawlInv(g, from, root, s) && s.cursor.queue == [] && IsPath(g, from, p) && p[0] == root
    ensures p[|p| - 1] in s.listed
  {
    assert s.listed == [root] + s.cursor.visited by {
      assert QueueIds(s.cursor.queue) == [];
    }
    var n := |p| - 1;
    if n == 0 {
      assert root in [root] + s.cursor.visited;
    } else {
      var front := p[..n];
      forall i | 0 <= i < |front| - 1 ensures Names(g, from, front[i], front[i + 1]) {
        assert Names(g, from, p[i], p[i + 1]);
      }
      PathListed(g, from, root, s, front);
      assert Names(g, from, p[n - 1], p[n - 1 + 1]);
      VisitedIsNamed(g, from, root, s, p[n]);
    }
  }

  /** A folder that some reachable listing names. */
  ghost predicate IsNamed(g: Listing, from: int, root: FolderId, f: FolderId) {
    exists a :: Reachable(g, from, root, a) && Names(g, from, a, f)
  }

  /**
   * When the queue is empty, exactly the reachable folders have been listed: the root once at the
   * start, and once more only if some reachable listing names it, every other folder exactly once.
   * Every file entry has been emitted once for each folder that lists it.
   */
  lemma CrawlCoverage(g: Listing, from: int, root: FolderId, states: seq<CrawlState>, f: FolderId)
    requires CrawlRun(g, from, root, states) && states[|states| - 1].cursor.queue == []
    ensures var s := states[|states| - 1];
      && s.listed == [root] + s.cursor.visited
      && NoDuplicates(s.cursor.visited)
      && (f in s.listed <==> Reachable(g, from, root, f))
      && (f in s.cursor.visited <==> IsNamed(g, from, root, f))
      && s.emitted == Emissions(g, from, s.listed)
  {
    var s := states[|states| - 1];
    CrawlRunInv(g, from, root, states);
    assert s.listed == [root] + s.cursor.visited by {
      assert QueueIds(s.cursor.queue) == [];
    }
    VisitedIsNamed(g, from, root, s, f);
    ListedIffReachable(g, from, root, s, f);
    hide CrawlRun, CrawlInv, Reachable, Names;
    if f in s.cursor.visited {
      var a :| a in s.listed && Names(g, from, a, f);
      ListedIffReachable(g, from, root, s, a);
    }
    if IsNamed(g, from, root, f) {
      var a :| Reachable(g, from, root, a) && Names(g, from, a, f);
      ListedIffReachable(g, from, root, s, a);
    }
  }

  lemma ListedIffReachable(g: Listing, from: int, root: FolderId, s: CrawlState, f: FolderId)
    requires CrawlInv(g, from, root, s) && AllReachable(g, from, root, s) && s.cursor.queue == []
    ensures f in s.listed <==> Reachable(g, from, root, f)
  {
    if f in s.listed {
      KnownFolders(g, from, root, s, f);
    }
    if Reachable(g, from, root, f) {
      var p :| IsPath(g, from, p) && p[0] == root && p[|p| - 1] == f;
      PathListed(g, from, root, s, p);
    }
  }

  // ----- Termination ---------------------------------------------------------------------------------

  /** The finite set of folders that reachable listings name; `universe` is any finite set that holds them. */
  ghost function Named(g: Listing, from: int, root: FolderId, universe: set<FolderId>): set<FolderId> {
    set f | f in universe && IsNamed(g, from, root, f)
  }

  ghost predicate FiniteGraph(g: Listing, from: int, root: FolderId, universe: set<FolderId>) {
    forall f :: IsNamed(g, from, root, f) ==> f in universe
  }

  function SetOf<T>(s: seq<T>): set<T> {
    set x | x in s
  }

  /** Folders named but not yet discovered, plus folders waiting. */
  ghost function Measure(g: Listing, from: int, root: FolderId, universe: set<FolderId>, s: CrawlState): nat {
    |Named(g, from, root, universe) - SetOf(s.cursor.visited)| + |s.cursor.queue|
  }

  lemma {:induction false} SetOfDistinct<T>(s: seq<T>)
    requires NoDuplicates(s)
    ensures |SetOf(s)| == |s|
  {
    if s == [] {
      assert SetOf(s) == {};
    } else {
      var front, last := s[..|s| - 1], s[|s| - 1];
      SetOfDistinct(front);
      assert SetOf(s) == SetOf(front) + {last};
      assert last !in front;
    }
  }

  lemma VisitedWithinNamed(g: Listing, from: int, root: FolderId, universe: set<FolderId>, s: CrawlState)
    requires CrawlInv(g, from, root, s) && AllReachable(g, from, root, s) && FiniteGraph(g, from, root, universe)
    ensures SetOf(s.cursor.visited) <= Named(g, from, root, universe)
    ensures |SetOf(s.cursor.visited)| == |s.cursor.visited|
  {
    VisitedIsNamed(g, from, root, s, root);
    SetOfDistinct(s.cursor.visited);
    forall f | f in SetOf(s.cursor.visited) ensures f in Named(g, from, root, universe) {
      VisitedIsNamed(g, from, root, s, f);
      var a :| a in s.listed && Names(g, from, a, f);
      KnownFolders(g, from, root, s, a);
      assert IsNamed(g, from, root, f);
    }
  }

  /**
   * Each successful call lowers the measure by one and each failed call leaves it; it is zero
   * exactly when the queue is empty. So a run is complete after one successful call for the root
   * and one for each named folder, and not before.
   */
  lemma CrawlTerminates(g: Listing, from: int, root: FolderId, universe: set<FolderId>, states: seq<CrawlState>)
    requires CrawlRun(g, from, root, states) && FiniteGraph(g, from, root, universe)
    ensures var s := states[|states| - 1];
      && |s.listed| + Measure(g, from, root, universe, s) == |Named(g, from, root, universe)| + 1
      && (s.cursor.queue == [] <==> Measure(g, from, root, universe, s) == 0)
      && (s.cursor.queue == [] <==> |s.listed| == |Named(g, from, root, universe)| + 1)
  {
    var s := states[|states| - 1];
    CrawlRunInv(g, from, root, states);
    VisitedWithinNamed(g, from, root, universe, s);
    var named, visited := Named(g, from, root, universe), SetOf(s.cursor.visited);
    assert |named - visited| == |named| - |visited| by {
      assert named == (named - visited) + visited;
    }
    assert |[root] + s.cursor.visited| == |s.listed + QueueIds(s.cursor.queue)|;
    if s.cursor.queue == [] {
      forall f | f in named ensures f in visited {
        CrawlCoverage(g, from, root, states, f);
      }
      assert named - visited == {};
    }
  }

  // ----- Files ---------------------------------------------------------------------------------------

  /** A reachable folder lists this entry, and it is a file. */
  ghost predicate FileIn(g: Listing, from: int, root: FolderId, f: FolderId, e: Entry) {
    Reachable(g, from, root, f) && e in Children(g, from, f) && e.kind != Some("folder")
  }

  /** The change that reports this file of this folder. */
  ghost predicate Reports(c: ChangeItem, e: Entry, f: FolderId) {
    && c.remoteId == e.id && c.parentId == Some(f) && c.name == e.name.GetOr("")
    && (c.deleted <==> e.status == Some("deleted"))
  }

  /** The positions of the files of a listing, in order. */
  function FilePositions(items: seq<Entry>): (positions: seq<nat>)
    ensures forall k :: 0 <= k < |positions| ==> positions[k] < |items| && items[positions[k]].kind != Some("folder")
    ensures forall k, l :: 0 <= k < l < |positions| ==> positions[k] < positions[l]
    ensures forall i: nat :: i < |items| && items[i].kind != Some("folder") ==> i in positions
  {
    if items == [] then []
    else
      var earlier := FilePositions(items[..|items| - 1]);
      if items[|items| - 1].kind != Some("folder") then earlier + [|items| - 1] else earlier
  }

  /** One change for each file of a listing, in the listing's order, and each reports its file. */
  lemma {:induction false} FilesReportedOnce(items: seq<Entry>, folder: FolderId)
    ensures |FileChanges(items, folder)| == |FilePositions(items)|
    ensures forall k :: 0 <= k < |FilePositions(items)| ==>
              Reports(FileChanges(items, folder)[k], items[FilePositions(items)[k]], folder)
  {
    if items != [] {
      FilesReportedOnce(items[..|items| - 1], folder);
    }
  }

  lemma FileChangesAre(items: seq<Entry>, folder: FolderId, c: ChangeItem)
    ensures c in FileChanges(items, folder)
       <==> exists e :: e in items && e.kind != Some("folder") && Reports(c, e, folder)
  {
    var changes, positions := FileChanges(items, folder), FilePositions(items);
    FilesReportedOnce(items, folder);
    hide FileChanges, FilePositions;
    if c in changes {
      var k :| 0 <= k < |changes| && changes[k] == c;
      assert Reports(c, items[positions[k]], folder) && items[positions[k]] in items;
    }
    if exists e :: e in items && e.kind != Some("folder") && Reports(c, e, folder) {
      var e :| e in items && e.kind != Some("folder") && Reports(c, e, folder);
      var i :| 0 <= i < |items| && items[i] == e;
      var k :| 0 <= k < |positions| && positions[k] == i;
      assert Reports(changes[k], e, folder);
      assert changes[k] == c;
    }
  }

  lemma {:induction false} EmissionsAre(g: Listing, from: int, listed: seq<FolderId>, c: ChangeItem)
    ensures c in Emissions(g, from, listed) <==> exists f :: f in listed && c in FileChanges(Children(g, from, f), f)
  {
    if listed != [] {
      var front, last := listed[..|listed| - 1], listed[|listed| - 1];
      EmissionsAre(g, from, front, c);
      hide FileChanges;
      assert listed == front + [last] && last in listed;
      if exists f :: f in front && c in FileChanges(Children(g, from, f), f) {
        var f :| f in front && c in FileChanges(Children(g, from, f), f);
        assert f in listed;
      }
    }
  }

  /** Whatever a run has emitted reports a file of a folder that the run can reach. */
  lemma EmittedIsFile(g: Listing, from: int, root: FolderId, states: seq<CrawlState>, c: ChangeItem)
    returns (f: FolderId, e: Entry)
    requires CrawlRun(g, from, root, states) && c in states[|states| - 1].emitted
    ensures FileIn(g, from, root, f, e) && Reports(c, e, f)
  {
    assert states != [];
    var s := states[|states| - 1];
    CrawlRunInv(g, from, root, states);
    hide CrawlRun, Reachable, Emissions, FileChanges, Reports;
    EmissionsAre(g, from, s.listed, c);
    f :| f in s.listed && c in FileChanges(Children(g, from, f), f);
    FileChangesAre(Children(g, from, f), f, c);
    e :| e in Children(g, from, f) && e.kind != Some("folder") && Reports(c, e, f);
    KnownFolders(g, from, root, s, f);
  }

  /** What the finished crawl emitted: a report of each file of each reachable folder, and nothing else. */
  lemma EmittedIffFile(g: Listing, from: int, root: FolderId, states: seq<CrawlState>, c: ChangeItem)
    requires CrawlRun(g, from, root, states) && states[|states| - 1].cursor.queue == []
    ensures c in states[|states| - 1].emitted <==> exists f, e :: FileIn(g, from, root, f, e) && Reports(c, e, f)
  {
    assert states != [];
    hide CrawlRun, Reachable, Emissions, FileChanges, Reports;
    var s := states[|states| - 1];
    if c in s.emitted {
      var f, e := EmittedIsFile(g, from, root, states, c);
    }
    if exists f, e :: FileIn(g, from, root, f, e) && Reports(c, e, f) {
      var f, e :| FileIn(g, from, root, f, e) && Reports(c, e, f);
      CrawlCoverage(g, from, root, states, f);
      EmissionsAre(g, from, s.listed, c);
      FileChangesAre(Children(g, from, f), f, c);
    }
  }
}
