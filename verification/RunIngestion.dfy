/** The crawl and the sync together: what the chunk table holds once a crawl is complete. */
module RunIngestion {
  import opened Prelude
  import opened Connector
  import opened Sync
  import opened SyncRuns
  import opened SyncTables
  import Chunker
  import opened FolderCrawl
  import opened CrawlRuns

  // ----- One polling cycle ----------------------------------------------------------------------------

  /** What the next successful call reports. */
  function Pending(g: Listing, s: CrawlState): seq<ChangeItem> {
    if s.cursor.queue == [] then [] else Poll(g, s.cursor, 0).changes
  }

  ghost predicate CutCycle(job: Job, source: Source, changes: seq<ChangeItem>, before: seq<Row>, after: seq<Row>) {
    exists effects :: PartialCycle(job, source, changes, before, after, effects)
  }

  ghost predicate EndedCycle(job: Job, source: Source, changes: seq<ChangeItem>, before: seq<Row>, after: seq<Row>, item: string) {
    exists effects :: FinishedCycle(job, source, changes, before, after, effects, item)
  }

  /**
   * One cycle, as one item sees it. Either it is cut, or the call fails, and the crawl stays where it was;
   * or it ends, the crawl moves on, and every change to this item was applied. The other items may fail.
   */
  ghost predicate CycleStep(job: Job, source: Source, g: Listing, s: CrawlState, s': CrawlState,
                            before: seq<Row>, after: seq<Row>, item: string) {
    && s.cursor.queue != []
    && exists t ::
         || (s' == Restamp(s, t) && CutCycle(job, source, Pending(g, s), before, after))
         || (s' == CrawlCall(g, Restamp(s, t)) && EndedCycle(job, source, Pending(g, s), before, after, item))
  }

  /** The cycles of one run of the crawl, over a table that starts with anything in it. */
  ghost predicate Ingestion(job: Job, source: Source, g: Listing, from: int, root: FolderId,
                            states: seq<CrawlState>, tables: seq<seq<Row>>, item: string) {
    && states != [] && BeginsRun(from, root, states[0]) && |tables| == |states|
    && forall i :: 0 <= i < |states| - 1 ==>
         CycleStep(job, source, g, states[i], states[i + 1], tables[i], tables[i + 1], item)
  }

  lemma IngestionCrawls(job: Job, source: Source, g: Listing, from: int, root: FolderId,
                        states: seq<CrawlState>, tables: seq<seq<Row>>, item: string)
    requires Ingestion(job, source, g, from, root, states, tables, item)
    ensures CrawlRun(g, from, root, states)
  {
    hide CutCycle, EndedCycle, BeginsRun, CrawlCall, Restamp;
    forall i | 0 <= i < |states| - 1 ensures CrawlNext(g, states[i], states[i + 1]) {
      assert CycleStep(job, source, g, states[i], states[i + 1], tables[i], tables[i + 1], item);
    }
  }

  // ----- The table along the run ------------------------------------------------------------------------

  /** The rows of an item once everything on the list was applied to a table. */
  function Applied(job: Job, source: Source, changes: seq<ChangeItem>, rows: seq<Row>, item: string): seq<ChunkView> {
    LastWritten(job, source, changes, item, |changes|, View(job, rows, item))
  }

  lemma {:induction false} LastWrittenConcat(job: Job, source: Source, a: seq<ChangeItem>, b: seq<ChangeItem>, n: nat,
                                             item: string, initial: seq<ChunkView>)
    requires n <= |b|
    ensures LastWritten(job, source, a + b, item, |a| + n, initial)
         == LastWritten(job, source, b, item, n, LastWritten(job, source, a, item, |a|, initial))
  {
    hide Plan;
    if 0 < n {
      LastWrittenConcat(job, source, a, b, n - 1, item, initial);
      assert (a + b)[|a| + n - 1] == b[n - 1];
    } else {
      LastWriterPrefix(job, source, a, b, |a|, item);
    }
  }

  lemma {:induction false} LastWriterPrefix(job: Job, source: Source, a: seq<ChangeItem>, b: seq<ChangeItem>, n: nat, item: string)
    requires n <= |a|
    ensures LastWriter(job, source, a + b, item, n) == LastWriter(job, source, a, item, n)
    ensures LastWriter(job, source, a, item, n).Some? ==>
              (a + b)[LastWriter(job, source, a, item, n).value] == a[LastWriter(job, source, a, item, n).value]
  {
    hide Plan;
    if 0 < n {
      LastWriterPrefix(job, source, a, b, n - 1, item);
    }
  }

  /** Unless the pending list is about to write the item, its rows are those that the changes so far leave. */
  ghost predicate Settled(job: Job, source: Source, done: seq<ChangeItem>, pending: seq<ChangeItem>, start: seq<Row>,
                          rows: seq<Row>, item: string) {
    Unwritten(job, source, pending, item) ==> View(job, rows, item) == Applied(job, source, done, start, item)
  }

  /** A cut cycle touches only items that the pending list writes. */
  lemma CutKeepsSettled(job: Job, source: Source, done: seq<ChangeItem>, pending: seq<ChangeItem>,
                        start: seq<Row>, before: seq<Row>, after: seq<Row>, item: string)
    requires Settled(job, source, done, pending, start, before, item) && CutCycle(job, source, pending, before, after)
    ensures Settled(job, source, done, pending, start, after, item)
  {
    hide View, Plan, Final, Applied;
    var effects :| PartialCycle(job, source, pending, before, after, effects);
    if Unwritten(job, source, pending, item) {
      UnwrittenKept(job, source, pending, effects, |effects|, item, View(job, before, item));
    }
  }

  /** A cycle that ends repairs, for an item that works in it, whatever cut cycles left behind. */
  lemma EndedSettles(job: Job, source: Source, done: seq<ChangeItem>, pending: seq<ChangeItem>,
                     start: seq<Row>, before: seq<Row>, after: seq<Row>, item: string)
    requires Settled(job, source, done, pending, start, before, item)
    requires EndedCycle(job, source, pending, before, after, item)
    ensures View(job, after, item) == Applied(job, source, done + pending, start, item)
  {
    hide View, Plan, Final, FinishedCycle;
    var effects :| FinishedCycle(job, source, pending, before, after, effects, item);
    LastWriterDecides(job, source, pending, before, after, effects, item);
    LastWrittenConcat(job, source, done, pending, |pending|, item, View(job, start, item));
    hide LastWriter;
    if !Unwritten(job, source, pending, item) {
      SomeWriter(job, source, pending, item);
    } else {
      NoWriter(job, source, pending, item);
    }
  }

  lemma SomeWriter(job: Job, source: Source, changes: seq<ChangeItem>, item: string)
    requires !Unwritten(job, source, changes, item)
    ensures LastWriter(job, source, changes, item, |changes|).Some?
  {
    hide Plan;
  }

  lemma NoWriter(job: Job, source: Source, changes: seq<ChangeItem>, item: string)
    requires Unwritten(job, source, changes, item)
    ensures LastWriter(job, source, changes, item, |changes|).None?
  {
    hide Plan;
  }

  lemma StepSettles(job: Job, source: Source, g: Listing, s: CrawlState, s': CrawlState, start: seq<Row>,
                    before: seq<Row>, after: seq<Row>, item: string)
    requires CycleStep(job, source, g, s, s', before, after, item)
    requires Settled(job, source, s.emitted, Pending(g, s), start, before, item)
    ensures Settled(job, source, s'.emitted, Pending(g, s'), start, after, item)
  {
    hide Settled, CutCycle, EndedCycle, Applied, Pending, CrawlCall;
    var t :| || (s' == Restamp(s, t) && CutCycle(job, source, Pending(g, s), before, after))
             || (s' == CrawlCall(g, Restamp(s, t)) && EndedCycle(job, source, Pending(g, s), before, after, item));
    MoveEmits(g, s, t);
    if s' == Restamp(s, t) && CutCycle(job, source, Pending(g, s), before, after) {
      CutKeepsSettled(job, source, s.emitted, Pending(g, s), start, before, after, item);
    } else {
      EndedSettles(job, source, s.emitted, Pending(g, s), start, before, after, item);
      AppliedSettles(job, source, s'.emitted, Pending(g, s'), start, after, item);
    }
  }

  /** A call emits what was pending, and a repeated first call leaves that as it was. */
  lemma MoveEmits(g: Listing, s: CrawlState, t: int)
    requires s.cursor.queue != []
    ensures Restamp(s, t).cursor.queue != []
    ensures Restamp(s, t).emitted == s.emitted && Pending(g, Restamp(s, t)) == Pending(g, s)
    ensures CrawlCall(g, Restamp(s, t)).emitted == s.emitted + Pending(g, s)
  {
    hide NewFolders, FileChanges;
  }

  lemma AppliedSettles(job: Job, source: Source, done: seq<ChangeItem>, pending: seq<ChangeItem>, start: seq<Row>,
                       rows: seq<Row>, item: string)
    requires View(job, rows, item) == Applied(job, source, done, start, item)
    ensures Settled(job, source, done, pending, start, rows, item)
  {
  }

  /** Whatever was cut or failed on the way, the item stands as if everything emitted so far had been applied once, in order. */
  lemma {:induction false} EmittedApplied(job: Job, source: Source, g: Listing, from: int, root: FolderId,
                                          states: seq<CrawlState>, tables: seq<seq<Row>>, n: nat, item: string)
    requires Ingestion(job, source, g, from, root, states, tables, item) && n < |states|
    ensures Settled(job, source, states[n].emitted, Pending(g, states[n]), tables[0], tables[n], item)
  {
    hide Settled, CycleStep, Pending;
    if n == 0 {
      assert Settled(job, source, [], Pending(g, states[0]), tables[0], tables[0], item) by {
        NothingDone(job, source, Pending(g, states[0]), tables[0], item);
      }
    } else {
      EmittedApplied(job, source, g, from, root, states, tables, n - 1, item);
      assert CycleStep(job, source, g, states[n - 1], states[n - 1 + 1], tables[n - 1], tables[n - 1 + 1], item);
      StepSettles(job, source, g, states[n - 1], states[n], tables[0], tables[n - 1], tables[n], item);
    }
  }

  lemma NothingDone(job: Job, source: Source, pending: seq<ChangeItem>, rows: seq<Row>, item: string)
    ensures Settled(job, source, [], pending, rows, rows, item)
  {
    hide View;
  }

  // ----- Files and their rows ---------------------------------------------------------------------------

  /** The rows of an item after the run are those of its last writer among the emitted changes, or the old ones. */
  lemma RowsAfterRun(job: Job, source: Source, g: Listing, from: int, root: FolderId,
                     states: seq<CrawlState>, tables: seq<seq<Row>>, item: string)
    requires Ingestion(job, source, g, from, root, states, tables, item) && states[|states| - 1].cursor.queue == []
    ensures View(job, tables[|states| - 1], item)
         == Applied(job, source, states[|states| - 1].emitted, tables[0], item)
  {
    hide View, Plan, Applied, CycleStep;
    EmittedApplied(job, source, g, from, root, states, tables, |states| - 1, item);
    assert Unwritten(job, source, Pending(g, states[|states| - 1]), item);
  }

  /** The same file, wherever it is listed. */
  ghost predicate ListedAlike(g: Listing, from: int, root: FolderId, e: Entry) {
    forall f', e' :: FileIn(g, from, root, f', e') && e'.id == e.id ==>
      e'.name.GetOr("") == e.name.GetOr("") && (e'.status == Some("deleted") <==> e.status == Some("deleted"))
  }

  lemma SamePlan(job: Job, source: Source, c: ChangeItem, c': ChangeItem)
    requires c'.remoteId == c.remoteId && c'.name == c.name && c'.deleted == c.deleted
    ensures Plan(job, source, c') == Plan(job, source, c)
  {
    hide Chunked, Written;
  }

  /** A file that the run can reach, listed alike everywhere, ends as its change plans, if it plans anything. */
  lemma ReachableFilePlanned(job: Job, source: Source, g: Listing, from: int, root: FolderId,
                             states: seq<CrawlState>, tables: seq<seq<Row>>, f: FolderId, e: Entry, c: ChangeItem)
    requires Ingestion(job, source, g, from, root, states, tables, e.id) && states[|states| - 1].cursor.queue == []
    requires FileIn(g, from, root, f, e) && ListedAlike(g, from, root, e) && Reports(c, e, f)
    requires Plan(job, source, c).Some?
    ensures View(job, tables[|states| - 1], e.id) == Plan(job, source, c).value
  {
    assert states != [];
    hide View, Plan, FileIn, Ingestion, LastWriter;
    var emitted := states[|states| - 1].emitted;
    IngestionCrawls(job, source, g, from, root, states, tables, e.id);
    RowsAfterRun(job, source, g, from, root, states, tables, e.id);
    EmittedIffFile(g, from, root, states, c);
    WriterAmong(job, source, emitted, c);
    var writer := emitted[LastWriter(job, source, emitted, e.id, |emitted|).value];
    var f', e' := EmittedIsFile(g, from, root, states, writer);
    SamePlan(job, source, c, writer);
  }

  /**
   * End to end: once a run of the crawl is complete, through any number of failed calls, cut cycles and other
   * items failing, a file that the run can reach, under one name and status wherever it is listed, that is not
   * deleted and whose text is not blank, is stored chunk by chunk, provided its own steps worked in the cycles
   * that ended.
   */
  lemma ReachableFileIsIngested(job: Job, source: Source, g: Listing, from: int, root: FolderId,
                                states: seq<CrawlState>, tables: seq<seq<Row>>, f: FolderId, e: Entry, text: string)
    requires Ingestion(job, source, g, from, root, states, tables, e.id) && states[|states| - 1].cursor.queue == []
    requires FileIn(g, from, root, f, e) && ListedAlike(g, from, root, e) && e.status != Some("deleted")
    requires text == job.extract(source(e.id), e.name.GetOr("")) && !Blank(text)
    ensures StoredAs(job, tables[|states| - 1], e.id, e.name.GetOr(""), text)
  {
    var c := ChangeItem(e.id, Some(f), e.name.GetOr(""), false);
    TextPlanned(job, source, c, text);
    hide StoredAs, View, Plan, Written, Chunker.Chunks, FileIn, Ingestion, ListedAlike;
    ReachableFilePlanned(job, source, g, from, root, states, tables, f, e, c);
    ViewIsStored(job, tables[|states| - 1], e.id, e.name.GetOr(""), text);
  }

  lemma TextPlanned(job: Job, source: Source, c: ChangeItem, text: string)
    requires !c.deleted && text == job.extract(source(c.remoteId), c.name) && !Blank(text)
    ensures Plan(job, source, c) == Some(Written(job, c.name, Chunker.Chunks(text, Chunker.WindowCount(|text|))))
  {
    var p: nat :| p < |text| && !IsWhitespace(text[p]);
    var window := Chunker.CharacterCovered(text, p);
  }

  /** And a file that every reachable listing shows as deleted has no row left. */
  lemma DeletedFileIsGone(job: Job, source: Source, g: Listing, from: int, root: FolderId,
                          states: seq<CrawlState>, tables: seq<seq<Row>>, f: FolderId, e: Entry)
    requires Ingestion(job, source, g, from, root, states, tables, e.id) && states[|states| - 1].cursor.queue == []
    requires FileIn(g, from, root, f, e) && e.status == Some("deleted")
    requires forall f', e' :: FileIn(g, from, root, f', e') && e'.id == e.id ==> e'.status == Some("deleted")
    ensures forall r :: r in tables[|states| - 1] ==> r.sourceItemId != e.id
  {
    assert states != [];
    var c := ChangeItem(e.id, Some(f), e.name.GetOr(""), true);
    assert Plan(job, source, c) == Some([]);
    hide View, FileIn, Ingestion, LastWriter;
    var emitted := states[|states| - 1].emitted;
    IngestionCrawls(job, source, g, from, root, states, tables, e.id);
    RowsAfterRun(job, source, g, from, root, states, tables, e.id);
    EmittedIffFile(g, from, root, states, c);
    WriterAmong(job, source, emitted, c);
    var writer := emitted[LastWriter(job, source, emitted, e.id, |emitted|).value];
    var f', e' := EmittedIsFile(g, from, root, states, writer);
    assert Plan(job, source, writer) == Some([]);
    NoRows(job, tables[|states| - 1], e.id);
  }

  lemma WriterAmong(job: Job, source: Source, changes: seq<ChangeItem>, c: ChangeItem)
    requires c in changes && Plan(job, source, c).Some?
    ensures var writer := LastWriter(job, source, changes, c.remoteId, |changes|);
            writer.Some? && changes[writer.value] in changes && changes[writer.value].remoteId == c.remoteId
  {
    hide Plan;
    var k :| 0 <= k < |changes| && changes[k] == c;
    SomeWriter(job, source, changes, c.remoteId);
  }

  /** And an item that the run lists nowhere as a file keeps whatever rows it had, whatever else fails. */
  lemma UnlistedItemUntouched(job: Job, source: Source, g: Listing, from: int, root: FolderId,
                              states: seq<CrawlState>, tables: seq<seq<Row>>, item: string)
    requires Ingestion(job, source, g, from, root, states, tables, item) && states[|states| - 1].cursor.queue == []
    requires forall f, e :: FileIn(g, from, root, f, e) ==> e.id != item
    ensures View(job, tables[|states| - 1], item) == View(job, tables[0], item)
  {
    assert states != [];
    hide View, Plan, FileIn, Ingestion, LastWriter;
    var emitted := states[|states| - 1].emitted;
    IngestionCrawls(job, source, g, from, root, states, tables, item);
    RowsAfterRun(job, source, g, from, root, states, tables, item);
    forall c | c in emitted ensures c.remoteId != item {
      var f, e := EmittedIsFile(g, from, root, states, c);
    }
    NoWriter(job, source, emitted, item);
  }

  // ----- From the contracts of the two methods ------------------------------------------------------------

  /** The saved form of a cursor. */
  datatype Codec = Codec(toJson: ZohoCursor -> string, fromJson: string -> Option<ZohoCursor>)

  ghost predicate Lossless(codec: Codec) {
    forall st :: codec.fromJson(codec.toJson(st)) == Some(st)
  }

  /** The state that a call starts from. */
  function Decoded(codec: Codec, root: FolderId, nowMs: int, cursor: Option<string>): Option<ZohoCursor> {
    if cursor.Some? then codec.fromJson(cursor.value) else Some(Bootstrap(root, nowMs))
  }

  /** The daemon's feed is the connector: whenever it answers, it answers as `ListChanges` does. */
  ghost predicate ListsCrawl(w: World, codec: Codec, root: FolderId, g: Listing, nowMs: int) {
    forall cursor :: w.list(cursor).Some? ==>
      var st := Decoded(codec, root, nowMs, cursor);
      st.Some?
      && w.list(cursor) == Some(Delta(Poll(g, st.value, nowMs).changes, Some(codec.toJson(Poll(g, st.value, nowMs).nextCursor))))
  }

  /** The saved cursor is that of the crawl; before the first save there is none, and the crawl is at its start. */
  ghost predicate Represents(codec: Codec, root: FolderId, connectorId: string, db: Snapshot, s: CrawlState) {
    match db.Cursor(connectorId)
    case Some(saved) => saved == codec.toJson(s.cursor)
    case None => s.listed == [] && s.cursor == Bootstrap(root, s.cursor.runStartedMs)
  }

  /** A cycle of the daemon is a step of the ingestion, and the database goes on representing the crawl. */
  lemma CycleIsStep(job: Job, source: Source, codec: Codec, root: FolderId, g: Listing, nowMs: int, connectorId: string,
                    before: Snapshot, a: Attempt, s: CrawlState, item: string)
    returns (s': CrawlState)
    requires CycleContract(job, a.w, connectorId, before, a.after, a.outcome, a.delta, a.effects)
    requires DownloadsFrom(a.w, source) && ListsCrawl(a.w, codec, root, g, nowMs) && Lossless(codec)
    requires Represents(codec, root, connectorId, before, s) && s.cursor.queue != []
    requires a.outcome.Done? ==> AllStepsWork(a.w, a.delta.changes, item)
    ensures CycleStep(job, source, g, s, s', before.rows, a.after.rows, item)
    ensures Represents(codec, root, connectorId, a.after, s')
  {
    hide View, EffectOf, AllStepsWork, PartialCycle, DownloadsFrom, Planned, NewFolders, FileChanges, Unread;
    var saved := before.Cursor(connectorId);
    var t := if saved.None? then nowMs else s.cursor.runStartedMs;
    var r := Restamp(s, t);
    assert Decoded(codec, root, nowMs, saved) == Some(r.cursor);
    SameCalls(g, s, t, nowMs);
    RunsAreCycles(job, source, a.w, connectorId, before, a.after, a.outcome, a.delta, a.effects, item);
    if a.outcome.Done? {
      assert a.delta.changes == Pending(g, s);
      s' := CrawlCall(g, r);
      assert EndedCycle(job, source, Pending(g, s), before.rows, a.after.rows, item);
    } else {
      s' := s;
      CutShort(job, source, a.delta.changes, Pending(g, s), before.rows, a.after.rows, a.effects);
      assert Restamp(s, s.cursor.runStartedMs) == s;
    }
  }

  lemma SameCalls(g: Listing, s: CrawlState, t: int, nowMs: int)
    requires s.cursor.queue != []
    ensures Poll(g, Restamp(s, t).cursor, nowMs).changes == Pending(g, s)
    ensures Poll(g, Restamp(s, t).cursor, nowMs).nextCursor == CrawlCall(g, Restamp(s, t)).cursor
  {
    hide NewFolders, FileChanges;
  }

  /** A cycle that never got its list did nothing, so it is cut short on any list. */
  lemma CutShort(job: Job, source: Source, got: seq<ChangeItem>, pending: seq<ChangeItem>, before: seq<Row>, after: seq<Row>,
                 effects: seq<Effect>)
    requires PartialCycle(job, source, got, before, after, effects) && (effects == [] || got == pending)
    ensures CutCycle(job, source, pending, before, after)
  {
    hide View, Plan;
    assert PartialCycle(job, source, pending, before, after, effects);
  }

  /** Cycle after cycle, until the crawl is complete or the cycles are over. */
  ghost predicate Cycles(job: Job, source: Source, codec: Codec, root: FolderId, g: Listing, connectorId: string,
                         start: Snapshot, attempts: seq<Attempt>, clocks: seq<int>, item: string) {
    && |clocks| == |attempts|
    && forall k :: 0 <= k < |attempts| ==>
         var a := attempts[k];
         && CycleContract(job, a.w, connectorId, Before(start, attempts, k), a.after, a.outcome, a.delta, a.effects)
         && DownloadsFrom(a.w, source) && ListsCrawl(a.w, codec, root, g, clocks[k])
         && (a.outcome.Done? ==> AllStepsWork(a.w, a.delta.changes, item))
  }

  lemma CycleAt(job: Job, source: Source, codec: Codec, root: FolderId, g: Listing, connectorId: string, start: Snapshot,
                attempts: seq<Attempt>, clocks: seq<int>, k: nat, s: CrawlState, item: string)
    returns (s': CrawlState)
    requires Cycles(job, source, codec, root, g, connectorId, start, attempts, clocks, item) && Lossless(codec)
    requires k < |attempts| && Represents(codec, root, connectorId, Before(start, attempts, k), s) && s.cursor.queue != []
    ensures CycleStep(job, source, g, s, s', Before(start, attempts, k).rows, attempts[k].after.rows, item)
    ensures Represents(codec, root, connectorId, attempts[k].after, s')
  {
    hide CycleContract, DownloadsFrom, ListsCrawl, Lossless, Represents, CycleStep, AllStepsWork;
    s' := CycleIsStep(job, source, codec, root, g, clocks[k], connectorId, Before(start, attempts, k), attempts[k], s, item);
  }

  lemma IngestionBegins(job: Job, source: Source, g: Listing, from: int, root: FolderId, s: CrawlState, rows: seq<Row>, item: string)
    requires BeginsRun(from, root, s)
    ensures Ingestion(job, source, g, from, root, [s], [rows], item)
  {
    hide BeginsRun;
  }

  lemma IngestionExtends(job: Job, source: Source, g: Listing, from: int, root: FolderId, states: seq<CrawlState>,
                         tables: seq<seq<Row>>, s: CrawlState, rows: seq<Row>, item: string)
    requires Ingestion(job, source, g, from, root, states, tables, item)
    requires CycleStep(job, source, g, states[|states| - 1], s, tables[|tables| - 1], rows, item)
    ensures Ingestion(job, source, g, from, root, states + [s], tables + [rows], item)
  {
    hide BeginsRun, CycleStep;
    var more, rest := states + [s], tables + [rows];
    forall i | 0 <= i < |more| - 1 ensures CycleStep(job, source, g, more[i], more[i + 1], rest[i], rest[i + 1], item) {
      assert i < |states| - 1 ==> CycleStep(job, source, g, states[i], states[i + 1], tables[i], tables[i + 1], item);
    }
  }

  /** Any sequence of cycles of the daemon, as its two methods promise them, is an ingestion. */
  lemma {:induction false} CyclesAreIngestion(job: Job, source: Source, codec: Codec, root: FolderId, g: Listing, from: int,
                                              connectorId: string, start: Snapshot, attempts: seq<Attempt>, clocks: seq<int>,
                                              s: CrawlState, n: nat, item: string)
    returns (states: seq<CrawlState>)
    requires Cycles(job, source, codec, root, g, connectorId, start, attempts, clocks, item) && Lossless(codec)
    requires Represents(codec, root, connectorId, start, s) && BeginsRun(from, root, s) && n <= |attempts|
    ensures 1 <= |states| <= n + 1 && (|states| == n + 1 || states[|states| - 1].cursor.queue == [])
    ensures Ingestion(job, source, g, from, root, states, Tables(start, attempts, |states| - 1), item)
    ensures Represents(codec, root, connectorId, Before(start, attempts, |states| - 1), states[|states| - 1])
  {
    hide Cycles, Lossless, Represents, BeginsRun, CycleStep, Ingestion;
    if n == 0 {
      states := [s];
      IngestionBegins(job, source, g, from, root, s, start.rows, item);
      assert Tables(start, attempts, 0) == [start.rows];
    } else {
      states := CyclesAreIngestion(job, source, codec, root, g, from, connectorId, start, attempts, clocks, s, n - 1, item);
      var k := |states| - 1;
      if k == n - 1 && states[k].cursor.queue != [] {
        var next := CycleAt(job, source, codec, root, g, connectorId, start, attempts, clocks, k, states[k], item);
        IngestionExtends(job, source, g, from, root, states, Tables(start, attempts, k), next, attempts[k].after.rows, item);
        assert Tables(start, attempts, k + 1) == Tables(start, attempts, k) + [attempts[k].after.rows];
        states := states + [next];
      }
    }
  }
}
