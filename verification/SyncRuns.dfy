/** Cycles cut anywhere and started again: the table they leave is the one an uninterrupted cycle leaves. */
module SyncRuns {
  import opened Prelude
  import opened Aead
  import opened Connector
  import opened Sync

  /** What an item downloads, by its remote id: the same bytes every time. */
  type Source = string -> Bytes

  function Plan(job: Job, source: Source, change: ChangeItem): Effect {
    Planned(job, change, source(change.remoteId))
  }

  /** A cycle over the list that got to a prefix of it, each item handled fully or not at all. */
  ghost predicate PartialCycle(job: Job, source: Source, changes: seq<ChangeItem>, before: seq<Row>, after: seq<Row>,
                               effects: seq<Effect>) {
    && |effects| <= |changes|
    && (forall i :: 0 <= i < |effects| ==> effects[i] == None || effects[i] == Plan(job, source, changes[i]))
    && Cycled(job, before, after, changes, effects, |effects|)
  }

  /** Every change to this item was applied; the others may have failed. */
  ghost predicate Worked(job: Job, source: Source, changes: seq<ChangeItem>, effects: seq<Effect>, item: string)
    requires |effects| <= |changes|
  {
    forall i :: 0 <= i < |effects| && changes[i].remoteId == item ==> effects[i] == Plan(job, source, changes[i])
  }

  /** A cycle that got to the end of the list and in which every step on this item worked. */
  ghost predicate FinishedCycle(job: Job, source: Source, changes: seq<ChangeItem>, before: seq<Row>, after: seq<Row>,
                                effects: seq<Effect>, item: string) {
    && PartialCycle(job, source, changes, before, after, effects)
    && |effects| == |changes|
    && Worked(job, source, changes, effects, item)
  }

  ghost predicate AllStepsWork(w: World, changes: seq<ChangeItem>, item: string) {
    forall i: nat :: i < |changes| && changes[i].remoteId == item ==> ItemWorks(w, i, changes[i])
  }

  ghost predicate DownloadsFrom(w: World, source: Source) {
    forall i: nat, change :: w.download(i, change).Some? ==> w.download(i, change) == Some(source(change.remoteId))
  }

  /** What a cycle promises makes it a partial cycle, and a finished one for each item whose steps all work. */
  lemma RunsAreCycles(job: Job, source: Source, w: World, connectorId: string, before: Snapshot, after: Snapshot,
                      outcome: Outcome, delta: Delta, effects: seq<Effect>, item: string)
    requires CycleContract(job, w, connectorId, before, after, outcome, delta, effects) && DownloadsFrom(w, source)
    ensures PartialCycle(job, source, delta.changes, before.rows, after.rows, effects)
    ensures outcome.Done? && AllStepsWork(w, delta.changes, item) ==>
              FinishedCycle(job, source, delta.changes, before.rows, after.rows, effects, item)
  {
    hide View, Final, Planned, ItemWorks, CountProcessed;
    var changes := delta.changes;
    forall i | 0 <= i < |effects|
      ensures effects[i] == None || effects[i] == Plan(job, source, changes[i])
      ensures ItemWorks(w, i, changes[i]) ==> effects[i] == Plan(job, source, changes[i])
    {
      assert EffectOf(job, w, i, changes[i], effects[i]);
      EffectIsPlanned(job, source, w, i, changes[i], effects[i]);
    }
  }

  lemma EffectIsPlanned(job: Job, source: Source, w: World, i: nat, change: ChangeItem, effect: Effect)
    requires EffectOf(job, w, i, change, effect) && DownloadsFrom(w, source)
    ensures effect == None || effect == Plan(job, source, change)
    ensures ItemWorks(w, i, change) ==> effect == Plan(job, source, change)
  {
    hide Written, Chunked;
  }

  /** The position of the last change that writes the item, if there is one among the first `n`. */
  function LastWriter(job: Job, source: Source, changes: seq<ChangeItem>, item: string, n: nat): (r: Option<nat>)
    requires n <= |changes|
    ensures r.Some? ==> r.value < n && changes[r.value].remoteId == item && Plan(job, source, changes[r.value]).Some?
    ensures forall i :: (if r.Some? then r.value < i else 0 <= i) && i < n && changes[i].remoteId == item
              ==> Plan(job, source, changes[i]).None?
  {
    if n == 0 then None
    else if changes[n - 1].remoteId == item && Plan(job, source, changes[n - 1]).Some? then Some(n - 1)
    else LastWriter(job, source, changes, item, n - 1)
  }

  /** The rows the last writer plans, or the given ones when there is no writer. */
  function LastWritten(job: Job, source: Source, changes: seq<ChangeItem>, item: string, n: nat, initial: seq<ChunkView>)
    : seq<ChunkView>
    requires n <= |changes|
  {
    match LastWriter(job, source, changes, item, n)
    case Some(i) => Plan(job, source, changes[i]).value
    case None => initial
  }

  /** When every change to an item is applied, it ends with what its last writer plans. */
  lemma {:induction false} FinalIsLastWriter(job: Job, source: Source, changes: seq<ChangeItem>, effects: seq<Effect>,
                                             n: nat, item: string, initial: seq<ChunkView>)
    requires n <= |effects| <= |changes| && Worked(job, source, changes, effects, item)
    ensures Final(changes, effects, n, item, initial) == LastWritten(job, source, changes, item, n, initial)
  {
    hide Plan;
    if 0 < n {
      FinalIsLastWriter(job, source, changes, effects, n - 1, item, initial);
    }
  }

  ghost predicate Unwritten(job: Job, source: Source, changes: seq<ChangeItem>, item: string) {
    forall i :: 0 <= i < |changes| && changes[i].remoteId == item ==> Plan(job, source, changes[i]).None?
  }

  /** An item that no change writes keeps its rows through any partial cycle. */
  lemma {:induction false} UnwrittenKept(job: Job, source: Source, changes: seq<ChangeItem>, effects: seq<Effect>,
                                         n: nat, item: string, initial: seq<ChunkView>)
    requires n <= |effects| <= |changes|
    requires forall i :: 0 <= i < |effects| ==> effects[i] == None || effects[i] == Plan(job, source, changes[i])
    requires Unwritten(job, source, changes, item)
    ensures Final(changes, effects, n, item, initial) == initial
  {
    hide Plan;
    if 0 < n {
      UnwrittenKept(job, source, changes, effects, n - 1, item, initial);
    }
  }

  /** The rows of an item after a cycle that handled it, whatever became of the other items. */
  lemma LastWriterDecides(job: Job, source: Source, changes: seq<ChangeItem>, before: seq<Row>, after: seq<Row>,
                          effects: seq<Effect>, item: string)
    requires FinishedCycle(job, source, changes, before, after, effects, item)
    ensures View(job, after, item)
         == LastWritten(job, source, changes, item, |changes|, View(job, before, item))
  {
    hide View, Plan, LastWriter, Final;
    FinalIsLastWriter(job, source, changes, effects, |changes|, item, View(job, before, item));
  }

  lemma {:induction false} UnwrittenThroughCycles(job: Job, source: Source, changes: seq<ChangeItem>, tables: seq<seq<Row>>,
                                                  effects: seq<seq<Effect>>, k: nat, item: string)
    requires |tables| == |effects| + 1 && k < |tables|
    requires forall j :: 0 <= j < |effects| ==> PartialCycle(job, source, changes, tables[j], tables[j + 1], effects[j])
    requires Unwritten(job, source, changes, item)
    ensures View(job, tables[k], item) == View(job, tables[0], item)
  {
    hide View, Plan, Final;
    if 0 < k {
      UnwrittenThroughCycles(job, source, changes, tables, effects, k - 1, item);
      assert PartialCycle(job, source, changes, tables[k - 1], tables[k - 1 + 1], effects[k - 1]);
      UnwrittenKept(job, source, changes, effects[k - 1], |effects[k - 1]|, item, View(job, tables[k - 1], item));
    }
  }

  /**
   * Crash-safe replay, item by item: any number of cycles over the same list, each killed anywhere and with
   * any of its items failing, followed by one that ends and in which this item works, leave the item
   * exactly as one uninterrupted cycle would have.
   */
  lemma CrashSafeReplay(job: Job, source: Source, changes: seq<ChangeItem>, tables: seq<seq<Row>>,
                        effects: seq<seq<Effect>>, replayed: seq<Row>, direct: seq<Row>,
                        lastEffects: seq<Effect>, directEffects: seq<Effect>, item: string)
    requires |tables| == |effects| + 1
    requires forall j :: 0 <= j < |effects| ==> PartialCycle(job, source, changes, tables[j], tables[j + 1], effects[j])
    requires FinishedCycle(job, source, changes, tables[|effects|], replayed, lastEffects, item)
    requires FinishedCycle(job, source, changes, tables[0], direct, directEffects, item)
    ensures View(job, replayed, item) == View(job, direct, item)
  {
    hide View, Plan, PartialCycle, FinishedCycle;
    LastWriterDecides(job, source, changes, tables[|effects|], replayed, lastEffects, item);
    LastWriterDecides(job, source, changes, tables[0], direct, directEffects, item);
    if LastWriter(job, source, changes, item, |changes|).None? {
      UnwrittenThroughCycles(job, source, changes, tables, effects, |effects|, item);
    }
  }

  // ----- From the contracts alone ---------------------------------------------------------------------

  /** One run of the cycle: the world it met, and what it left and reported. */
  datatype Attempt = Attempt(w: World, after: Snapshot, outcome: Outcome, delta: Delta, effects: seq<Effect>)

  /** The feed: whenever it answers, the same list for the same cursor. */
  type Feed = Option<string> -> Delta

  ghost predicate Honours(job: Job, source: Source, feed: Feed, connectorId: string, before: Snapshot, a: Attempt) {
    && CycleContract(job, a.w, connectorId, before, a.after, a.outcome, a.delta, a.effects)
    && DownloadsFrom(a.w, source)
    && forall cursor :: a.w.list(cursor).Some? ==> a.w.list(cursor) == Some(feed(cursor))
  }

  function Before(start: Snapshot, attempts: seq<Attempt>, k: nat): Snapshot
    requires k <= |attempts|
  {
    if k == 0 then start else attempts[k - 1].after
  }

  ghost predicate Attempts(job: Job, source: Source, feed: Feed, connectorId: string, start: Snapshot, attempts: seq<Attempt>) {
    forall k :: 0 <= k < |attempts| ==> Honours(job, source, feed, connectorId, Before(start, attempts, k), attempts[k])
  }

  /** Until a cycle runs to its end the saved cursor does not move, so every attempt asks for the same list. */
  lemma {:induction false} CursorWaitsForTheEnd(job: Job, source: Source, feed: Feed, connectorId: string, start: Snapshot,
                                                attempts: seq<Attempt>, k: nat)
    requires Attempts(job, source, feed, connectorId, start, attempts) && k <= |attempts|
    requires forall j :: 0 <= j < k ==> !attempts[j].outcome.Done?
    ensures Before(start, attempts, k).cursors == start.cursors
  {
    hide Cycled, EffectOf;
    if 0 < k {
      CursorWaitsForTheEnd(job, source, feed, connectorId, start, attempts, k - 1);
      assert Honours(job, source, feed, connectorId, Before(start, attempts, k - 1), attempts[k - 1]);
    }
  }

  /** An attempt is a partial cycle over the list of the cursor it found, also when it never got that list. */
  lemma AttemptIsPartial(job: Job, source: Source, feed: Feed, connectorId: string, before: Snapshot, a: Attempt, item: string)
    requires Honours(job, source, feed, connectorId, before, a)
    ensures var delta := feed(before.Cursor(connectorId));
      && PartialCycle(job, source, delta.changes, before.rows, a.after.rows, a.effects)
      && (a.outcome.Done? ==> a.delta == delta && a.after.cursors == before.Saved(connectorId, delta.nextCursor))
      && (a.outcome.Done? && AllStepsWork(a.w, delta.changes, item) ==>
            FinishedCycle(job, source, delta.changes, before.rows, a.after.rows, a.effects, item))
  {
    hide View, EffectOf, Plan, Planned, AllStepsWork;
    RunsAreCycles(job, source, a.w, connectorId, before, a.after, a.outcome, a.delta, a.effects, item);
  }

  /** Every attempt up to the first that ends works on the list of the cursor that was saved at the start. */
  lemma AttemptOverFirstList(job: Job, source: Source, feed: Feed, connectorId: string, start: Snapshot,
                             attempts: seq<Attempt>, k: nat, item: string)
    requires Attempts(job, source, feed, connectorId, start, attempts) && k < |attempts|
    requires forall j :: 0 <= j < k ==> !attempts[j].outcome.Done?
    ensures var delta, before, a := feed(start.Cursor(connectorId)), Before(start, attempts, k), attempts[k];
      && PartialCycle(job, source, delta.changes, before.rows, a.after.rows, a.effects)
      && (a.outcome.Done? ==> a.after.cursors == start.Saved(connectorId, delta.nextCursor))
      && (a.outcome.Done? && AllStepsWork(a.w, delta.changes, item) ==>
            FinishedCycle(job, source, delta.changes, before.rows, a.after.rows, a.effects, item))
  {
    hide Honours, PartialCycle, FinishedCycle, AllStepsWork;
    CursorWaitsForTheEnd(job, source, feed, connectorId, start, attempts, k);
    assert Honours(job, source, feed, connectorId, Before(start, attempts, k), attempts[k]);
    AttemptIsPartial(job, source, feed, connectorId, Before(start, attempts, k), attempts[k], item);
  }

  /** The tables between the attempts. */
  function Tables(start: Snapshot, attempts: seq<Attempt>, n: nat): (tables: seq<seq<Row>>)
    requires n <= |attempts|
    ensures |tables| == n + 1 && forall k :: 0 <= k <= n ==> tables[k] == Before(start, attempts, k).rows
  {
    seq(n + 1, k requires 0 <= k < n + 1 => Before(start, attempts, k).rows)
  }

  function EffectsOf(attempts: seq<Attempt>, n: nat): (effects: seq<seq<Effect>>)
    requires n <= |attempts|
    ensures |effects| == n && forall k :: 0 <= k < n ==> effects[k] == attempts[k].effects
  {
    seq(n, k requires 0 <= k < n => attempts[k].effects)
  }

  /**
   * Any number of cycles that were cut or failed, then one that ends, against one that ends at once: for an
   * item that works in both last cycles the rows are the same, and so are the saved cursors.
   */
  lemma CutCyclesThenOneThatEnds(job: Job, source: Source, feed: Feed, connectorId: string, start: Snapshot,
                                 attempts: seq<Attempt>, direct: Attempt, item: string)
    requires attempts != [] && Attempts(job, source, feed, connectorId, start, attempts)
    requires forall k :: 0 <= k < |attempts| - 1 ==> !attempts[k].outcome.Done?
    requires Honours(job, source, feed, connectorId, start, direct)
    requires var last, changes := attempts[|attempts| - 1], feed(start.Cursor(connectorId)).changes;
      && last.outcome.Done? && AllStepsWork(last.w, changes, item)
      && direct.outcome.Done? && AllStepsWork(direct.w, changes, item)
    ensures var last := attempts[|attempts| - 1];
      && View(job, last.after.rows, item) == View(job, direct.after.rows, item)
      && last.after.cursors == direct.after.cursors
  {
    hide View, AllStepsWork, PartialCycle, FinishedCycle, Honours, Attempts;
    var n := |attempts| - 1;
    var changes := feed(start.Cursor(connectorId)).changes;
    var tables, effects := Tables(start, attempts, n), EffectsOf(attempts, n);
    forall k | 0 <= k < n ensures PartialCycle(job, source, changes, tables[k], tables[k + 1], effects[k]) {
      AttemptOverFirstList(job, source, feed, connectorId, start, attempts, k, item);
    }
    AttemptOverFirstList(job, source, feed, connectorId, start, attempts, n, item);
    AttemptIsPartial(job, source, feed, connectorId, start, direct, item);
    CrashSafeReplay(job, source, changes, tables, effects, attempts[n].after.rows, direct.after.rows,
                    attempts[n].effects, direct.effects, item);
  }

  /**
   * A failed item is not tried again by itself: once the cursor has moved on, its rows stay as they are
   * through every later cycle whose list does not name it.
   */
  lemma {:induction false} FailedItemStaysStale(job: Job, tables: seq<seq<Row>>, lists: seq<seq<ChangeItem>>,
                                                effects: seq<seq<Effect>>, item: string, k: nat)
    requires |lists| == |effects| && |tables| == |effects| + 1 && 0 < k < |tables|
    requires forall j :: 0 <= j < |effects| ==> Cycled(job, tables[j], tables[j + 1], lists[j], effects[j], |effects[j]|)
    requires |effects[0]| <= |lists[0]|
    requires forall i :: 0 <= i < |effects[0]| && lists[0][i].remoteId == item ==> effects[0][i].None?
    requires forall j, i :: 0 < j < |lists| && 0 <= i < |lists[j]| ==> lists[j][i].remoteId != item
    ensures View(job, tables[k], item) == View(job, tables[0], item)
  {
    hide View;
    if 1 < k {
      FailedItemStaysStale(job, tables, lists, effects, item, k - 1);
    }
    assert Cycled(job, tables[k - 1], tables[k - 1 + 1], lists[k - 1], effects[k - 1], |effects[k - 1]|);
    FinalUntouched(lists[k - 1], effects[k - 1], |effects[k - 1]|, item, View(job, tables[k - 1], item));
  }
}
