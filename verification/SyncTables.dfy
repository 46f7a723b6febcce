/** What a finished cycle means for the rows of one item: a deletion deletes, a text is stored chunk by chunk, a blank one changes nothing. */
module SyncTables {
  import opened Prelude
  import opened Aead
  import opened Connector
  import opened Sync
  import Chunker
  import Utf8

  /** The change brings nothing to store: it does not delete, and what it downloads is blank. */
  predicate BringsNothing(job: Job, w: World, i: nat, change: ChangeItem) {
    !change.deleted
    && (w.download(i, change).Some? ==> Blank(job.extract(w.download(i, change).value, change.name)))
  }

  /** Change `k` names the item, and every later one that does brings nothing. */
  ghost predicate IsLast(job: Job, w: World, changes: seq<ChangeItem>, k: nat, item: string) {
    && k < |changes| && changes[k].remoteId == item
    && forall i: nat :: k < i < |changes| && changes[i].remoteId == item ==> BringsNothing(job, w, i, changes[i])
  }

  lemma NothingPlanned(job: Job, w: World, i: nat, change: ChangeItem, effect: Effect)
    requires EffectOf(job, w, i, change, effect) && BringsNothing(job, w, i, change)
    ensures effect == None
  {
    if effect.Some? {
      var text := job.extract(w.download(i, change).value, change.name);
      Chunker.BlankTextNoChunks(text, Chunker.WindowCount(|text|));
    }
  }

  lemma {:induction false} FinalFrom(changes: seq<ChangeItem>, effects: seq<Effect>, n: nat, k: nat, item: string,
                                     initial: seq<ChunkView>)
    requires k < n <= |effects| <= |changes| && changes[k].remoteId == item && effects[k].Some?
    requires forall i :: k < i < n && changes[i].remoteId == item ==> effects[i].None?
    ensures Final(changes, effects, n, item, initial) == effects[k].value
  {
    if k < n - 1 {
      FinalFrom(changes, effects, n - 1, k, item, initial);
    }
  }

  /** After a cycle that ended the item has what its last change that brings anything planned. */
  lemma LastChangeShows(job: Job, w: World, connectorId: string, before: Snapshot, after: Snapshot, outcome: Outcome,
                        delta: Delta, effects: seq<Effect>, k: nat, item: string)
    requires CycleContract(job, w, connectorId, before, after, outcome, delta, effects) && outcome.Done?
    requires IsLast(job, w, delta.changes, k, item) && effects[k].Some?
    ensures View(job, after.rows, item) == effects[k].value
  {
    hide View, EffectOf, BringsNothing;
    forall i: nat | k < i < |effects| && delta.changes[i].remoteId == item ensures effects[i].None? {
      NothingPlanned(job, w, i, delta.changes[i], effects[i]);
    }
    FinalFrom(delta.changes, effects, |effects|, k, item, View(job, before.rows, item));
  }

  lemma NoRows(job: Job, rows: seq<Row>, item: string)
    requires View(job, rows, item) == []
    ensures forall r :: r in rows ==> r.sourceItemId != item
  {
    forall r | r in rows ensures r.sourceItemId != item {
      RowsOfIs(rows, item, r);
      assert r in multiset(rows);
      assert RowsOf(rows, item) == [];
    }
  }

  /** A deletion, if it is the last that the list says of the item and the database carries it out, leaves no row. */
  lemma DeletedItemIsGone(job: Job, w: World, connectorId: string, before: Snapshot, after: Snapshot, outcome: Outcome,
                          delta: Delta, effects: seq<Effect>, k: nat, item: string)
    requires CycleContract(job, w, connectorId, before, after, outcome, delta, effects) && outcome.Done?
    requires IsLast(job, w, delta.changes, k, item) && delta.changes[k].deleted
    requires forall n :: w.answers(k, n)
    ensures forall r :: r in after.rows ==> r.sourceItemId != item
  {
    assert EffectOf(job, w, k, delta.changes[k], effects[k]) && ItemWorks(w, k, delta.changes[k]);
    assert effects[k] == Some([]);
    hide View, CycleContract, IsLast;
    LastChangeShows(job, w, connectorId, before, after, outcome, delta, effects, k, item);
    NoRows(job, after.rows, item);
  }

  /** The rows are one for each chunk, in order, under the item's name and the cycle's label, each with its own text and vector. */
  ghost predicate StoredAs(job: Job, rows: seq<Row>, item: string, name: string, text: string) {
    var chunks := Chunker.Chunks(text, Chunker.WindowCount(|text|));
    var stored := RowsOf(rows, item);
    && |stored| == |chunks|
    && forall i :: 0 <= i < |stored| ==>
         && stored[i].docName == name && stored[i].classification == job.classification && stored[i].chunkIndex == i
         && Decrypt(job.cipher, job.key, stored[i].content) == Some(Utf8.Encode(chunks[i]))
         && stored[i].embedding == job.model(chunks[i])
  }

  lemma ViewIsStored(job: Job, rows: seq<Row>, item: string, name: string, text: string)
    requires View(job, rows, item) == Written(job, name, Chunker.Chunks(text, Chunker.WindowCount(|text|)))
    ensures StoredAs(job, rows, item, name, text)
  {
    hide RowsOf, Decrypt, Utf8.Encode, Chunker.Chunks, Chunker.WindowCount;
    var chunks := Chunker.Chunks(text, Chunker.WindowCount(|text|));
    var v, stored := View(job, rows, item), RowsOf(rows, item);
    forall i | 0 <= i < |stored|
      ensures stored[i].docName == name && stored[i].classification == job.classification && stored[i].chunkIndex == i
      ensures Decrypt(job.cipher, job.key, stored[i].content) == Some(Utf8.Encode(chunks[i]))
      ensures stored[i].embedding == job.model(chunks[i])
    {
      assert v[i] == ViewRow(job, stored[i]);
    }
  }

  /** A text that is not blank, if it is the last that the list brings for the item and every step works, is stored. */
  lemma TextIsStored(job: Job, w: World, connectorId: string, before: Snapshot, after: Snapshot, outcome: Outcome,
                     delta: Delta, effects: seq<Effect>, k: nat, item: string, text: string)
    requires CycleContract(job, w, connectorId, before, after, outcome, delta, effects) && outcome.Done?
    requires IsLast(job, w, delta.changes, k, item) && !delta.changes[k].deleted && ItemWorks(w, k, delta.changes[k])
    requires text == job.extract(w.download(k, delta.changes[k]).value, delta.changes[k].name) && !Blank(text)
    ensures StoredAs(job, after.rows, item, delta.changes[k].name, text)
  {
    assert EffectOf(job, w, k, delta.changes[k], effects[k]);
    var p: nat :| p < |text| && !IsWhitespace(text[p]);
    var window := Chunker.CharacterCovered(text, p);
    assert effects[k] == Some(Written(job, delta.changes[k].name, Chunker.Chunks(text, Chunker.WindowCount(|text|))));
    hide View, CycleContract, IsLast, Chunker.Chunks, StoredAs, Written, ItemWorks, Blank;
    LastChangeShows(job, w, connectorId, before, after, outcome, delta, effects, k, item);
    ViewIsStored(job, after.rows, item, delta.changes[k].name, text);
  }

  /** An item that the list brings nothing for keeps its rows, however the cycle ended: blank text does not remove. */
  lemma BlankTextKeepsRows(job: Job, w: World, connectorId: string, before: Snapshot, after: Snapshot, outcome: Outcome,
                           delta: Delta, effects: seq<Effect>, item: string)
    requires CycleContract(job, w, connectorId, before, after, outcome, delta, effects)
    requires forall i: nat :: i < |delta.changes| && delta.changes[i].remoteId == item ==>
               BringsNothing(job, w, i, delta.changes[i])
    ensures View(job, after.rows, item) == View(job, before.rows, item)
  {
    hide View, EffectOf, BringsNothing;
    forall i: nat | i < |effects| && delta.changes[i].remoteId == item ensures effects[i].None? {
      NothingPlanned(job, w, i, delta.changes[i], effects[i]);
    }
    FinalUntouched(delta.changes, effects, |effects|, item, View(job, before.rows, item));
  }
}
