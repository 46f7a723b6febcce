/** One polling cycle of the ingestion daemon: the chunk table, the saved cursor, and the per-item pipeline. */
module Sync {
  import opened Prelude
  import opened Aead
  import opened Connector
  import Utf8
  import Chunker
  import Embedder

  // ----- The chunk table --------------------------------------------------------------------------

  datatype Row = Row(
    id: nat,
    docName: string,
    classification: string,
    chunkIndex: nat,
    content: Bytes,
    embedding: Embedder.Vector,
    sourceItemId: string)

  function RowsOf(rows: seq<Row>, item: string): seq<Row> {
    if rows == [] then []
    else
      var earlier := RowsOf(rows[..|rows| - 1], item);
      if rows[|rows| - 1].sourceItemId == item then earlier + [rows[|rows| - 1]] else earlier
  }

  function Without(rows: seq<Row>, item: string): seq<Row> {
    if rows == [] then []
    else
      var earlier := Without(rows[..|rows| - 1], item);
      if rows[|rows| - 1].sourceItemId == item then earlier else earlier + [rows[|rows| - 1]]
  }

  /** Exactly the rows that name the item, each as often as it is there. */
  lemma {:induction false} RowsOfIs(rows: seq<Row>, item: string, r: Row)
    ensures multiset(RowsOf(rows, item))[r] == if r.sourceItemId == item then multiset(rows)[r] else 0
    ensures multiset(Without(rows, item))[r] == if r.sourceItemId == item then 0 else multiset(rows)[r]
  {
    if rows != [] {
      RowsOfIs(rows[..|rows| - 1], item, r);
      assert rows == rows[..|rows| - 1] + [rows[|rows| - 1]];
    }
  }

  lemma {:induction false} RowsOfWithout(rows: seq<Row>, item: string, x: string)
    ensures RowsOf(Without(rows, item), x) == if x == item then [] else RowsOf(rows, x)
  {
    if rows != [] {
      var front, last := rows[..|rows| - 1], rows[|rows| - 1];
      RowsOfWithout(front, item, x);
      assert (Without(front, item) + [last])[..|Without(front, item)|] == Without(front, item);
    }
  }

  lemma {:induction false} RowsOfConcat(a: seq<Row>, b: seq<Row>, x: string)
    ensures RowsOf(a + b, x) == RowsOf(a, x) + RowsOf(b, x)
  {
    if b == [] {
      assert a + b == a;
    } else {
      RowsOfConcat(a, b[..|b| - 1], x);
      assert (a + b)[..|a + b| - 1] == a + b[..|b| - 1];
    }
  }

  /** The rows `upsert_chunks` inserts: one for each ciphertext that the zip pairs with an embedding. */
  function NewRows(uuid: nat -> nat, item: string, name: string, classification: string,
                   encrypted: seq<Bytes>, embeddings: seq<Embedder.Vector>, n: nat): (rows: seq<Row>)
    requires n <= |encrypted| && n <= |embeddings|
    ensures |rows| == n
    ensures forall i :: 0 <= i < n ==>
              rows[i] == Row(uuid(i), name, classification, i, encrypted[i], embeddings[i], item)
  {
    seq(n, i requires 0 <= i < n => Row(uuid(i), name, classification, i, encrypted[i], embeddings[i], item))
  }

  lemma {:induction false} RowsOfNew(rows: seq<Row>, item: string, x: string)
    requires forall i :: 0 <= i < |rows| ==> rows[i].sourceItemId == item
    ensures RowsOf(rows, x) == if x == item then rows else []
  {
    if rows != [] {
      RowsOfNew(rows[..|rows| - 1], item, x);
      assert rows == rows[..|rows| - 1] + [rows[|rows| - 1]];
    }
  }

  class Database {
    var rows: seq<Row>
    var cursors: map<string, string>

    constructor ()
      ensures rows == [] && cursors == map[]
    {
      rows := [];
      cursors := map[];
    }

    method DeleteChunks(item: string, answers: bool) returns (ok: bool)
      modifies this`rows
      ensures ok == answers && rows == if ok then Without(old(rows), item) else old(rows)
    {
      if !answers {
        return false;
      }
      rows := Without(rows, item);
      ok := true;
    }

    /** One transaction: all of the item's rows are replaced, or nothing changes. */
    method UpsertChunks(item: string, name: string, classification: string, encrypted: seq<Bytes>,
                        embeddings: seq<Embedder.Vector>, uuid: nat -> nat, answers: nat -> bool)
      returns (ok: bool)
      modifies this`rows
      ensures ok ==>
                var added := NewRows(uuid, item, name, classification, encrypted, embeddings, Min(|encrypted|, |embeddings|));
                rows == Without(old(rows), item) + added
      ensures !ok ==> rows == old(rows)
      ensures (forall n :: answers(n)) ==> ok
    {
      if !answers(0) {
        return false;
      }
      var tx := rows;
      tx := Without(tx, item);
      ghost var cleared := tx;
      for i := 0 to Min(|encrypted|, |embeddings|)
        invariant tx == cleared + NewRows(uuid, item, name, classification, encrypted, embeddings, i)
      {
        if !answers(i + 1) {
          return false;
        }
        tx := tx + [Row(uuid(i), name, classification, i, encrypted[i], embeddings[i], item)];
      }
      if !answers(Min(|encrypted|, |embeddings|) + 1) {
        return false;
      }
      rows := tx;
      ok := true;
    }

    method LoadCursor(connectorId: string) returns (cursor: Option<string>)
      ensures cursor == if connectorId in cursors then Some(cursors[connectorId]) else None
    {
      cursor := if connectorId in cursors then Some(cursors[connectorId]) else None;
    }

    method SaveCursor(connectorId: string, cursor: string)
      modifies this`cursors
      ensures cursors == old(cursors)[connectorId := cursor]
    {
      cursors := cursors[connectorId := cursor];
    }
  }

  // ----- What the table says about an item ----------------------------------------------------------

  /** One row without its id, and with its content in the clear: random ids and IVs do not show. */
  datatype ChunkView = ChunkView(
    docName: string,
    classification: string,
    chunkIndex: nat,
    plain: Option<Bytes>,
    embedding: Embedder.Vector)

  /** What a cycle works with: the cipher and its key, the label for new rows, the extractor and the embedding model. */
  datatype Job = Job(
    cipher: Cipher,
    key: Key,
    classification: string,
    extract: (Bytes, string) -> string,
    model: Embedder.Model)

  function ViewRow(job: Job, row: Row): ChunkView {
    ChunkView(row.docName, row.classification, row.chunkIndex, Decrypt(job.cipher, job.key, row.content), row.embedding)
  }

  function View(job: Job, rows: seq<Row>, item: string): (v: seq<ChunkView>)
    ensures |v| == |RowsOf(rows, item)|
    ensures forall i :: 0 <= i < |v| ==> v[i] == ViewRow(job, RowsOf(rows, item)[i])
  {
    seq(|RowsOf(rows, item)|, i requires 0 <= i < |RowsOf(rows, item)| => ViewRow(job, RowsOf(rows, item)[i]))
  }

  /** What a change does to its item when it does anything: the rows that replace the old ones. */
  type Effect = Option<seq<ChunkView>>

  /** The whole table after one effect on one item. */
  ghost predicate Stepped(job: Job, before: seq<Row>, after: seq<Row>, item: string, effect: Effect) {
    forall x :: View(job, after, x) == if x == item && effect.Some? then effect.value else View(job, before, x)
  }

  function Chunked(job: Job, name: string, content: Bytes): seq<string> {
    var text := job.extract(content, name);
    Chunker.Chunks(text, Chunker.WindowCount(|text|))
  }

  function Written(job: Job, name: string, chunks: seq<string>): (v: seq<ChunkView>)
    ensures |v| == |chunks|
    ensures forall i :: 0 <= i < |v| ==>
              v[i] == ChunkView(name, job.classification, i, Some(Utf8.Encode(chunks[i])), job.model(chunks[i]))
  {
    seq(|chunks|, i requires 0 <= i < |chunks| =>
      ChunkView(name, job.classification, i, Some(Utf8.Encode(chunks[i])), job.model(chunks[i])))
  }

  /** What a change does when every step succeeds. Blank content does nothing: the old rows stay. */
  function Planned(job: Job, change: ChangeItem, content: Bytes): Effect {
    if change.deleted then Some([])
    else
      var chunks := Chunked(job, change.name, content);
      if chunks == [] then None else Some(Written(job, change.name, chunks))
  }

  lemma DeleteSteps(job: Job, rows: seq<Row>, item: string)
    ensures Stepped(job, rows, Without(rows, item), item, Some([]))
  {
    hide ViewRow, Without, RowsOf;
    forall x ensures View(job, Without(rows, item), x) == if x == item then [] else View(job, rows, x) {
      RowsOfWithout(rows, item, x);
    }
  }

  lemma NothingSteps(job: Job, rows: seq<Row>, item: string)
    ensures Stepped(job, rows, rows, item, None)
  {
  }

  /** Each new row carries its own chunk and the vector of that same chunk. */
  lemma UpsertSteps(job: Job, rows: seq<Row>, item: string, name: string, chunks: seq<string>,
                    encrypted: seq<Bytes>, embeddings: seq<Embedder.Vector>, uuid: nat -> nat)
    requires |encrypted| == |chunks| && embeddings == Embedder.MapModel(job.model, chunks)
    requires forall i :: 0 <= i < |chunks| ==> Decrypt(job.cipher, job.key, encrypted[i]) == Some(Utf8.Encode(chunks[i]))
    ensures var added := NewRows(uuid, item, name, job.classification, encrypted, embeddings, |chunks|);
            Stepped(job, rows, Without(rows, item) + added, item, Some(Written(job, name, chunks)))
  {
    hide Without, RowsOf, Decrypt, Utf8.Encode;
    var added := NewRows(uuid, item, name, job.classification, encrypted, embeddings, |chunks|);
    var after := Without(rows, item) + added;
    forall x ensures View(job, after, x) == if x == item then Written(job, name, chunks) else View(job, rows, x) {
      RowsOfConcat(Without(rows, item), added, x);
      RowsOfWithout(rows, item, x);
      RowsOfNew(added, item, x);
      if x == item {
        assert View(job, after, x) == Written(job, name, chunks);
      } else {
        assert RowsOf(after, x) == RowsOf(rows, x);
      }
    }
  }

  // ----- One item -----------------------------------------------------------------------------------

  /** Everything outside the daemon, as one cycle meets it; the first argument is the position of the item. */
  datatype World = World(
    list: Option<string> -> Option<Delta>,
    download: (nat, ChangeItem) -> Option<Bytes>,
    random: (nat, nat) -> Option<Iv>,
    server: nat -> Embedder.Server,
    batchSize: nat,
    uuid: (nat, nat) -> nat,
    answers: (nat, nat) -> bool,    // does the database carry out the item's n-th statement
    loads: bool,                    // does it read the cursor
    saves: bool,                    // does it write the cursor
    killedBefore: Option<nat>)      // the item before which the process dies; past the last: before the cursor is saved

  datatype Delta = Delta(changes: seq<ChangeItem>, nextCursor: Option<string>)

  ghost predicate Sound(job: Job, w: World) {
    Opens(job.cipher, job.key) && forall i :: Embedder.HonestServer(job.model, w.server(i))
  }

  /** Every step on the item at position `i` succeeds. */
  ghost predicate ItemWorks(w: World, i: nat, change: ChangeItem) {
    && (forall n :: w.answers(i, n))
    && (!change.deleted ==>
          && w.download(i, change).Some?
          && (forall n :: w.random(i, n).Some?)
          && (forall n, batch :: w.server(i)(n, batch).Some?))
  }

  method EncryptAll(job: Job, w: World, i: nat, chunks: seq<string>) returns (r: Option<seq<Bytes>>)
    requires Opens(job.cipher, job.key)
    ensures r.Some? ==> |r.value| == |chunks| && forall j :: 0 <= j < |chunks| ==>
                          Decrypt(job.cipher, job.key, r.value[j]) == Some(Utf8.Encode(chunks[j]))
    ensures (forall n :: w.random(i, n).Some?) ==> r.Some?
  {
    hide Decrypt, Utf8.Encode, Opens;
    var encrypted := [];
    for j := 0 to |chunks|
      invariant |encrypted| == j
      invariant forall n :: 0 <= n < j ==> Decrypt(job.cipher, job.key, encrypted[n]) == Some(Utf8.Encode(chunks[n]))
    {
      var iv := w.random(i, j);
      if iv.None? {
        return None;
      }
      var wire := Encrypt(job.cipher, job.key, iv.value, Utf8.Encode(chunks[j]));
      DecryptOwn(job.cipher, job.key, iv.value, Utf8.Encode(chunks[j]));
      encrypted := encrypted + [wire];
    }
    r := Some(encrypted);
  }

  /** What may come of the item: nothing, or exactly what is planned, and that for sure when every step works. */
  ghost predicate EffectOf(job: Job, w: World, i: nat, change: ChangeItem, effect: Effect) {
    && (effect.Some? ==> (change.deleted || w.download(i, change).Some?))
    && (effect.Some? ==> effect == Planned(job, change, w.download(i, change).GetOr([])))
    && (ItemWorks(w, i, change) ==> effect == Planned(job, change, w.download(i, change).GetOr([])))
  }

  /** The pipeline for one change. An error is logged and the loop goes on. */
  method ProcessItem(job: Job, w: World, db: Database, i: nat, change: ChangeItem)
    returns (processed: bool, ghost effect: Effect)
    requires Sound(job, w)
    modifies db`rows
    ensures Stepped(job, old(db.rows), db.rows, change.remoteId, effect)
    ensures EffectOf(job, w, i, change, effect)
    ensures processed <==> effect.Some? && !change.deleted
  {
    hide Stepped, Decrypt, Utf8.Encode, Opens, Embedder.HonestServer, Embedder.MapModel, Without, Chunker.Chunks;
    ghost var before := db.rows;
    NothingSteps(job, before, change.remoteId);
    processed, effect := false, None;
    if change.deleted {
      var ok := db.DeleteChunks(change.remoteId, w.answers(i, 0));
      if ok {
        DeleteSteps(job, before, change.remoteId);
        effect := Some([]);
      }
      return;
    }
    var content := w.download(i, change);
    if content.None? {
      return;
    }
    var text := job.extract(content.value, change.name);
    if text == "" {
      Chunker.BlankTextNoChunks(text, Chunker.WindowCount(0));
      return;
    }
    var chunks := Chunker.Chunk(text);
    if chunks == [] {
      return;
    }
    var encrypted := EncryptAll(job, w, i, chunks);
    if encrypted.None? {
      return;
    }
    var client := Embedder.EmbedClient.New(w.server(i), w.batchSize);
    assert Embedder.HonestServer(job.model, client.server);
    var embeddings := client.EmbedBatch(chunks, job.model);
    if embeddings.None? {
      return;
    }
    assert |embeddings.value| == |chunks|;
    var ok := db.UpsertChunks(change.remoteId, change.name, job.classification, encrypted.value, embeddings.value,
                              (n: nat) => w.uuid(i, n), (n: nat) => w.answers(i, n));
    if !ok {
      return;
    }
    UpsertSteps(job, before, change.remoteId, change.name, chunks, encrypted.value, embeddings.value, (n: nat) => w.uuid(i, n));
    effect := Some(Written(job, change.name, chunks));
    processed := true;
  }

  // ----- One cycle ----------------------------------------------------------------------------------

  /** The rows of an item after the first `n` effects: those of its last write, or the old ones. */
  function Final(changes: seq<ChangeItem>, effects: seq<Effect>, n: nat, item: string, initial: seq<ChunkView>): seq<ChunkView>
    requires n <= |effects| <= |changes|
  {
    if n == 0 then initial
    else if changes[n - 1].remoteId == item && effects[n - 1].Some? then effects[n - 1].value
    else Final(changes, effects, n - 1, item, initial)
  }

  lemma {:induction false} FinalUntouched(changes: seq<ChangeItem>, effects: seq<Effect>, n: nat, item: string, initial: seq<ChunkView>)
    requires n <= |effects| <= |changes|
    requires forall i :: 0 <= i < n && changes[i].remoteId == item ==> effects[i].None?
    ensures Final(changes, effects, n, item, initial) == initial
  {
    if 0 < n {
      FinalUntouched(changes, effects, n - 1, item, initial);
    }
  }

  ghost predicate Cycled(job: Job, before: seq<Row>, after: seq<Row>, changes: seq<ChangeItem>, effects: seq<Effect>, n: nat) {
    && n <= |effects| <= |changes|
    && forall x :: View(job, after, x) == Final(changes, effects, n, x, View(job, before, x))
  }

  lemma CycledStep(job: Job, before: seq<Row>, mid: seq<Row>, after: seq<Row>, changes: seq<ChangeItem>,
                   effects: seq<Effect>, effect: Effect)
    requires |effects| < |changes| && Cycled(job, before, mid, changes, effects, |effects|)
    requires Stepped(job, mid, after, changes[|effects|].remoteId, effect)
    ensures Cycled(job, before, after, changes, effects + [effect], |effects| + 1)
  {
    hide View;
    forall x ensures View(job, after, x) == Final(changes, effects + [effect], |effects| + 1, x, View(job, before, x)) {
      FinalPrefix(changes, effects, effect, |effects|, x, View(job, before, x));
    }
  }

  lemma {:induction false} FinalPrefix(changes: seq<ChangeItem>, effects: seq<Effect>, effect: Effect, n: nat, item: string,
                                       initial: seq<ChunkView>)
    requires n <= |effects| < |changes|
    ensures Final(changes, effects + [effect], n, item, initial) == Final(changes, effects, n, item, initial)
  {
    if 0 < n {
      FinalPrefix(changes, effects, effect, n - 1, item, initial);
    }
  }

  function CountProcessed(changes: seq<ChangeItem>, effects: seq<Effect>, n: nat): nat
    requires n <= |effects| <= |changes|
  {
    if n == 0 then 0
    else CountProcessed(changes, effects, n - 1) + (if effects[n - 1].Some? && !changes[n - 1].deleted then 1 else 0)
  }

  /** The count is the number of changes that are no deletion and took effect. */
  lemma {:induction false} CountProcessedIs(changes: seq<ChangeItem>, effects: seq<Effect>, n: nat)
    requires n <= |effects| <= |changes|
    ensures CountProcessed(changes, effects, n) == |set i: nat | i < n && !changes[i].deleted && effects[i].Some?|
  {
    var all := set i: nat | i < n && !changes[i].deleted && effects[i].Some?;
    if 0 < n {
      CountProcessedIs(changes, effects, n - 1);
      var before := set i: nat | i < n - 1 && !changes[i].deleted && effects[i].Some?;
      assert all == before + (if !changes[n - 1].deleted && effects[n - 1].Some? then {n - 1} else {});
    }
  }

  lemma {:induction false} CountPrefix(changes: seq<ChangeItem>, effects: seq<Effect>, effect: Effect, n: nat)
    requires n <= |effects| < |changes|
    ensures CountProcessed(changes, effects + [effect], n) == CountProcessed(changes, effects, n)
  {
    if 0 < n {
      CountPrefix(changes, effects, effect, n - 1);
    }
  }

  datatype Outcome = Done(processed: nat) | Failed | Killed

  /** The database as it shows between cycles. */
  datatype Snapshot = Snapshot(rows: seq<Row>, cursors: map<string, string>) {
    function Cursor(connectorId: string): Option<string> {
      if connectorId in cursors then Some(cursors[connectorId]) else None
    }

    /** The cursor is moved, if there is one to move it to; every other connector keeps its own. */
    function Saved(connectorId: string, next: Option<string>): map<string, string> {
      if next.Some? then cursors[connectorId := next.value] else cursors
    }
  }

  /** What a cycle does, whatever became of it: `effects` are those of the items it got to. */
  ghost predicate CycleContract(job: Job, w: World, connectorId: string, before: Snapshot, after: Snapshot,
                                outcome: Outcome, delta: Delta, effects: seq<Effect>) {
    && Cycled(job, before.rows, after.rows, delta.changes, effects, |effects|)
    && (forall i :: 0 <= i < |effects| ==> EffectOf(job, w, i, delta.changes[i], effects[i]))
    && (effects != [] || outcome.Done? ==> w.list(before.Cursor(connectorId)) == Some(delta))
    && (if outcome.Done? then
          && |effects| == |delta.changes|
          && outcome.processed == CountProcessed(delta.changes, effects, |effects|)
          && after.cursors == before.Saved(connectorId, delta.nextCursor)
        else
          after.cursors == before.cursors)
  }

  /**
   * Load the cursor, ask for the changes since then once, apply them one after the other, save the new
   * cursor. Only a cycle that runs to its end moves the cursor, and it does so whatever became of the items.
   */
  method RunCycle(job: Job, w: World, db: Database, connectorId: string)
    returns (outcome: Outcome, ghost delta: Delta, ghost effects: seq<Effect>)
    requires Sound(job, w)
    modifies db
    ensures CycleContract(job, w, connectorId, Snapshot(old(db.rows), old(db.cursors)), Snapshot(db.rows, db.cursors),
                          outcome, delta, effects)
    ensures w.loads && w.saves && w.killedBefore.None? && (forall cursor :: w.list(cursor).Some?) ==> outcome.Done?
  {
    hide Stepped, EffectOf, Cycled, View, Opens, Embedder.HonestServer;
    ghost var before := db.rows;
    delta, effects := Delta([], None), [];
    CycledStart(job, before, delta.changes);
    if !w.loads {
      return Failed, delta, effects;
    }
    var cursor := db.LoadCursor(connectorId);
    var listed := w.list(cursor);
    if listed.None? {
      return Failed, delta, effects;
    }
    delta := listed.value;
    var changes := listed.value.changes;
    CycledStart(job, before, changes);
    var processed: nat := 0;
    for i := 0 to |changes|
      invariant |effects| == i && db.cursors == old(db.cursors)
      invariant Cycled(job, before, db.rows, changes, effects, i)
      invariant forall j :: 0 <= j < i ==> EffectOf(job, w, j, changes[j], effects[j])
      invariant processed == CountProcessed(changes, effects, i)
    {
      if w.killedBefore == Some(i) {
        return Killed, delta, effects;
      }
      ghost var mid := db.rows;
      var counted, effect := ProcessItem(job, w, db, i, changes[i]);
      CycledStep(job, before, mid, db.rows, changes, effects, effect);
      CountPrefix(changes, effects, effect, i);
      effects := effects + [effect];
      if counted {
        processed := processed + 1;
      }
    }
    if w.killedBefore.Some? {
      return Killed, delta, effects;
    }
    var next := listed.value.nextCursor;
    if next.Some? {
      if !w.saves {
        return Failed, delta, effects;
      }
      db.SaveCursor(connectorId, next.value);
    }
    outcome := Done(processed);
  }

  lemma CycledStart(job: Job, rows: seq<Row>, changes: seq<ChangeItem>)
    ensures Cycled(job, rows, rows, changes, [], 0)
  {
    hide View;
  }
}
