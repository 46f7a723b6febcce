/** Restartable re-encryption of every stored chunk: batches, one transaction each, killed at any point. */
module KeyRotation {
  import opened Prelude
  import opened Aead

  type Id = nat

  /** The chunk table: row id to encrypted content, which may be NULL. */
  type Table = map<Id, Option<Bytes>>

  datatype Chunk = Chunk(id: Id, content: Bytes)

  // ----- The rows to rotate, in id order ----------------------------------------------------------

  ghost predicate Ascending(ids: seq<Id>) {
    forall i, j :: 0 <= i < j < |ids| ==> ids[i] < ids[j]
  }

  predicate Least(m: Id, s: set<Id>) {
    m in s && forall x :: x in s ==> m <= x
  }

  lemma {:induction false} HasLeast(s: set<Id>)
    requires s != {}
    ensures exists m :: Least(m, s)
    decreases |s|
  {
    var m :| m in s;
    if s == {m} {
      assert Least(m, s);
    } else {
      HasLeast(s - {m});
      var rest: Id :| Least(rest, s - {m});
      assert forall x :: x in s ==> x == m || x in s - {m};
      assert Least(if m <= rest then m else rest, s);
    }
  }

  /** `ORDER BY id` */
  function Ordered(s: set<Id>): seq<Id> {
    if s == {} then []
    else
      HasLeast(s);
      var m :| Least(m, s);
      [m] + Ordered(s - {m})
  }

  lemma OrderedStep(s: set<Id>) returns (m: Id)
    requires s != {}
    ensures Least(m, s) && Ordered(s) == [m] + Ordered(s - {m})
  {
    HasLeast(s);
    m :| Least(m, s) && Ordered(s) == [m] + Ordered(s - {m});
  }

  lemma AscendingCons(m: Id, ids: seq<Id>)
    requires Ascending(ids) && forall x :: x in ids ==> m < x
    ensures Ascending([m] + ids)
  {
    forall j | 0 < j < |[m] + ids| ensures m < ([m] + ids)[j] {
      assert ids[j - 1] in ids;
    }
  }

  lemma {:induction false} OrderedIsTheSet(s: set<Id>)
    ensures Ascending(Ordered(s)) && forall x :: x in Ordered(s) <==> x in s
    decreases |s|
  {
    if s != {} {
      var m := OrderedStep(s);
      hide Ordered, Ascending;
      OrderedIsTheSet(s - {m});
      AscendingCons(m, Ordered(s - {m}));
    }
  }

  /** Each element comes once. */
  lemma {:induction false} OrderedCounts(s: set<Id>)
    ensures |Ordered(s)| == |s|
    decreases |s|
  {
    if s != {} {
      var m := OrderedStep(s);
      OrderedCounts(s - {m});
    }
  }

  /** The ids with content, in order: the rows the queries page through. */
  function Targets(rows: Table): seq<Id> {
    Ordered(WithContent(rows))
  }

  function WithContent(rows: Table): set<Id> {
    set id | id in rows && rows[id].Some?
  }

  lemma TargetsAreRows(rows: Table)
    ensures Ascending(Targets(rows)) && NoDuplicates(Targets(rows))
    ensures forall id :: id in Targets(rows) <==> id in rows && rows[id].Some?
  {
    OrderedIsTheSet(WithContent(rows));
  }

  /** Rewriting contents never moves a row to another page. */
  lemma TargetsStable(before: Table, after: Table)
    requires before.Keys == after.Keys
    requires forall id :: id in before ==> (before[id].Some? <==> after[id].Some?)
    ensures Targets(before) == Targets(after)
  {
    assert WithContent(before) == WithContent(after);
  }

  // ----- The database -----------------------------------------------------------------------------

  class Database {
    var rows: Table

    constructor (rows: Table)
      ensures this.rows == rows
    {
      this.rows := rows;
    }

    method CountPending() returns (n: nat)
      ensures n == |WithContent(rows)| == |Targets(rows)|
    {
      OrderedCounts(WithContent(rows));
      n := |Targets(rows)|;
    }

    /** `LIMIT limit OFFSET offset` over the targets; PostgreSQL refuses a negative limit. */
    method FetchBatch(offset: nat, limit: int) returns (batch: Option<seq<Chunk>>)
      ensures batch.None? <==> limit < 0
      ensures batch.Some? ==>
                var page := Page(Targets(rows), offset, limit);
                |batch.value| == |page|
                && forall i :: 0 <= i < |page| ==>
                     page[i] in rows && rows[page[i]] == Some(batch.value[i].content) && batch.value[i].id == page[i]
    {
      if limit < 0 {
        return None;
      }
      TargetsAreRows(rows);
      var page := Page(Targets(rows), offset, limit);
      var table := rows;
      batch := Some(seq(|page|, i requires 0 <= i < |page| => Chunk(page[i], table[page[i]].value)));
    }
  }

  function Page(ids: seq<Id>, offset: nat, limit: nat): (page: seq<Id>)
    ensures forall id :: id in page ==> id in ids
  {
    if offset >= |ids| then [] else ids[offset..Min(offset + limit, |ids|)]
  }

  /** An open transaction: its writes reach the table when it commits, or never. */
  class Transaction {
    const db: Database
    var pending: Table

    constructor (db: Database)
      ensures this.db == db && pending == db.rows
    {
      this.db := db;
      pending := db.rows;
    }

    /** `UPDATE … WHERE id = …`, which touches nothing when there is no such row. */
    method UpdateContent(id: Id, content: Bytes)
      modifies this
      ensures pending == if id in old(pending) then old(pending)[id := Some(content)] else old(pending)
    {
      if id in pending {
        pending := pending[id := Some(content)];
      }
    }

    method Commit()
      modifies db
      ensures db.rows == pending
    {
      db.rows := pending;
    }
  }

  // ----- What a run may do to the table -----------------------------------------------------------

  ghost predicate SealedAs(c: Cipher, key: Key, plain: Bytes, wire: Bytes) {
    exists iv: Iv :: wire == Wire(c, key, iv, plain)
  }

  datatype Keys = Keys(oldKey: Key, newKey: Key)

  /** One row handled: re-encrypted when the old key opens it, else left alone and known to open with the new. */
  ghost predicate Handled(c: Cipher, k: Keys, before: Bytes, after: Bytes) {
    match Decrypt(c, k.oldKey, before)
    case Some(plain) => SealedAs(c, k.newKey, plain, after)
    case None => after == before && Decrypt(c, k.newKey, before).Some?
  }

  predicate Opened(c: Cipher, key: Key, rows: Table, id: Id)
    requires id in rows
  {
    rows[id].Some? && Decrypt(c, key, rows[id].value).Some?
  }

  /** What became of one row. */
  ghost predicate RowOk(c: Cipher, k: Keys, before: Option<Bytes>, after: Option<Bytes>, handled: bool) {
    if handled then before.Some? && after.Some? && Handled(c, k, before.value, after.value)
    else after == before
  }

  /** The first `m` targets of `before` are handled in `after`; nothing else differs. */
  ghost predicate Advanced(c: Cipher, k: Keys, before: Table, after: Table, m: nat) {
    var ids := Targets(before);
    && m <= |ids| && after.Keys == before.Keys
    && forall id :: id in before ==> RowOk(c, k, before[id], after[id], id in ids[..m])
  }

  lemma AdvancedTargets(c: Cipher, k: Keys, before: Table, after: Table, m: nat)
    requires Advanced(c, k, before, after, m)
    ensures Targets(after) == Targets(before)
  {
    TargetsStable(before, after);
  }

  lemma AdvancedZero(c: Cipher, k: Keys, rows: Table)
    ensures Advanced(c, k, rows, rows, 0) && OldCount(c, k, rows, 0) == 0
  {
  }

  /** A target past the prefix is still as it was. */
  lemma NextUntouched(c: Cipher, k: Keys, before: Table, mid: Table, m: nat, i: nat)
    requires Advanced(c, k, before, mid, m) && m <= i < |Targets(before)|
    ensures var id := Targets(before)[i]; id in before && before[id].Some? && id in mid && mid[id] == before[id]
  {
    hide Handled, Targets;
    TargetsAreRows(before);
    var ids := Targets(before);
    assert ids[i] !in ids[..m];
  }

  /** How many of the first `m` targets the old key opens. */
  ghost function OldCount(c: Cipher, k: Keys, rows: Table, m: nat): (n: nat)
    requires m <= |Targets(rows)|
    ensures n <= m
  {
    if m == 0 then 0
    else
      TargetsAreRows(rows);
      OldCount(c, k, rows, m - 1) + (if Opened(c, k.oldKey, rows, Targets(rows)[m - 1]) then 1 else 0)
  }

  /** Handling the next target extends the prefix by one. */
  lemma AdvanceOne(c: Cipher, k: Keys, before: Table, mid: Table, id: Id, content: Bytes, after: Bytes, m: nat)
    requires Advanced(c, k, before, mid, m) && m < |Targets(before)| && id == Targets(before)[m]
    requires id in before && before[id] == Some(content) && Handled(c, k, content, after)
    ensures id in mid && mid[id] == Some(content)
    ensures Advanced(c, k, before, mid[id := Some(after)], m + 1)
    ensures OldCount(c, k, before, m + 1)
         == OldCount(c, k, before, m) + (if Decrypt(c, k.oldKey, content).Some? then 1 else 0)
  {
    hide Handled, Targets, Decrypt;
    NextUntouched(c, k, before, mid, m, m);
    TargetsAreRows(before);
    var ids := Targets(before);
    assert ids[..m + 1] == ids[..m] + [id];
  }

  // ----- The run ----------------------------------------------------------------------------------

  datatype Outcome =
    | Finished(rotated: nat, skipped: nat)
    | SameKeys
    | DryRun(total: nat)
    | Undecryptable(id: Id)
    | Stopped               // killed, or the database or the random source failed

  /** Where a run may be cut: the n-th interaction with the world does not come back. */
  type Fates = nat -> bool

  /** Handles the rows of one page inside an open transaction. */
  method RotateBatch(c: Cipher, k: Keys, tx: Transaction, batch: seq<Chunk>, fails: Fates, ivs: nat -> Iv, t0: nat,
                     ghost before: Table, ghost done: nat)
    returns (stop: Option<Outcome>, t: nat, rotated: nat, skipped: nat)
    requires Advanced(c, k, before, tx.pending, done)
    requires done + |batch| <= |Targets(before)|
    requires forall i :: 0 <= i < |batch| ==>
               batch[i].id == Targets(before)[done + i] && batch[i].id in before && before[batch[i].id] == Some(batch[i].content)
    modifies tx
    ensures stop.None? ==>
              && Advanced(c, k, before, tx.pending, done + |batch|)
              && rotated == OldCount(c, k, before, done + |batch|) - OldCount(c, k, before, done)
              && rotated + skipped == |batch|
    ensures stop.None? ==> forall i :: 0 <= i < |batch| ==>
              Decrypt(c, k.oldKey, batch[i].content).Some? || Decrypt(c, k.newKey, batch[i].content).Some?
    ensures stop.Some? ==>
              || (stop == Some(Stopped) && exists n :: n >= t0 && fails(n))
              || (stop.value.Undecryptable? && stop.value.id in Targets(before)[done..done + |batch|] && stop.value.id in before
                  && !Opened(c, k.oldKey, before, stop.value.id) && !Opened(c, k.newKey, before, stop.value.id))
  {
    hide Advanced, Targets, OldCount, Decrypt;
    t, rotated, skipped := t0, 0, 0;
    for i := 0 to |batch|
      invariant Advanced(c, k, before, tx.pending, done + i)
      invariant rotated == OldCount(c, k, before, done + i) - OldCount(c, k, before, done)
      invariant rotated + skipped == i && t >= t0
      invariant forall j :: 0 <= j < i ==>
                  Decrypt(c, k.oldKey, batch[j].content).Some? || Decrypt(c, k.newKey, batch[j].content).Some?
    {
      var chunk := batch[i];
      ghost var mid := tx.pending;
      var plain := Decrypt(c, k.oldKey, chunk.content);
      if plain.None? {
        if Decrypt(c, k.newKey, chunk.content).None? {
          assert chunk.id == Targets(before)[done..done + |batch|][i];
          return Some(Undecryptable(chunk.id)), t, rotated, skipped;
        }
        AdvanceOne(c, k, before, mid, chunk.id, chunk.content, chunk.content, done + i);
        assert mid[chunk.id := Some(chunk.content)] == mid;
        skipped := skipped + 1;
      } else {
        if fails(t) {
          return Some(Stopped), t, rotated, skipped;
        }
        var newEnc := Encrypt(c, k.newKey, ivs(t), plain.value);
        assert SealedAs(c, k.newKey, plain.value, newEnc);
        t := t + 1;
        if fails(t) {
          return Some(Stopped), t, rotated, skipped;
        }
        AdvanceOne(c, k, before, mid, chunk.id, chunk.content, newEnc, done + i);
        tx.UpdateContent(chunk.id, newEnc);
        t := t + 1;
        rotated := rotated + 1;
      }
    }
    stop := None;
  }

  lemma AppendBatch(batches: seq<seq<Id>>, ids: seq<Id>)
    ensures Flatten(batches + [ids]) == Flatten(batches) + ids
  {
    assert (batches + [ids])[..|batches|] == batches;
  }

  /** With `offset` targets handled so far, a page holds the next ones, each still as it was. */
  method FetchTargets(c: Cipher, k: Keys, db: Database, offset: nat, limit: int, ghost before: Table)
    returns (page: Option<seq<Chunk>>)
    requires Advanced(c, k, before, db.rows, offset) && offset <= |Targets(before)|
    ensures page.None? <==> limit < 0
    ensures page.Some? ==>
              && |page.value| == Min(limit, |Targets(before)| - offset)
              && forall i :: 0 <= i < |page.value| ==>
                   var chunk := page.value[i];
                   chunk.id == Targets(before)[offset + i] && chunk.id in before && before[chunk.id] == Some(chunk.content)
  {
    hide Advanced, Targets, OldCount;
    AdvancedTargets(c, k, before, db.rows, offset);
    page := db.FetchBatch(offset, limit);
    if page.Some? {
      forall i | 0 <= i < |page.value|
        ensures page.value[i].id == Targets(before)[offset + i] && page.value[i].id in before
        ensures before[page.value[i].id] == Some(page.value[i].content)
      {
        NextUntouched(c, k, before, db.rows, offset, offset + i);
      }
    }
  }

  /** Each of the targets from `i` on, up to `j`, opens under one of the keys. */
  ghost predicate OpenUpTo(c: Cipher, k: Keys, rows: Table, i: nat, j: nat)
    requires j <= |Targets(rows)|
  {
    forall n :: i <= n < j ==>
      var id := Targets(rows)[n];
      id in rows && rows[id].Some?
      && (Decrypt(c, k.oldKey, rows[id].value).Some? || Decrypt(c, k.newKey, rows[id].value).Some?)
  }

  lemma NoneToOpen(c: Cipher, k: Keys, rows: Table, i: nat)
    requires i <= |Targets(rows)|
    ensures OpenUpTo(c, k, rows, i, i)
  {
    hide Targets;
  }

  lemma BatchIsOpen(c: Cipher, k: Keys, rows: Table, offset: nat, batch: seq<Chunk>)
    requires offset + |batch| <= |Targets(rows)|
    requires forall i :: 0 <= i < |batch| ==>
               batch[i].id == Targets(rows)[offset + i] && batch[i].id in rows && rows[batch[i].id] == Some(batch[i].content)
    requires forall i :: 0 <= i < |batch| ==>
               Decrypt(c, k.oldKey, batch[i].content).Some? || Decrypt(c, k.newKey, batch[i].content).Some?
    ensures OpenUpTo(c, k, rows, offset, offset + |batch|)
  {
    hide Targets, Decrypt;
    forall n | offset <= n < offset + |batch|
      ensures var id := Targets(rows)[n];
        id in rows && rows[id].Some?
        && (Decrypt(c, k.oldKey, rows[id].value).Some? || Decrypt(c, k.newKey, rows[id].value).Some?)
    {
      assert batch[n - offset].id == Targets(rows)[offset + (n - offset)];
    }
  }

  /** The rows that the old key opens, among the first `m` targets. */
  ghost function OldOpens(c: Cipher, k: Keys, rows: Table, m: nat): set<Id>
    requires m <= |Targets(rows)|
  {
    set id | id in rows && id in Targets(rows)[..m] && rows[id].Some? && Decrypt(c, k.oldKey, rows[id].value).Some?
  }

  lemma OldOpensStep(c: Cipher, k: Keys, rows: Table, m: nat)
    requires m < |Targets(rows)|
    ensures var id := Targets(rows)[m];
      && id in rows && id !in OldOpens(c, k, rows, m)
      && OldOpens(c, k, rows, m + 1) == OldOpens(c, k, rows, m) + (if Opened(c, k.oldKey, rows, id) then {id} else {})
  {
    hide Targets, Decrypt;
    TargetsAreRows(rows);
    var ids := Targets(rows);
    assert ids[m] !in ids[..m];
    assert forall x :: x in ids[..m + 1] <==> x in ids[..m] || x == ids[m];
  }

  lemma {:induction false} OldCountCounts(c: Cipher, k: Keys, rows: Table, m: nat)
    requires m <= |Targets(rows)|
    ensures OldCount(c, k, rows, m) == |OldOpens(c, k, rows, m)|
  {
    if m == 0 {
      assert OldOpens(c, k, rows, 0) == {};
    } else {
      hide Targets, OldOpens, Opened;
      OldCountCounts(c, k, rows, m - 1);
      OldOpensStep(c, k, rows, m - 1);
    }
  }

  /** Over all targets: every row whose content the old key opens is counted once. */
  lemma RotatedCount(c: Cipher, k: Keys, rows: Table)
    ensures OldCount(c, k, rows, |Targets(rows)|)
         == |set id | id in rows && rows[id].Some? && Decrypt(c, k.oldKey, rows[id].value).Some?|
    ensures |Targets(rows)| == |set id | id in rows && rows[id].Some?|
  {
    OrderedCounts(WithContent(rows));
    assert WithContent(rows) == set id | id in rows && rows[id].Some?;
    hide Targets, Decrypt;
    TargetsAreRows(rows);
    OldCountCounts(c, k, rows, |Targets(rows)|);
    var ids := Targets(rows);
    assert ids[..|ids|] == ids;
    assert OldOpens(c, k, rows, |ids|)
        == set id | id in rows && rows[id].Some? && Decrypt(c, k.oldKey, rows[id].value).Some?;
  }

  lemma NeitherOpens(c: Cipher, k: Keys, rows: Table, id: Id)
    requires id in rows && id in Targets(rows) && !Opened(c, k.oldKey, rows, id) && !Opened(c, k.newKey, rows, id)
    ensures rows[id].Some? && Decrypt(c, k.oldKey, rows[id].value).None? && Decrypt(c, k.newKey, rows[id].value).None?
  {
    hide Decrypt, Targets;
    TargetsAreRows(rows);
  }

  lemma OpenOn(c: Cipher, k: Keys, rows: Table, i: nat, n: nat)
    requires i + n <= |Targets(rows)| && OpenUpTo(c, k, rows, 0, i) && OpenUpTo(c, k, rows, i, i + n)
    ensures OpenUpTo(c, k, rows, 0, i + n)
  {
    hide Decrypt, Targets;
  }

  lemma AllOpen(c: Cipher, k: Keys, rows: Table)
    requires OpenUpTo(c, k, rows, 0, |Targets(rows)|)
    ensures forall id :: id in rows && rows[id].Some? ==>
              Decrypt(c, k.oldKey, rows[id].value).Some? || Decrypt(c, k.newKey, rows[id].value).Some?
  {
    hide Targets, Decrypt;
    TargetsAreRows(rows);
    forall id | id in rows && rows[id].Some?
      ensures Decrypt(c, k.oldKey, rows[id].value).Some? || Decrypt(c, k.newKey, rows[id].value).Some?
    {
      var n :| 0 <= n < |Targets(rows)| && Targets(rows)[n] == id;
    }
  }

  /** Fetches the next page and handles it in its own transaction; an empty page means there is nothing left. */
  method NextBatch(c: Cipher, k: Keys, db: Database, offset: nat, batchSize: int, fails: Fates, ivs: nat -> Iv, t0: nat,
                   ghost before: Table)
    returns (stop: Option<Outcome>, n: nat, t: nat, rotated: nat, skipped: nat)
    requires Advanced(c, k, before, db.rows, offset) && offset <= |Targets(before)|
    modifies db
    ensures stop.None? ==>
              && n == Min(batchSize, |Targets(before)| - offset)
              && Advanced(c, k, before, db.rows, offset + n)
              && rotated == OldCount(c, k, before, offset + n) - OldCount(c, k, before, offset)
              && rotated + skipped == n
    ensures stop.None? ==> OpenUpTo(c, k, before, offset, offset + n)
    ensures stop.Some? ==>
              && db.rows == old(db.rows)
              && (|| (stop == Some(Stopped) && (batchSize < 0 || exists i: nat :: fails(i)))
                  || (stop.value.Undecryptable? && stop.value.id in Targets(before)[offset..] && stop.value.id in before
                      && !Opened(c, k.oldKey, before, stop.value.id) && !Opened(c, k.newKey, before, stop.value.id)))
  {
    hide Advanced, Targets, OldCount, Opened, OpenUpTo;
    n, t, rotated, skipped := 0, t0, 0, 0;
    if fails(t) {
      return Some(Stopped), n, t, rotated, skipped;
    }
    var page := FetchTargets(c, k, db, offset, batchSize, before);
    if page.None? {
      return Some(Stopped), n, t, rotated, skipped;
    }
    var batch := page.value;
    if batch == [] {
      NoneToOpen(c, k, before, offset);
      return None, n, t, rotated, skipped;
    }
    t := t + 1;
    if fails(t) {
      return Some(Stopped), n, t, rotated, skipped;
    }
    var tx := new Transaction(db);
    stop, t, rotated, skipped := RotateBatch(c, k, tx, batch, fails, ivs, t + 1, before, offset);
    if stop.Some? {
      return;
    }
    if fails(t) {
      return Some(Stopped), n, t, rotated, skipped;
    }
    tx.Commit();
    t := t + 1;
    n := |batch|;
    BatchIsOpen(c, k, before, offset, batch);
  }

  /**
   * The whole tool. However it ends, the table is the old one with some prefix of the targets
   * handled, made of whole batches.
   */
  method Rotate(c: Cipher, k: Keys, db: Database, dryRun: bool, batchSize: int, fails: Fates, ivs: nat -> Iv)
    returns (outcome: Outcome, ghost done: nat, ghost batches: seq<seq<Id>>)
    modifies db
    ensures Advanced(c, k, old(db.rows), db.rows, done) && done <= |Targets(old(db.rows))|
    ensures Flatten(batches) == Targets(old(db.rows))[..done]
    ensures forall b :: b in batches ==> 1 <= |b| <= batchSize
    ensures outcome.SameKeys? <==> k.oldKey == k.newKey
    ensures outcome.Finished? ==>
              && done == (if batchSize == 0 then 0 else |Targets(old(db.rows))|)
              && outcome.rotated == OldCount(c, k, old(db.rows), done)
              && outcome.rotated + outcome.skipped == done
    ensures outcome.Undecryptable? ==>
              && outcome.id in Targets(old(db.rows))[done..] && outcome.id in old(db.rows)
              && !Opened(c, k.oldKey, old(db.rows), outcome.id) && !Opened(c, k.newKey, old(db.rows), outcome.id)
    ensures outcome.Finished? && batchSize >= 1 ==>
              var rows := old(db.rows);
              forall id :: id in rows && rows[id].Some? ==>
                Decrypt(c, k.oldKey, rows[id].value).Some? || Decrypt(c, k.newKey, rows[id].value).Some?
    ensures outcome.Finished? && batchSize >= 1 ==>
              var rows := old(db.rows);
              && outcome.rotated == |set id | id in rows && rows[id].Some? && Decrypt(c, k.oldKey, rows[id].value).Some?|
              && outcome.rotated + outcome.skipped == |set id | id in rows && rows[id].Some?|
    ensures k.oldKey != k.newKey && !dryRun && batchSize >= 1 && (forall i :: !fails(i)) ==>
              var rows := old(db.rows);
              (outcome.Undecryptable? <==>
               exists id :: id in rows && rows[id].Some? && Decrypt(c, k.oldKey, rows[id].value).None?
                            && Decrypt(c, k.newKey, rows[id].value).None?)
    ensures outcome.DryRun? ==> dryRun && done == 0 && outcome.total == |Targets(old(db.rows))|
    ensures outcome.Stopped? ==> batchSize < 0 || exists i: nat :: fails(i)
    ensures dryRun ==> db.rows == old(db.rows)
  {
    hide Advanced, Targets, OldCount, Opened, OpenUpTo, Decrypt;
    ghost var before := db.rows;
    AdvancedZero(c, k, before);
    NoneToOpen(c, k, before, 0);
    done, batches := 0, [];
    if k.oldKey == k.newKey {
      return SameKeys, done, batches;
    }
    if fails(0) {
      return Stopped, done, batches;
    }
    var total := db.CountPending();
    if dryRun {
      return DryRun(total), done, batches;
    }
    var rotated: nat, skipped: nat, t: nat := 0, 0, 1;
    var offset: nat := 0;
    while true
      invariant done == offset <= |Targets(before)|
      invariant Advanced(c, k, before, db.rows, offset)
      invariant Flatten(batches) == Targets(before)[..offset]
      invariant forall b :: b in batches ==> 1 <= |b| <= batchSize
      invariant rotated == OldCount(c, k, before, offset) && rotated + skipped == offset
      invariant OpenUpTo(c, k, before, 0, offset)
      decreases |Targets(before)| - offset
    {
      var stop, n, t', r, s := NextBatch(c, k, db, offset, batchSize, fails, ivs, t, before);
      if stop.Some? {
        if stop.value.Undecryptable? {
          NeitherOpens(c, k, before, stop.value.id);
        }
        return stop.value, done, batches;
      }
      OpenOn(c, k, before, offset, n);
      if n == 0 {
        break;
      }
      ghost var ids := Targets(before)[offset..offset + n];
      assert Targets(before)[..offset + n] == Targets(before)[..offset] + ids;
      AppendBatch(batches, ids);
      batches := batches + [ids];
      t, rotated, skipped, offset := t', rotated + r, skipped + s, offset + n;
      done := offset;
    }
    if batchSize >= 1 {
      AllOpen(c, k, before);
      RotatedCount(c, k, before);
    }
    outcome := Finished(rotated, skipped);
  }
}
