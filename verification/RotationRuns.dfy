/** Key rotation over any number of runs, each cut anywhere: nothing is lost, and a finished run is complete. */
module RotationRuns {
  import opened Prelude
  import opened Aead
  import opened KeyRotation

  /** The row holds exactly this plaintext, under the old or the new key. */
  ghost predicate RowHolds(c: Cipher, k: Keys, plain: Option<Bytes>, row: Option<Bytes>) {
    match plain
    case None => row.None?
    case Some(p) => row.Some? && (SealedAs(c, k.oldKey, p, row.value) || SealedAs(c, k.newKey, p, row.value))
  }

  ghost predicate RowIsNew(c: Cipher, k: Keys, plain: Option<Bytes>, row: Option<Bytes>) {
    match plain
    case None => row.None?
    case Some(p) => row.Some? && SealedAs(c, k.newKey, p, row.value)
  }

  /** Every row holds its own plaintext. */
  ghost predicate Holds(c: Cipher, k: Keys, plain: Table, rows: Table) {
    rows.Keys == plain.Keys && forall id :: id in rows ==> RowHolds(c, k, plain[id], rows[id])
  }

  ghost predicate AllNew(c: Cipher, k: Keys, plain: Table, rows: Table) {
    rows.Keys == plain.Keys && forall id :: id in rows ==> RowIsNew(c, k, plain[id], rows[id])
  }

  /** The key under which a row was sealed is the key that opens it: the test by trial decryption is exact. */
  lemma TrialDecryptionIsExact(c: Cipher, k: Keys, p: Bytes, wire: Bytes)
    requires Ideal(c, k.oldKey, k.newKey)
    requires SealedAs(c, k.oldKey, p, wire) || SealedAs(c, k.newKey, p, wire)
    ensures SealedAs(c, k.oldKey, p, wire) ==> Decrypt(c, k.oldKey, wire) == Some(p) && Decrypt(c, k.newKey, wire) == None
    ensures SealedAs(c, k.newKey, p, wire) ==> Decrypt(c, k.newKey, wire) == Some(p) && Decrypt(c, k.oldKey, wire) == None
    ensures SealedAs(c, k.oldKey, p, wire) <==> !SealedAs(c, k.newKey, p, wire)
  {
    hide Decrypt, Wire;
    if SealedAs(c, k.oldKey, p, wire) {
      var iv: Iv :| wire == Wire(c, k.oldKey, iv, p);
      DecryptWire(c, k.oldKey, k.newKey, iv, p);
    }
    if SealedAs(c, k.newKey, p, wire) {
      var iv: Iv :| wire == Wire(c, k.newKey, iv, p);
      DecryptWire(c, k.newKey, k.oldKey, iv, p);
    }
  }

  /** One row through one run: it keeps its plaintext, ends under the new key if it was handled, and once new is left alone. */
  lemma RowThroughRun(c: Cipher, k: Keys, plain: Option<Bytes>, before: Option<Bytes>, after: Option<Bytes>, handled: bool)
    requires Ideal(c, k.oldKey, k.newKey)
    requires RowHolds(c, k, plain, before) && RowOk(c, k, before, after, handled)
    ensures RowHolds(c, k, plain, after)
    ensures handled ==> RowIsNew(c, k, plain, after)
    ensures RowIsNew(c, k, plain, before) ==> after == before
  {
    hide SealedAs, Ideal, Decrypt;
    if plain.Some? {
      TrialDecryptionIsExact(c, k, plain.value, before.value);
    }
  }

  /** A run that was cut, failed, or finished: some prefix of the targets is handled. */
  ghost predicate OneRun(c: Cipher, k: Keys, before: Table, after: Table) {
    exists m :: Advanced(c, k, before, after, m)
  }

  lemma RunKeepsPlaintext(c: Cipher, k: Keys, plain: Table, before: Table, after: Table)
    requires Ideal(c, k.oldKey, k.newKey) && Holds(c, k, plain, before) && OneRun(c, k, before, after)
    ensures Holds(c, k, plain, after)
    ensures forall id :: id in before && RowIsNew(c, k, plain[id], before[id]) ==> after[id] == before[id]
  {
    hide RowHolds, RowIsNew, RowOk, Ideal;
    var m: nat :| Advanced(c, k, before, after, m);
    forall id | id in before
      ensures RowHolds(c, k, plain[id], after[id])
      ensures RowIsNew(c, k, plain[id], before[id]) ==> after[id] == before[id]
    {
      RowThroughRun(c, k, plain[id], before[id], after[id], id in Targets(before)[..m]);
    }
  }

  /** Any sequence of runs: no row ever loses its plaintext, and a row once new keeps its bytes for ever. */
  lemma {:induction false} RunsKeepPlaintext(c: Cipher, k: Keys, plain: Table, tables: seq<Table>, i: nat, j: nat)
    requires Ideal(c, k.oldKey, k.newKey) && i <= j < |tables|
    requires Holds(c, k, plain, tables[0])
    requires forall n :: 0 < n < |tables| ==> OneRun(c, k, tables[n - 1], tables[n])
    ensures Holds(c, k, plain, tables[j])
    ensures forall id :: id in plain && id in tables[i] && id in tables[j] && RowIsNew(c, k, plain[id], tables[i][id])
              ==> tables[j][id] == tables[i][id]
  {
    hide OneRun, RowHolds, RowIsNew, Ideal;
    if 0 < j {
      RunsKeepPlaintext(c, k, plain, tables, if i < j then i else j - 1, j - 1);
      RunKeepsPlaintext(c, k, plain, tables[j - 1], tables[j]);
    }
  }

  /** Rows that hold their plaintext never stop a run. */
  lemma NeverUndecryptable(c: Cipher, k: Keys, plain: Table, rows: Table, id: Id)
    requires Ideal(c, k.oldKey, k.newKey) && Holds(c, k, plain, rows) && id in Targets(rows)
    ensures id in rows && (Opened(c, k.oldKey, rows, id) || Opened(c, k.newKey, rows, id))
  {
    hide Decrypt, Ideal, SealedAs;
    TargetsAreRows(rows);
    assert RowHolds(c, k, plain[id], rows[id]);
    TrialDecryptionIsExact(c, k, plain[id].value, rows[id].value);
  }

  /** A run that reaches the last target leaves every row new. */
  lemma FullPrefixIsComplete(c: Cipher, k: Keys, plain: Table, before: Table, after: Table)
    requires Ideal(c, k.oldKey, k.newKey) && Holds(c, k, plain, before)
    requires Advanced(c, k, before, after, |Targets(before)|)
    ensures AllNew(c, k, plain, after)
  {
    hide RowOk, Ideal, SealedAs, Targets;
    TargetsAreRows(before);
    forall id | id in before ensures RowIsNew(c, k, plain[id], after[id]) {
      assert Targets(before)[..|Targets(before)|] == Targets(before);
      assert RowHolds(c, k, plain[id], before[id]);
      RowThroughRun(c, k, plain[id], before[id], after[id], id in Targets(before));
      if id !in Targets(before) {
        assert RowOk(c, k, before[id], after[id], false);
        UnhandledRow(c, k, before[id], after[id]);
      }
    }
  }

  lemma UnhandledRow(c: Cipher, k: Keys, before: Option<Bytes>, after: Option<Bytes>)
    requires RowOk(c, k, before, after, false)
    ensures after == before
  {
  }

  /**
   * A run that reports completion did complete if and only if its batch size was at least 1 or there
   * was nothing left to do: with a batch size of 0 the first page is empty and the loop ends at once.
   */
  lemma FinishedMeansAllNew(c: Cipher, k: Keys, plain: Table, before: Table, after: Table, batchSize: nat)
    requires Ideal(c, k.oldKey, k.newKey) && Holds(c, k, plain, before)
    requires Advanced(c, k, before, after, if batchSize == 0 then 0 else |Targets(before)|)
    ensures AllNew(c, k, plain, after) <==> batchSize >= 1 || AllNew(c, k, plain, before)
  {
    hide RowOk, Ideal, RowIsNew, RowHolds;
    if batchSize == 0 {
      forall id | id in before ensures after[id] == before[id] {
        assert RowOk(c, k, before[id], after[id], false);
        UnhandledRow(c, k, before[id], after[id]);
      }
      assert after == before;
    } else {
      FullPrefixIsComplete(c, k, plain, before, after);
    }
  }

  /** Once everything is new there is nothing left to rotate: a further run counts no row as rotated. */
  lemma {:induction false} NothingLeftToRotate(c: Cipher, k: Keys, plain: Table, rows: Table, m: nat)
    requires Ideal(c, k.oldKey, k.newKey) && AllNew(c, k, plain, rows) && m <= |Targets(rows)|
    ensures OldCount(c, k, rows, m) == 0
  {
    hide Decrypt, Ideal, SealedAs;
    if 0 < m {
      NothingLeftToRotate(c, k, plain, rows, m - 1);
      TargetsAreRows(rows);
      var id := Targets(rows)[m - 1];
      assert RowIsNew(c, k, plain[id], rows[id]);
      TrialDecryptionIsExact(c, k, plain[id].value, rows[id].value);
    }
  }

  /** Killed runs, then one that finishes: every row holds its original plaintext under the new key. */
  lemma KilledRunsThenFinish(c: Cipher, k: Keys, plain: Table, tables: seq<Table>, final: Table)
    requires Ideal(c, k.oldKey, k.newKey) && tables != [] && Holds(c, k, plain, tables[0])
    requires forall n :: 0 < n < |tables| ==> OneRun(c, k, tables[n - 1], tables[n])
    requires Advanced(c, k, tables[|tables| - 1], final, |Targets(tables[|tables| - 1])|)
    ensures AllNew(c, k, plain, final)
  {
    hide OneRun, Holds, AllNew, Ideal, Advanced;
    RunsKeepPlaintext(c, k, plain, tables, 0, |tables| - 1);
    FullPrefixIsComplete(c, k, plain, tables[|tables| - 1], final);
  }
}
