/** The batching embedding client: slices of the input, answers put back in order, results appended. */
module Embedder {
  import opened Prelude

  type Vector = seq<real>

  /** One entry of the server's answer: the position of its text within the batch, and the vector. */
  datatype EmbedData = EmbedData(index: nat, embedding: Vector)

  /** What the embedding model computes, text by text. */
  type Model = string -> Vector

  function MapModel(model: Model, texts: seq<string>): (r: seq<Vector>)
    ensures |r| == |texts| && forall i :: 0 <= i < |r| ==> r[i] == model(texts[i])
  {
    seq(|texts|, i requires 0 <= i < |texts| => model(texts[i]))
  }

  function Tagged(model: Model, batch: seq<string>): (r: seq<EmbedData>)
    ensures |r| == |batch| && forall i :: 0 <= i < |r| ==> r[i] == EmbedData(i, model(batch[i]))
  {
    seq(|batch|, i requires 0 <= i < |batch| => EmbedData(i, model(batch[i])))
  }

  /** The answer holds the vector of every text once, tagged with its position, in any order. */
  ghost predicate Honest(model: Model, batch: seq<string>, answer: seq<EmbedData>) {
    multiset(answer) == multiset(Tagged(model, batch))
  }

  // ----- The library's stable `sort_by_key` on the index ------------------------------------------

  ghost predicate SortedByIndex(s: seq<EmbedData>) {
    forall i, j :: 0 <= i < j < |s| ==> s[i].index <= s[j].index
  }

  function InsertByIndex(d: EmbedData, s: seq<EmbedData>): seq<EmbedData> {
    if s == [] || d.index <= s[0].index then [d] + s else [s[0]] + InsertByIndex(d, s[1..])
  }

  function SortByIndex(s: seq<EmbedData>): seq<EmbedData> {
    if s == [] then [] else InsertByIndex(s[0], SortByIndex(s[1..]))
  }

  lemma SortedCons(d: EmbedData, s: seq<EmbedData>)
    requires SortedByIndex(s) && forall x :: x in s ==> d.index <= x.index
    ensures SortedByIndex([d] + s)
  {
  }

  lemma {:induction false} InsertByIndexSorts(d: EmbedData, s: seq<EmbedData>)
    requires SortedByIndex(s)
    ensures SortedByIndex(InsertByIndex(d, s))
    ensures multiset(InsertByIndex(d, s)) == multiset(s) + multiset{d}
    ensures forall x :: x in InsertByIndex(d, s) <==> x == d || x in s
  {
    if s == [] || d.index <= s[0].index {
      SortedCons(d, s);
    } else {
      InsertByIndexSorts(d, s[1..]);
      assert s == [s[0]] + s[1..];
      SortedCons(s[0], InsertByIndex(d, s[1..]));
    }
  }

  lemma {:induction false} SortByIndexSorts(s: seq<EmbedData>)
    ensures SortedByIndex(SortByIndex(s)) && multiset(SortByIndex(s)) == multiset(s)
  {
    if s != [] {
      SortByIndexSorts(s[1..]);
      InsertByIndexSorts(s[0], SortByIndex(s[1..]));
      assert s == [s[0]] + s[1..];
    }
  }

  ghost predicate DistinctIndices(s: seq<EmbedData>) {
    forall i, j :: 0 <= i < j < |s| ==> s[i].index < s[j].index
  }

  lemma SameHead(a: seq<EmbedData>, b: seq<EmbedData>)
    requires SortedByIndex(a) && multiset(a) == multiset(b) && DistinctIndices(b) && a != [] && b != []
    ensures a[0] == b[0]
  {
    assert a[0] in multiset(b) && b[0] in multiset(a);
    var i :| 0 <= i < |b| && b[i] == a[0];
    var j :| 0 <= j < |a| && a[j] == b[0];
  }

  /** A sorted rearrangement of distinct indices is the only one. */
  lemma {:induction false} SortedRearrangement(a: seq<EmbedData>, b: seq<EmbedData>)
    requires SortedByIndex(a) && multiset(a) == multiset(b) && DistinctIndices(b)
    ensures a == b
  {
    assert |multiset(a)| == |a| && |multiset(b)| == |b|;
    if b != [] {
      SameHead(a, b);
      var a', b' := a[1..], b[1..];
      assert a == [a[0]] + a' && b == [b[0]] + b';
      assert multiset(a') == multiset(a) - multiset{a[0]};
      assert multiset(b') == multiset(b) - multiset{b[0]};
      SortedRearrangement(a', b');
    }
  }

  /** Sorting undoes any reordering by the server. */
  lemma SortUndoesReordering(model: Model, batch: seq<string>, answer: seq<EmbedData>)
    requires Honest(model, batch, answer)
    ensures |answer| == |batch| && SortByIndex(answer) == Tagged(model, batch)
  {
    SortByIndexSorts(answer);
    SortedRearrangement(SortByIndex(answer), Tagged(model, batch));
    assert |multiset(answer)| == |answer| && |multiset(Tagged(model, batch))| == |batch|;
  }

  // ----- The client --------------------------------------------------------------------------------

  /** The server: its answer to the n-th request, or `None` for a transport or HTTP error. */
  type Server = (nat, seq<string>) -> Option<seq<EmbedData>>

  ghost predicate HonestServer(model: Model, server: Server) {
    forall n, batch :: server(n, batch).Some? ==> Honest(model, batch, server(n, batch).value)
  }

  datatype EmbedClient = EmbedClient(server: Server, batchSize: nat) {

    static function New(server: Server, batchSize: nat): (client: EmbedClient)
      ensures client.batchSize >= 1
    {
      EmbedClient(server, Max(batchSize, 1))
    }

    /** One vector per text, in input order, whatever the batch size and however the server reorders. */
    method EmbedBatch(texts: seq<string>, ghost model: Model) returns (r: Option<seq<Vector>>)
      requires batchSize >= 1 && HonestServer(model, server)
      ensures r.Some? ==> r.value == MapModel(model, texts)
      ensures (forall n, batch :: server(n, batch).Some?) ==> r.Some?
    {
      var all := [];
      var start := 0;
      var n := 0;
      while start < |texts|
        invariant start <= |texts|
        invariant all == MapModel(model, texts[..start])
      {
        var end := Min(start + batchSize, |texts|);
        var batch := texts[start..end];
        var result := EmbedOneBatch(n, batch);
        if server(n, batch).Some? {
          SortHonest(model, n, batch);
        }
        if result.None? {
          return None;
        }
        all := all + result.value;
        assert texts[..end] == texts[..start] + batch;
        start := end;
        n := n + 1;
      }
      assert texts[..|texts|] == texts;
      r := Some(all);
    }

    lemma SortHonest(model: Model, n: nat, batch: seq<string>)
      requires HonestServer(model, server) && server(n, batch).Some?
      ensures var answer := server(n, batch).value;
              |answer| == |batch| && SortByIndex(answer) == Tagged(model, batch)
    {
      SortUndoesReordering(model, batch, server(n, batch).value);
    }

    /** Fails on a transport error and on an answer of the wrong length, and on nothing else. */
    method EmbedOneBatch(n: nat, texts: seq<string>) returns (r: Option<seq<Vector>>)
      ensures r.Some? <==> server(n, texts).Some? && |server(n, texts).value| == |texts|
      ensures r.Some? ==>
                var sorted := SortByIndex(server(n, texts).value);
                |r.value| == |sorted| && forall i :: 0 <= i < |sorted| ==> r.value[i] == sorted[i].embedding
    {
      var response := server(n, texts);
      if response.None? {
        return None;
      }
      var data := response.value;
      if |data| != |texts| {
        return None;
      }
      data := SortByIndex(data);
      r := Some(seq(|data|, i requires 0 <= i < |data| => data[i].embedding));
    }
  }
}
