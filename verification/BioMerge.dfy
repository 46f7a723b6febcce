/** Merging BIO-tagged tokens into entity spans: the one-pass fold and the maximal runs it finds. */
module BioMerge {
  import opened Prelude
  import opened Spans

  function MapLabel(tagName: string): Option<EntityKind> {
    if tagName == "B-PER" || tagName == "I-PER" then Some(Person)
    else if tagName == "B-ORG" || tagName == "I-ORG" then Some(Org)
    else if tagName == "B-LOC" || tagName == "I-LOC" then Some(Loc)
    else None
  }

  /** What the fold sees of one token: special, `O`, unknown and MISC tokens all cut. */
  datatype Tag = Cut | Begin(kind: EntityKind) | Inside(kind: EntityKind)

  /** The model's output for one text. */
  datatype Tokens = Tokens(offsets: seq<(nat, nat)>, labelIds: seq<nat>, labels: seq<string>) {
    function Offset(i: nat): (nat, nat) {
      if i < |offsets| then offsets[i] else (0, 0)
    }

    function Label(i: nat): string
      requires i < |labelIds|
    {
      if labelIds[i] < |labels| then labels[labelIds[i]] else "O"
    }

    predicate Special(i: nat) {
      Offset(i) == (0, 0)
    }

    function TagAt(i: nat): Tag
      requires i < |labelIds|
    {
      var kind := MapLabel(Label(i));
      if Special(i) || kind.None? then Cut
      else if "B-" <= Label(i) then Begin(kind.value)
      else Inside(kind.value)
    }

    function Tags(): (tags: seq<Tag>)
      ensures |tags| == |labelIds| && forall i :: 0 <= i < |tags| ==> tags[i] == TagAt(i)
    {
      seq(|labelIds|, i requires 0 <= i < |labelIds| => TagAt(i))
    }
  }

  /** Which names make which kind of token: persons, organisations and places, and nothing else. */
  lemma KindsOfNames(t: Tokens, i: nat)
    requires i < |t.labelIds| && t.Offset(i) != (0, 0)
    ensures t.TagAt(i) == Begin(Person) <==> t.Label(i) == "B-PER"
    ensures t.TagAt(i) == Inside(Person) <==> t.Label(i) == "I-PER"
    ensures t.TagAt(i) == Begin(Org) <==> t.Label(i) == "B-ORG"
    ensures t.TagAt(i) == Inside(Org) <==> t.Label(i) == "I-ORG"
    ensures t.TagAt(i) == Begin(Loc) <==> t.Label(i) == "B-LOC"
    ensures t.TagAt(i) == Inside(Loc) <==> t.Label(i) == "I-LOC"
    ensures t.TagAt(i) != Cut <==> t.Label(i) in {"B-PER", "I-PER", "B-ORG", "I-ORG", "B-LOC", "I-LOC"}
  {
  }

  // ----- Maximal runs, declared without the fold ------------------------------------------------

  /** Token `i` carries on what token `i - 1` began. */
  predicate Extends(tags: seq<Tag>, i: nat)
    requires i < |tags|
  {
    tags[i].Inside? && 0 < i && !tags[i - 1].Cut? && tags[i - 1].kind == tags[i].kind
  }

  /** A run begins at a `B-` tag, after a cut, at a change of kind, and at a stray `I-` tag. */
  predicate Starts(tags: seq<Tag>, i: nat)
    requires i < |tags|
  {
    !tags[i].Cut? && !Extends(tags, i)
  }

  /** Tokens `i..j` (inclusive) form a maximal run. */
  ghost predicate IsRun(tags: seq<Tag>, i: nat, j: nat) {
    && i <= j < |tags|
    && Starts(tags, i)
    && (forall k :: i < k <= j ==> Extends(tags, k))
    && (j + 1 < |tags| ==> !Extends(tags, j + 1))
  }

  function RunEnd(tags: seq<Tag>, i: nat): (j: nat)
    requires i < |tags|
    ensures i <= j < |tags|
    decreases |tags| - i
  {
    if i + 1 < |tags| && Extends(tags, i + 1) then RunEnd(tags, i + 1) else i
  }

  /** The runs that begin at token `i` or later. */
  function Runs(tags: seq<Tag>, i: nat): (runs: seq<(nat, nat)>)
    requires i <= |tags|
    ensures forall r :: r in runs ==> r.0 <= r.1 < |tags| && !tags[r.0].Cut?
    decreases |tags| - i
  {
    if i == |tags| then []
    else if Starts(tags, i) then [(i, RunEnd(tags, i))] + Runs(tags, i + 1)
    else Runs(tags, i + 1)
  }

  function SpanOf(t: Tokens, tags: seq<Tag>, run: (nat, nat)): Span
    requires run.0 < |tags| && !tags[run.0].Cut?
  {
    Span(t.Offset(run.0).0, t.Offset(run.1).1, tags[run.0].kind)
  }

  /** The spans of the runs that begin at token `i` or later. */
  function SpansFrom(t: Tokens, tags: seq<Tag>, i: nat): seq<Span>
    requires i <= |tags|
    decreases |tags| - i
  {
    if i == |tags| then []
    else if Starts(tags, i) then [SpanOf(t, tags, (i, RunEnd(tags, i)))] + SpansFrom(t, tags, i + 1)
    else SpansFrom(t, tags, i + 1)
  }

  // ----- The fold -------------------------------------------------------------------------------

  datatype Open = Open(start: nat, end: nat, kind: EntityKind)

  /** What the fold pushes when it closes the open run. */
  function Closed(open: Option<Open>): seq<Span> {
    if open.Some? then [Span(open.value.start, open.value.end, open.value.kind)] else []
  }

  /** What is still to come: the open run, carried to its end, and the runs that begin later. */
  ghost function Pending(t: Tokens, tags: seq<Tag>, i: nat, open: Option<Open>): seq<Span>
    requires i <= |tags| && (open.Some? ==> 0 < i)
  {
    match open
    case None => SpansFrom(t, tags, i)
    case Some(o) => [Span(o.start, t.Offset(RunEnd(tags, i - 1)).1, o.kind)] + SpansFrom(t, tags, i)
  }

  ghost predicate OpenMatches(t: Tokens, tags: seq<Tag>, i: nat, open: Option<Open>) {
    && i <= |tags|
    && (open.None? <==> i == 0 || tags[i - 1].Cut?)
    && (open.Some? ==> tags[i - 1].kind == open.value.kind && t.Offset(i - 1).1 == open.value.end)
  }

  lemma FoldCloses(t: Tokens, tags: seq<Tag>, i: nat, open: Option<Open>, before: seq<Span>)
    requires i < |tags| && OpenMatches(t, tags, i, open) && tags[i].Cut?
    ensures before + Closed(open) + Pending(t, tags, i + 1, None) == before + Pending(t, tags, i, open)
  {
  }

  lemma FoldOpens(t: Tokens, tags: seq<Tag>, i: nat, open: Option<Open>, before: seq<Span>)
    requires i < |tags| && OpenMatches(t, tags, i, open)
    requires !tags[i].Cut? && !Extends(tags, i)
    ensures before + Closed(open) + Pending(t, tags, i + 1, Some(Open(t.Offset(i).0, t.Offset(i).1, tags[i].kind)))
         == before + Pending(t, tags, i, open)
  {
    assert SpansFrom(t, tags, i) == [SpanOf(t, tags, (i, RunEnd(tags, i)))] + SpansFrom(t, tags, i + 1);
  }

  lemma FoldExtends(t: Tokens, tags: seq<Tag>, i: nat, open: Option<Open>, before: seq<Span>)
    requires i < |tags| && OpenMatches(t, tags, i, open) && open.Some? && Extends(tags, i)
    ensures before + Pending(t, tags, i + 1, Some(Open(open.value.start, t.Offset(i).1, open.value.kind)))
         == before + Pending(t, tags, i, open)
  {
  }

  /** The tag in terms of the tests the fold makes on the tag's name. */
  lemma TagOfName(t: Tokens, i: nat)
    requires i < |t.labelIds|
    ensures var kind, isBegin, isInside := MapLabel(t.Label(i)), "B-" <= t.Label(i), "I-" <= t.Label(i);
            t.TagAt(i) == if t.Offset(i) == (0, 0) then Cut
                          else if kind.Some? && isBegin then Begin(kind.value)
                          else if kind.Some? && isInside then Inside(kind.value)
                          else Cut
  {
  }

  method Merge(t: Tokens) returns (out: seq<Span>)
    ensures out == SpansFrom(t, t.Tags(), 0)
  {
    ghost var tags := t.Tags();
    out := [];
    var open: Option<Open> := None;
    for i := 0 to |t.labelIds|
      invariant OpenMatches(t, tags, i, open)
      invariant out + Pending(t, tags, i, open) == SpansFrom(t, tags, 0)
    {
      TagOfName(t, i);
      hide MapLabel, Tokens.TagAt, SpansFrom, RunEnd, Tokens.Label;
      var (s, e) := t.Offset(i);
      if s == 0 && e == 0 {
        FoldCloses(t, tags, i, open, out);
        out := out + Closed(open);
        open := None;
        continue;
      }
      var name := t.Label(i);
      var kind := MapLabel(name);
      var isBegin := "B-" <= name;
      var isInside := "I-" <= name;
      if kind.Some? && isBegin {
        FoldOpens(t, tags, i, open, out);
        out := out + Closed(open);
        open := Some(Open(s, e, kind.value));
      } else if kind.Some? && isInside && open.Some? && open.value.kind == kind.value {
        FoldExtends(t, tags, i, open, out);
        open := Some(Open(open.value.start, e, open.value.kind));
      } else if kind.Some? && isInside {
        // stray: no run is open, or one of another kind
        FoldOpens(t, tags, i, open, out);
        out := out + Closed(open);
        open := Some(Open(s, e, kind.value));
      } else {
        FoldCloses(t, tags, i, open, out);
        out := out + Closed(open);
        open := None;
      }
    }
    out := out + Closed(open);
  }

  // ----- The fold finds exactly the maximal runs -------------------------------------------------

  lemma {:induction false} RunEndIsRun(tags: seq<Tag>, i: nat, j: nat)
    requires i < |tags| && !tags[i].Cut?
    ensures (forall k :: i < k <= RunEnd(tags, i) ==> Extends(tags, k))
    ensures RunEnd(tags, i) + 1 < |tags| ==> !Extends(tags, RunEnd(tags, i) + 1)
    ensures j == RunEnd(tags, i) <==>
              i <= j < |tags| && (forall k :: i < k <= j ==> Extends(tags, k)) && (j + 1 < |tags| ==> !Extends(tags, j + 1))
    decreases |tags| - i
  {
    if i + 1 < |tags| && Extends(tags, i + 1) {
      RunEndIsRun(tags, i + 1, j);
    }
  }

  lemma {:induction false} RunsFrom(tags: seq<Tag>, from: nat, i: nat, j: nat)
    requires from <= |tags|
    ensures (i, j) in Runs(tags, from) <==> from <= i && IsRun(tags, i, j)
    decreases |tags| - from
  {
    if from < |tags| {
      RunsFrom(tags, from + 1, i, j);
      if from == i && Starts(tags, i) {
        RunEndIsRun(tags, i, j);
        assert (i, j) in Runs(tags, from) <==> (i, j) == (from, RunEnd(tags, from)) || (i, j) in Runs(tags, from + 1);
      }
    }
  }

  /** A pair of tokens bounds a run of the fold if and only if it is a maximal run. */
  lemma RunsAreTheMaximalRuns(tags: seq<Tag>, i: nat, j: nat)
    ensures (i, j) in Runs(tags, 0) <==> IsRun(tags, i, j)
  {
    RunsFrom(tags, 0, i, j);
  }

  lemma {:induction false} SpansOfRuns(t: Tokens, tags: seq<Tag>, i: nat)
    requires i <= |tags|
    ensures var runs, out := Runs(tags, i), SpansFrom(t, tags, i);
            |out| == |runs| && forall r :: 0 <= r < |runs| ==> out[r] == SpanOf(t, tags, runs[r])
    decreases |tags| - i
  {
    if i < |tags| {
      SpansOfRuns(t, tags, i + 1);
    }
  }

  lemma {:induction false} RunsIncrease(tags: seq<Tag>, i: nat)
    requires i <= |tags|
    ensures var runs := Runs(tags, i);
            (forall r :: 0 <= r < |runs| ==> i <= runs[r].0)
            && (forall r, s :: 0 <= r < s < |runs| ==> runs[r].1 < runs[s].0)
    decreases |tags| - i
  {
    if i < |tags| {
      RunsIncrease(tags, i + 1);
      if Starts(tags, i) {
        RunEndIsRun(tags, i, RunEnd(tags, i));
        var rest := Runs(tags, i + 1);
        forall s | 0 <= s < |rest| ensures RunEnd(tags, i) < rest[s].0 {
          RunsFrom(tags, i + 1, rest[s].0, rest[s].1);
          assert rest[s] in rest;
          assert Starts(tags, rest[s].0);
        }
      }
    }
  }

  /** The kind stays the same along a run, and nothing in it is cut. */
  lemma {:induction false} RunKind(tags: seq<Tag>, i: nat, j: nat, k: nat)
    requires IsRun(tags, i, j) && i <= k <= j
    ensures !tags[k].Cut? && tags[k].kind == tags[i].kind
    decreases k
  {
    if i < k {
      RunKindStep(tags, i, j, k);
      RunKind(tags, i, j, k - 1);
    }
  }

  lemma RunKindStep(tags: seq<Tag>, i: nat, j: nat, k: nat)
    requires IsRun(tags, i, j) && i < k <= j
    ensures Extends(tags, k)
  {
  }

  /** Every labelled token belongs to a maximal run: walk back to where it started. */
  lemma {:induction false} RunContaining(tags: seq<Tag>, k: nat) returns (i: nat)
    requires k < |tags| && !tags[k].Cut?
    ensures i <= k <= RunEnd(tags, i) && IsRun(tags, i, RunEnd(tags, i))
    decreases k
  {
    if Starts(tags, k) {
      i := k;
      RunEndIsRun(tags, i, RunEnd(tags, i));
    } else {
      i := RunContaining(tags, k - 1);
    }
  }

  // ----- What that means for the text -------------------------------------------------------------

  /** Token offsets are increasing and disjoint, special tokens aside. */
  ghost predicate WellPlaced(t: Tokens) {
    && (forall i :: 0 <= i < |t.labelIds| && !t.Special(i) ==> t.Offset(i).0 < t.Offset(i).1)
    && (forall i, j :: 0 <= i < j < |t.labelIds| && !t.Special(i) && !t.Special(j) ==> t.Offset(i).1 <= t.Offset(j).0)
  }

  /** Offsets at two labelled or unlabelled tokens, first the earlier one. */
  lemma OffsetsIncrease(t: Tokens, i: nat, j: nat)
    requires WellPlaced(t) && i <= j < |t.labelIds| && !t.Special(i) && !t.Special(j)
    ensures t.Offset(i).0 < t.Offset(i).1 && t.Offset(i).0 <= t.Offset(j).0 && t.Offset(i).1 <= t.Offset(j).1
    ensures i < j ==> t.Offset(i).1 <= t.Offset(j).0
  {
  }

  ghost predicate LiesIn(t: Tokens, k: nat, s: Span) {
    s.start <= t.Offset(k).0 && t.Offset(k).1 <= s.end
  }

  lemma RunBounds(t: Tokens, run: (nat, nat))
    requires WellPlaced(t) && IsRun(t.Tags(), run.0, run.1)
    ensures !t.Special(run.0) && !t.Special(run.1)
    ensures t.Offset(run.0).0 < t.Offset(run.1).1
  {
    var tags := t.Tags();
    RunKind(tags, run.0, run.1, run.0);
    RunKind(tags, run.0, run.1, run.1);
    assert tags[run.0] == t.TagAt(run.0) && tags[run.1] == t.TagAt(run.1);
    OffsetsIncrease(t, run.0, run.1);
  }

  lemma RunAt(t: Tokens, r: nat) returns (run: (nat, nat))
    requires r < |SpansFrom(t, t.Tags(), 0)|
    ensures r < |Runs(t.Tags(), 0)| && run == Runs(t.Tags(), 0)[r]
    ensures IsRun(t.Tags(), run.0, run.1) && SpansFrom(t, t.Tags(), 0)[r] == SpanOf(t, t.Tags(), run)
    ensures SpansFrom(t, t.Tags(), 0)[r] == Span(t.Offset(run.0).0, t.Offset(run.1).1, t.TagAt(run.0).kind)
  {
    var tags := t.Tags();
    SpansOfRuns(t, tags, 0);
    run := Runs(tags, 0)[r];
    assert run in Runs(tags, 0);
    RunsAreTheMaximalRuns(tags, run.0, run.1);
  }

  /** The output is sorted, disjoint and free of empty spans. */
  lemma SpansSortedDisjoint(t: Tokens, r: nat, s: nat)
    requires WellPlaced(t)
    requires r < s < |SpansFrom(t, t.Tags(), 0)|
    ensures var out := SpansFrom(t, t.Tags(), 0);
            out[r].start < out[r].end <= out[s].start < out[s].end
  {
    var a := RunAt(t, r);
    var b := RunAt(t, s);
    RunsIncrease(t.Tags(), 0);
    RunBounds(t, a);
    RunBounds(t, b);
    OffsetsIncrease(t, a.1, b.0);
  }

  /** A labelled token lies in exactly one span, and that span has its kind. */
  lemma LabelledTokenInOneSpan(t: Tokens, k: nat) returns (r: nat)
    requires WellPlaced(t) && k < |t.labelIds| && !t.TagAt(k).Cut?
    ensures var out := SpansFrom(t, t.Tags(), 0);
            r < |out| && LiesIn(t, k, out[r]) && out[r].kind == t.TagAt(k).kind
            && forall q :: 0 <= q < |out| && LiesIn(t, k, out[q]) ==> q == r
  {
    var tags, out := t.Tags(), SpansFrom(t, t.Tags(), 0);
    assert tags[k] == t.TagAt(k);
    var i := RunContaining(tags, k);
    var j := RunEnd(tags, i);
    RunsAreTheMaximalRuns(tags, i, j);
    SpansOfRuns(t, tags, 0);
    r :| 0 <= r < |Runs(tags, 0)| && Runs(tags, 0)[r] == (i, j);
    RunKind(tags, i, j, k);
    RunBounds(t, (i, j));
    OffsetsIncrease(t, i, k);
    OffsetsIncrease(t, k, j);
    forall q | 0 <= q < |out| && LiesIn(t, k, out[q]) ensures q == r {
      if q < r {
        SpansSortedDisjoint(t, q, r);
      } else if r < q {
        SpansSortedDisjoint(t, r, q);
      }
    }
  }

  /** The name says that the token carries on the one before it: an inside of the kind that the other has. */
  predicate CarriesOn(name: string, before: string) {
    || (name == "I-PER" && (before == "B-PER" || before == "I-PER"))
    || (name == "I-ORG" && (before == "B-ORG" || before == "I-ORG"))
    || (name == "I-LOC" && (before == "B-LOC" || before == "I-LOC"))
  }

  lemma ExtendsByName(t: Tokens, k: nat)
    requires k + 1 < |t.labelIds|
    ensures Extends(t.Tags(), k + 1)
       <==> t.Offset(k) != (0, 0) && t.Offset(k + 1) != (0, 0) && CarriesOn(t.Label(k + 1), t.Label(k))
  {
    assert t.Tags()[k] == t.TagAt(k) && t.Tags()[k + 1] == t.TagAt(k + 1);
    if t.Offset(k) != (0, 0) && t.Offset(k + 1) != (0, 0) {
      hide Tokens.TagAt, MapLabel, Tokens.Label, Tokens.Offset;
      KindsOfNames(t, k);
      KindsOfNames(t, k + 1);
    }
  }

  /** Two neighbouring tokens lie in one span exactly when the second carries on the first. */
  lemma NeighboursShareSpan(t: Tokens, k: nat)
    requires WellPlaced(t) && k + 1 < |t.labelIds| && t.Offset(k) != (0, 0) && t.Offset(k + 1) != (0, 0)
    ensures (exists s :: s in SpansFrom(t, t.Tags(), 0) && LiesIn(t, k, s) && LiesIn(t, k + 1, s))
       <==> CarriesOn(t.Label(k + 1), t.Label(k))
  {
    var out := SpansFrom(t, t.Tags(), 0);
    ExtendsByName(t, k);
    hide WellPlaced, SpansFrom, Tokens.Tags, Tokens.Label, Tokens.TagAt, Extends, CarriesOn, LiesIn;
    if exists s :: s in out && LiesIn(t, k, s) && LiesIn(t, k + 1, s) {
      var s :| s in out && LiesIn(t, k, s) && LiesIn(t, k + 1, s);
      SharedIsExtended(t, k, s);
    }
    if Extends(t.Tags(), k + 1) {
      var s := ExtendedIsShared(t, k);
    }
  }

  lemma SharedIsExtended(t: Tokens, k: nat, s: Span)
    requires WellPlaced(t) && k + 1 < |t.labelIds| && !t.Special(k) && !t.Special(k + 1)
    requires s in SpansFrom(t, t.Tags(), 0) && LiesIn(t, k, s) && LiesIn(t, k + 1, s)
    ensures Extends(t.Tags(), k + 1)
  {
    hide WellPlaced, SpansFrom, Tokens.TagAt, Extends, IsRun;
    var r :| 0 <= r < |SpansFrom(t, t.Tags(), 0)| && SpansFrom(t, t.Tags(), 0)[r] == s;
    var run := RunAt(t, r);
    RunBounds(t, run);
    WithinRun(t, run, k);
  }

  lemma ExtendedIsShared(t: Tokens, k: nat) returns (s: Span)
    requires WellPlaced(t) && k + 1 < |t.labelIds| && !t.Special(k) && !t.Special(k + 1)
    requires Extends(t.Tags(), k + 1)
    ensures s in SpansFrom(t, t.Tags(), 0) && LiesIn(t, k, s) && LiesIn(t, k + 1, s)
  {
    hide WellPlaced, SpansFrom, Tokens.TagAt, RunEnd;
    var tags := t.Tags();
    var i := RunContaining(tags, k + 1);
    assert i <= k;
    hide Extends, IsRun, Starts;
    var r := SpanOfRun(t, i, RunEnd(tags, i));
    s := SpansFrom(t, tags, 0)[r];
    RunBounds(t, (i, RunEnd(tags, i)));
    OffsetsIncrease(t, i, k);
    OffsetsIncrease(t, k, k + 1);
    OffsetsIncrease(t, k + 1, RunEnd(tags, i));
  }

  lemma SpanOfRun(t: Tokens, i: nat, j: nat) returns (r: nat)
    requires IsRun(t.Tags(), i, j)
    ensures r < |SpansFrom(t, t.Tags(), 0)|
    ensures SpansFrom(t, t.Tags(), 0)[r].start == t.Offset(i).0 && SpansFrom(t, t.Tags(), 0)[r].end == t.Offset(j).1
  {
    RunsAreTheMaximalRuns(t.Tags(), i, j);
    SpansOfRuns(t, t.Tags(), 0);
    r :| 0 <= r < |Runs(t.Tags(), 0)| && Runs(t.Tags(), 0)[r] == (i, j);
  }

  /** Tokens whose text lies between the ends of a run belong to the run. */
  lemma WithinRun(t: Tokens, run: (nat, nat), k: nat)
    requires WellPlaced(t) && IsRun(t.Tags(), run.0, run.1) && !t.Special(run.0) && !t.Special(run.1)
    requires k + 1 < |t.labelIds| && !t.Special(k) && !t.Special(k + 1)
    requires t.Offset(run.0).0 <= t.Offset(k).0 && t.Offset(k + 1).1 <= t.Offset(run.1).1
    ensures Extends(t.Tags(), k + 1)
  {
    assert run.0 <= k && k + 1 <= run.1;
  }

  /** The text of a token that is `O`, MISC or unknown lies in no span. */
  lemma UnlabelledTokenInNoSpan(t: Tokens, k: nat, r: nat)
    requires WellPlaced(t) && k < |t.labelIds| && t.TagAt(k).Cut? && !t.Special(k)
    requires r < |SpansFrom(t, t.Tags(), 0)|
    ensures var s := SpansFrom(t, t.Tags(), 0)[r];
            t.Offset(k).1 <= s.start || s.end <= t.Offset(k).0
  {
    var tags := t.Tags();
    assert tags[k] == t.TagAt(k);
    var run := RunAt(t, r);
    RunBounds(t, run);
    if run.0 <= k <= run.1 {
      RunKind(tags, run.0, run.1, k);
    } else if k < run.0 {
      OffsetsIncrease(t, k, run.0);
    } else {
      OffsetsIncrease(t, run.1, k);
    }
  }
}
