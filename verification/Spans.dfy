/**
 * Detected spans: the greedy left-longest selection among overlapping hits, and the
 * single-pass rebuild of the text around the selected ones.
 */
module Spans {
  import opened Prelude

  datatype EntityKind = Nir | Iban | Phone | Email | Uuid | Person | Org | Loc {
    function Label(): string {
      match this
      case Nir => "NIR"
      case Iban => "IBAN"
      case Phone => "PHONE"
      case Email => "EMAIL"
      case Uuid => "UUID"
      case Person => "PERSON"
      case Org => "ORG"
      case Loc => "LOC"
    }
  }

  /** A half-open range of byte offsets and the kind of entity found there. */
  datatype Span = Span(start: nat, end: nat, kind: EntityKind) {
    predicate WellFormed() {
      start <= end
    }

    function Len(): nat {
      if start <= end then end - start else 0
    }

    predicate IsEmpty() {
      start >= end
    }
  }

  ghost predicate AllWellFormed(spans: seq<Span>) {
    forall s :: s in spans ==> s.WellFormed()
  }

  // ----- The library's stable sort -------------------------------------------------------------

  /** The comparator: start ascending, then length descending. */
  predicate Before(a: Span, b: Span) {
    a.start < b.start || (a.start == b.start && a.Len() >= b.Len())
  }

  ghost predicate Ordered(s: seq<Span>) {
    forall i, j :: 0 <= i < j < |s| ==> Before(s[i], s[j])
  }

  lemma OrderedCons(x: Span, s: seq<Span>)
    requires Ordered(s) && forall y :: y in s ==> Before(x, y)
    ensures Ordered([x] + s)
  {
    hide Before;
  }

  lemma OrderedHead(x: Span, s: seq<Span>)
    requires Ordered(s) && s != [] && Before(x, s[0])
    ensures forall y :: y in s ==> Before(x, y)
  {
  }

  /** `x` was delivered before all of `s`, so on a tie it goes first. */
  function Insert(x: Span, s: seq<Span>): (r: seq<Span>) {
    if s == [] || Before(x, s[0]) then [x] + s else [s[0]] + Insert(x, s[1..])
  }

  lemma {:induction false} InsertSorts(x: Span, s: seq<Span>)
    requires Ordered(s)
    ensures Ordered(Insert(x, s)) && multiset(Insert(x, s)) == multiset(s) + multiset{x}
    ensures forall y :: y in Insert(x, s) <==> y == x || y in s
  {
    if s == [] {
    } else if Before(x, s[0]) {
      OrderedHead(x, s);
      OrderedCons(x, s);
    } else {
      InsertSorts(x, s[1..]);
      assert s == [s[0]] + s[1..];
      assert Before(s[0], x);
      OrderedCons(s[0], Insert(x, s[1..]));
    }
  }

  function StableSort(s: seq<Span>): seq<Span> {
    if s == [] then [] else Insert(s[0], StableSort(s[1..]))
  }

  lemma {:induction false} StableSortSorts(s: seq<Span>)
    ensures Ordered(StableSort(s)) && multiset(StableSort(s)) == multiset(s)
    ensures forall y :: y in StableSort(s) <==> y in s
  {
    if s != [] {
      StableSortSorts(s[1..]);
      InsertSorts(s[0], StableSort(s[1..]));
      assert s == [s[0]] + s[1..];
    }
  }

  // ----- Greedy selection ----------------------------------------------------------------------

  function Greedy(sorted: seq<Span>, cursor: nat): seq<Span> {
    if sorted == [] then []
    else if sorted[0].start < cursor then Greedy(sorted[1..], cursor)
    else [sorted[0]] + Greedy(sorted[1..], sorted[0].end)
  }

  method MergeAndDedup(spans: seq<Span>) returns (out: seq<Span>)
    ensures out == Greedy(StableSort(spans), 0)
  {
    if spans == [] {
      return spans;
    }
    var sorted := StableSort(spans);
    out := [];
    var cursor := 0;
    for i := 0 to |sorted|
      invariant out + Greedy(sorted[i..], cursor) == Greedy(sorted, 0)
    {
      var s := sorted[i];
      assert sorted[i..][1..] == sorted[i + 1..];
      if s.start < cursor {
        continue;
      }
      cursor := s.end;
      out := out + [s];
      assert out[..|out| - 1] + ([s] + Greedy(sorted[i + 1..], cursor)) == out + Greedy(sorted[i + 1..], cursor);
    }
  }

  /** Sorted, pairwise disjoint, and nothing before `from`. */
  ghost predicate Chained(spans: seq<Span>, from: nat) {
    && AllWellFormed(spans)
    && (forall i :: 0 <= i < |spans| ==> from <= spans[i].start)
    && (forall i, j :: 0 <= i < j < |spans| ==> spans[i].end <= spans[j].start)
  }

  ghost predicate Meets(a: Span, b: Span) {
    a.start < b.end && b.start < a.end
  }

  /** `k` starts no later than `s`, still covers its first byte, and is no shorter on a tie. */
  ghost predicate Dominates(k: Span, s: Span) {
    k.start <= s.start < k.end && (k.start == s.start ==> s.end <= k.end)
  }

  lemma {:induction false} GreedyChained(sorted: seq<Span>, cursor: nat)
    requires AllWellFormed(sorted)
    ensures Chained(Greedy(sorted, cursor), cursor)
  {
    if sorted != [] {
      var s, rest := sorted[0], sorted[1..];
      assert s.WellFormed() && AllWellFormed(rest);
      GreedyChained(rest, if s.start < cursor then cursor else s.end);
    }
  }

  lemma {:induction false} GreedyDrawn(sorted: seq<Span>, cursor: nat)
    ensures multiset(Greedy(sorted, cursor)) <= multiset(sorted)
  {
    if sorted != [] {
      var s, rest := sorted[0], sorted[1..];
      assert sorted == [s] + rest;
      GreedyDrawn(rest, if s.start < cursor then cursor else s.end);
    }
  }

  lemma {:induction false} GreedyDominates(sorted: seq<Span>, cursor: nat, x: Span)
    requires Ordered(sorted) && x in sorted && cursor <= x.start && !x.IsEmpty()
    ensures exists k :: k in Greedy(sorted, cursor) && Dominates(k, x)
  {
    var s, rest := sorted[0], sorted[1..];
    var out := Greedy(sorted, cursor);
    assert sorted == [s] + rest;
    if s.start < cursor {
      GreedyDominates(rest, cursor, x);
    } else {
      assert s in out;
      if x != s && s.end <= x.start {
        GreedyDominates(rest, s.end, x);
        var k :| k in Greedy(rest, s.end) && Dominates(k, x);
        assert k in out;
      } else {
        assert x == s || Before(s, x);
        assert Dominates(s, x);
      }
    }
  }

  /** What `MergeAndDedup` computes. */
  function Selected(spans: seq<Span>): seq<Span> {
    Greedy(StableSort(spans), 0)
  }

  /** The selection is sorted, pairwise disjoint and drawn from the input. */
  lemma SelectionDisjoint(spans: seq<Span>)
    requires AllWellFormed(spans)
    ensures Chained(Selected(spans), 0)
    ensures multiset(Selected(spans)) <= multiset(spans)
  {
    StableSortSorts(spans);
    GreedyChained(StableSort(spans), 0);
    GreedyDrawn(StableSort(spans), 0);
  }

  /** And it is maximal: every non-empty span, kept or dropped, meets a kept one that dominates it. */
  lemma SelectionMaximal(spans: seq<Span>, s: Span)
    requires s in spans && !s.IsEmpty()
    ensures exists k :: k in Selected(spans) && Meets(k, s) && Dominates(k, s)
  {
    var kept := Selected(spans);
    StableSortSorts(spans);
    GreedyDominates(StableSort(spans), 0, s);
    hide Selected, StableSort, Greedy;
    var k :| k in kept && Dominates(k, s);
    assert Meets(k, s);
  }

  lemma SelectionEmpty(spans: seq<Span>)
    ensures Selected(spans) == [] <==> spans == []
  {
    StableSortSorts(spans);
    assert |multiset(StableSort(spans))| == |multiset(spans)|;
    assert |StableSort(spans)| == |spans|;
  }

  // ----- Independence of the delivery order ----------------------------------------------------

  function RangeOf(s: Span): (nat, nat) {
    (s.start, s.end)
  }

  function Ranges(spans: seq<Span>): (r: seq<(nat, nat)>)
    ensures |r| == |spans| && forall i :: 0 <= i < |r| ==> r[i] == RangeOf(spans[i])
  {
    seq(|spans|, i requires 0 <= i < |spans| => RangeOf(spans[i]))
  }

  ghost predicate RangeOrdered(r: seq<(nat, nat)>) {
    forall i, j :: 0 <= i < j < |r| ==> r[i].0 < r[j].0 || (r[i].0 == r[j].0 && r[i].1 >= r[j].1)
  }

  lemma RangesOrdered(s: seq<Span>)
    requires Ordered(s) && AllWellFormed(s)
    ensures RangeOrdered(Ranges(s))
  {
    forall i, j | 0 <= i < j < |s| ensures Before(s[i], s[j]) && s[i].WellFormed() && s[j].WellFormed() {
    }
  }

  lemma LeastRangeFirst(a: seq<(nat, nat)>, b: seq<(nat, nat)>)
    requires RangeOrdered(a) && RangeOrdered(b) && multiset(a) == multiset(b) && a != [] && b != []
    ensures a[0] == b[0]
  {
    assert a[0] in multiset(b) && b[0] in multiset(a);
    var i :| 0 <= i < |b| && b[i] == a[0];
    var j :| 0 <= j < |a| && a[j] == b[0];
  }

  /** The comparator leaves no freedom beyond the kinds of equal ranges. */
  lemma {:induction false} SortedRangesUnique(a: seq<(nat, nat)>, b: seq<(nat, nat)>)
    requires RangeOrdered(a) && RangeOrdered(b) && multiset(a) == multiset(b)
    ensures a == b
  {
    assert |multiset(a)| == |a| && |multiset(b)| == |b|;
    if a != [] {
      LeastRangeFirst(a, b);
      assert a == [a[0]] + a[1..] && b == [b[0]] + b[1..];
      assert multiset(a[1..]) == multiset(a) - multiset{a[0]};
      assert multiset(b[1..]) == multiset(b) - multiset{b[0]};
      SortedRangesUnique(a[1..], b[1..]);
    }
  }

  lemma {:induction false} GreedyByRanges(a: seq<Span>, b: seq<Span>, cursor: nat)
    requires Ranges(a) == Ranges(b)
    ensures Ranges(Greedy(a, cursor)) == Ranges(Greedy(b, cursor))
  {
    assert |a| == |Ranges(a)| == |b|;
    if a != [] {
      assert RangeOf(a[0]) == Ranges(a)[0] == Ranges(b)[0] == RangeOf(b[0]);
      assert Ranges(a[1..]) == Ranges(a)[1..] && Ranges(b[1..]) == Ranges(b)[1..];
      GreedyByRanges(a[1..], b[1..], if a[0].start < cursor then cursor else a[0].end);
    }
  }

  lemma {:induction false} InsertRanges(x: Span, s: seq<Span>)
    ensures multiset(Ranges(Insert(x, s))) == multiset(Ranges(s)) + multiset{RangeOf(x)}
  {
    if s == [] || Before(x, s[0]) {
      assert Ranges([x] + s) == [RangeOf(x)] + Ranges(s);
    } else {
      InsertRanges(x, s[1..]);
      assert Ranges(s) == [RangeOf(s[0])] + Ranges(s[1..]);
      assert Ranges(Insert(x, s)) == [RangeOf(s[0])] + Ranges(Insert(x, s[1..]));
    }
  }

  lemma {:induction false} SortRanges(s: seq<Span>)
    ensures multiset(Ranges(StableSort(s))) == multiset(Ranges(s))
  {
    if s != [] {
      SortRanges(s[1..]);
      InsertRanges(s[0], StableSort(s[1..]));
      assert Ranges(s) == [RangeOf(s[0])] + Ranges(s[1..]);
    }
  }

  /** The kept byte ranges do not depend on the order, or on the kinds, in which the scanners delivered the spans. */
  lemma SelectionOrderIndependent(a: seq<Span>, b: seq<Span>)
    requires AllWellFormed(a) && AllWellFormed(b)
    requires multiset(Ranges(a)) == multiset(Ranges(b))
    ensures Ranges(Selected(a)) == Ranges(Selected(b))
  {
    StableSortSorts(a);
    StableSortSorts(b);
    SortRanges(a);
    SortRanges(b);
    RangesOrdered(StableSort(a));
    RangesOrdered(StableSort(b));
    SortedRangesUnique(Ranges(StableSort(a)), Ranges(StableSort(b)));
    GreedyByRanges(StableSort(a), StableSort(b), 0);
  }

  // ----- An independent definition of the selection ---------------------------------------------

  /**
   * The declarative reading of "greedy left-longest": disjoint ranges drawn from the input such
   * that every input span is dominated by a chosen one.
   */
  ghost predicate IsKernel(kept: seq<Span>, spans: seq<Span>) {
    && Chained(kept, 0)
    && (forall k :: k in kept ==> !k.IsEmpty() && Drawn(k, spans))
    && (forall s :: s in spans ==> Dominated(s, kept))
  }

  ghost predicate Drawn(k: Span, spans: seq<Span>) {
    exists s :: s in spans && RangeOf(s) == RangeOf(k)
  }

  ghost predicate Dominated(s: Span, kept: seq<Span>) {
    exists k :: k in kept && Dominates(k, s)
  }

  lemma ChainedOverlap(kept: seq<Span>, a: Span, b: Span)
    requires Chained(kept, 0) && a in kept && b in kept && Meets(a, b)
    ensures a == b
  {
  }

  /** What one kernel chooses, the other dominates, because both draw from the same input. */
  lemma Dominator(one: seq<Span>, two: seq<Span>, spans: seq<Span>, k: Span) returns (d: Span)
    requires IsKernel(one, spans) && IsKernel(two, spans) && k in one
    ensures d in two && Dominates(d, k) && k.start < k.end
  {
    hide Dominated, Drawn, Chained;
    var s := Source(k, spans);
    d := Chosen(s, two);
  }

  lemma Source(k: Span, spans: seq<Span>) returns (s: Span)
    requires Drawn(k, spans)
    ensures s in spans && RangeOf(s) == RangeOf(k)
  {
    s :| s in spans && RangeOf(s) == RangeOf(k);
  }

  lemma Chosen(s: Span, kept: seq<Span>) returns (k: Span)
    requires Dominated(s, kept)
    ensures k in kept && Dominates(k, s)
  {
    k :| k in kept && Dominates(k, s);
  }

  /** Two kernels of the same input choose the same ranges: the leftmost disagreement is impossible. */
  lemma {:induction false} KernelsAgree(one: seq<Span>, two: seq<Span>, spans: seq<Span>, k: Span)
    requires IsKernel(one, spans) && IsKernel(two, spans) && k in one
    ensures RangeOf(k) in Ranges(two)
    decreases k.start
  {
    hide IsKernel, Chained, Drawn, Dominated;
    var d := Dominator(one, two, spans, k);
    KernelChained(one, spans);
    if d.start < k.start {
      KernelsAgree(two, one, spans, d);
      var i :| 0 <= i < |one| && Ranges(one)[i] == RangeOf(d);
      ChainedOverlap(one, one[i], k);
    } else {
      var e := Dominator(two, one, spans, d);
      ChainedOverlap(one, e, k);
      var i :| 0 <= i < |two| && two[i] == d;
      assert Ranges(two)[i] == RangeOf(k);
    }
  }

  lemma KernelChained(kept: seq<Span>, spans: seq<Span>)
    requires IsKernel(kept, spans)
    ensures Chained(kept, 0)
  {
  }

  lemma SelectedDrawn(spans: seq<Span>, k: Span)
    requires AllWellFormed(spans) && (forall s :: s in spans ==> !s.IsEmpty()) && k in Selected(spans)
    ensures !k.IsEmpty() && Drawn(k, spans)
  {
    StableSortSorts(spans);
    GreedyDrawn(StableSort(spans), 0);
    assert k in multiset(Selected(spans)) && k in multiset(StableSort(spans));
  }

  lemma SelectedDominates(spans: seq<Span>, s: Span)
    requires s in spans && !s.IsEmpty()
    ensures Dominated(s, Selected(spans))
  {
    StableSortSorts(spans);
    GreedyDominates(StableSort(spans), 0, s);
  }

  lemma SelectionIsKernel(spans: seq<Span>)
    requires AllWellFormed(spans) && (forall s :: s in spans ==> !s.IsEmpty())
    ensures IsKernel(Selected(spans), spans)
  {
    StableSortSorts(spans);
    GreedyChained(StableSort(spans), 0);
    var out := Selected(spans);
    assert Chained(out, 0);
    hide Selected, Drawn, Dominated;
    forall k | k in out ensures !k.IsEmpty() && Drawn(k, spans) {
      SelectedDrawn(spans, k);
    }
    forall s | s in spans ensures Dominated(s, out) {
      SelectedDominates(spans, s);
    }
  }

  /** The code's selection is the one and only kernel of the non-empty spans it was given. */
  lemma SelectionIsTheKernel(spans: seq<Span>, kept: seq<Span>)
    requires AllWellFormed(spans) && (forall s :: s in spans ==> !s.IsEmpty())
    ensures IsKernel(Selected(spans), spans)
    ensures IsKernel(kept, spans) ==> forall r :: r in Ranges(kept) <==> r in Ranges(Selected(spans))
  {
    SelectionIsKernel(spans);
    var out := Selected(spans);
    hide IsKernel, Selected;
    if IsKernel(kept, spans) {
      forall r | r in Ranges(kept) ensures r in Ranges(out) {
        var i :| 0 <= i < |kept| && Ranges(kept)[i] == r;
        KernelsAgree(kept, out, spans, kept[i]);
      }
      forall r | r in Ranges(out) ensures r in Ranges(kept) {
        var i :| 0 <= i < |out| && Ranges(out)[i] == r;
        KernelsAgree(out, kept, spans, out[i]);
      }
    }
  }

  // ----- Which kind wins a tie ------------------------------------------------------------------

  function WithRange(spans: seq<Span>, r: (nat, nat)): seq<Span> {
    if spans == [] then []
    else if RangeOf(spans[0]) == r then [spans[0]] + WithRange(spans[1..], r)
    else WithRange(spans[1..], r)
  }

  lemma {:induction false} InsertStable(x: Span, s: seq<Span>, r: (nat, nat))
    requires x.WellFormed() && AllWellFormed(s) && Ordered(s)
    ensures WithRange(Insert(x, s), r) == WithRange([x], r) + WithRange(s, r)
  {
    if s == [] {
      assert Insert(x, s) == [x];
    } else if Before(x, s[0]) {
      assert Insert(x, s) == [x] + s && ([x] + s)[1..] == s;
    } else {
      assert s[0].WellFormed();
      InsertStable(x, s[1..], r);
      assert Insert(x, s)[1..] == Insert(x, s[1..]);
      assert RangeOf(x) != RangeOf(s[0]);
    }
  }

  lemma {:induction false} SortStable(s: seq<Span>, r: (nat, nat))
    requires AllWellFormed(s)
    ensures WithRange(StableSort(s), r) == WithRange(s, r)
  {
    if s != [] {
      SortStable(s[1..], r);
      StableSortSorts(s[1..]);
      var tail := StableSort(s[1..]);
      assert StableSort(s) == Insert(s[0], tail);
      InsertStable(s[0], tail, r);
      assert WithRange([s[0]], r) == if RangeOf(s[0]) == r then [s[0]] else [];
      hide Insert, StableSort;
    }
  }

  lemma {:induction false} GreedyKeepsFirst(sorted: seq<Span>, cursor: nat, k: Span)
    requires AllWellFormed(sorted) && k in Greedy(sorted, cursor) && !k.IsEmpty()
    ensures WithRange(sorted, RangeOf(k)) != [] && WithRange(sorted, RangeOf(k))[0] == k
  {
    var s, rest := sorted[0], sorted[1..];
    assert s.WellFormed();
    if s.start < cursor {
      GreedyChained(rest, cursor);
      GreedyKeepsFirst(rest, cursor, k);
    } else if k != s {
      GreedyChained(rest, s.end);
      GreedyKeepsFirst(rest, s.end, k);
    }
  }

  /** Among hits of the same range the one delivered first gives its kind to the kept span. */
  lemma FirstDeliveredKindWins(spans: seq<Span>, k: Span)
    requires AllWellFormed(spans) && k in Selected(spans) && !k.IsEmpty()
    ensures WithRange(spans, RangeOf(k)) != [] && k == WithRange(spans, RangeOf(k))[0]
  {
    StableSortSorts(spans);
    GreedyKeepsFirst(StableSort(spans), 0, k);
    SortStable(spans, RangeOf(k));
  }
}
