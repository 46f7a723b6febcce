/** The single-pass rebuild of a text around the selected spans, and the `sanitize` pipeline that drives it. */
module Substitution {
  import opened Prelude
  import opened Spans
  import Utf8

  type Text = seq<byte>

  /** A span together with what the vault answers when asked for its token; `None` when it is absent or fails. */
  datatype Edit = Edit(span: Span, vault: Option<Text>) {
    function Token(): Text {
      match vault
      case Some(token) => token
      case None => Placeholder(span.kind)
    }
  }

  /** `[PII:KIND]` */
  function Placeholder(kind: EntityKind): Text {
    Ascii("[PII:" + kind.Label() + "]")
  }

  function Ascii(s: string): Text {
    seq(|s|, i requires 0 <= i < |s| => (s[i] as int % 128) as byte)
  }

  /** Rust's `is_char_boundary` on UTF-8 bytes: not in front of a continuation byte. */
  predicate IsCharBoundary(text: Text, i: nat) {
    i == 0 || i == |text| || (i < |text| && text[i] as int / 64 != 2)
  }

  predicate InBounds(text: Text, s: Span) {
    s.start <= |text| && s.end <= |text|
  }

  /** The two guards of the loop let this span through. */
  predicate Usable(text: Text, s: Span) {
    InBounds(text, s) && IsCharBoundary(text, s.start) && IsCharBoundary(text, s.end)
  }

  function UsableEdits(text: Text, edits: seq<Edit>): (r: seq<Edit>)
    ensures forall e :: e in r ==> Usable(text, e.span) && e in edits
  {
    if edits == [] then []
    else if Usable(text, edits[0].span) then [edits[0]] + UsableEdits(text, edits[1..])
    else UsableEdits(text, edits[1..])
  }

  function SpansOf(edits: seq<Edit>): (r: seq<Span>)
    ensures |r| == |edits| && forall i :: 0 <= i < |r| ==> r[i] == edits[i].span
  {
    seq(|edits|, i requires 0 <= i < |edits| => edits[i].span)
  }

  ghost predicate ChainedIn(text: Text, edits: seq<Edit>, cursor: nat) {
    && cursor <= |text|
    && Chained(SpansOf(edits), cursor)
    && forall i :: 0 <= i < |edits| ==> edits[i].span.end <= |text|
  }

  lemma ChainedTail(text: Text, edits: seq<Edit>, cursor: nat)
    requires ChainedIn(text, edits, cursor) && edits != []
    ensures cursor <= edits[0].span.start <= edits[0].span.end <= |text|
    ensures ChainedIn(text, edits[1..], edits[0].span.end)
  {
    var spans, tail := SpansOf(edits), SpansOf(edits[1..]);
    assert spans[0] in spans && spans[0] == edits[0].span;
    forall i | 0 <= i < |tail| ensures tail[i] == spans[i + 1] && tail[i] in spans {
    }
  }

  /** The text from `cursor` on, with every span replaced by its token. */
  ghost function Rebuild(text: Text, edits: seq<Edit>, cursor: nat): Text
    requires ChainedIn(text, edits, cursor)
    decreases |edits|
  {
    if edits == [] then text[cursor..]
    else
      ChainedTail(text, edits, cursor);
      var s := edits[0].span;
      text[cursor..s.start] + edits[0].Token() + Rebuild(text, edits[1..], s.end)
  }

  lemma {:induction false} UsableChained(text: Text, edits: seq<Edit>, cursor: nat)
    requires cursor <= |text| && Chained(SpansOf(edits), cursor)
    ensures ChainedIn(text, UsableEdits(text, edits), cursor)
  {
    if edits != [] {
      var spans, tail := SpansOf(edits), SpansOf(edits[1..]);
      assert spans[0] in spans && spans[0] == edits[0].span;
      forall i | 0 <= i < |tail| ensures tail[i] == spans[i + 1] && tail[i] in spans {
      }
      if Usable(text, edits[0].span) {
        UsableChained(text, edits[1..], edits[0].span.end);
        ChainedPrepend(text, edits[0], UsableEdits(text, edits[1..]), cursor);
      } else {
        UsableChained(text, edits[1..], cursor);
      }
    }
  }

  lemma ChainedPrepend(text: Text, e: Edit, rest: seq<Edit>, cursor: nat)
    requires ChainedIn(text, rest, e.span.end)
    requires cursor <= e.span.start <= e.span.end
    ensures ChainedIn(text, [e] + rest, cursor)
  {
    var spans := SpansOf([e] + rest);
    assert forall i :: 1 <= i < |spans| ==> spans[i] == SpansOf(rest)[i - 1];
  }

  lemma RebuildStep(text: Text, e: Edit, rest: seq<Edit>, cursor: nat, out: Text)
    requires ChainedIn(text, [e] + rest, cursor)
    ensures cursor <= e.span.start <= e.span.end <= |text| && ChainedIn(text, rest, e.span.end)
    ensures out + Rebuild(text, [e] + rest, cursor)
         == out + text[cursor..e.span.start] + e.Token() + Rebuild(text, rest, e.span.end)
  {
    var edits := [e] + rest;
    assert edits[0] == e && edits[1..] == rest;
    ChainedTail(text, edits, cursor);
  }

  /**
   * Never slices backwards: the only demand on the caller is that the spans are sorted and
   * disjoint, which `MergeAndDedup` delivers. Spans out of bounds or inside a character are skipped.
   */
  method Substitute(text: Text, edits: seq<Edit>) returns (out: Text)
    requires Chained(SpansOf(edits), 0)
    ensures ChainedIn(text, UsableEdits(text, edits), 0)
    ensures out == Rebuild(text, UsableEdits(text, edits), 0)
  {
    UsableChained(text, edits, 0);
    out := [];
    var cursor: nat := 0;
    ghost var all := UsableEdits(text, edits);
    for i := 0 to |edits|
      invariant ChainedIn(text, UsableEdits(text, edits[i..]), cursor)
      invariant out + Rebuild(text, UsableEdits(text, edits[i..]), cursor) == Rebuild(text, all, 0)
    {
      var s := edits[i].span;
      assert edits[i..][1..] == edits[i + 1..];
      if s.start > |text| || s.end > |text| {
        continue;
      }
      if !IsCharBoundary(text, s.start) || !IsCharBoundary(text, s.end) {
        continue;
      }
      ghost var rest := UsableEdits(text, edits[i + 1..]);
      assert UsableEdits(text, edits[i..]) == [edits[i]] + rest;
      RebuildStep(text, edits[i], rest, cursor, out);
      out := out + text[cursor..s.start];
      out := out + edits[i].Token();
      cursor := s.end;
    }
    out := out + text[cursor..];
  }

  // ----- Losslessness ----------------------------------------------------------------------------

  /** Puts the raw slices back into a rebuilt text, looking only at that text and at the spans. */
  ghost function Restore(out: Text, edits: seq<Edit>, raws: seq<Text>, cursor: nat): Text
    requires |raws| == |edits|
    decreases |edits|
  {
    if edits == [] then out
    else
      var gap := edits[0].span.start - cursor;
      var skip := gap + |edits[0].Token()|;
      if 0 <= gap && skip <= |out|
      then out[..gap] + raws[0] + Restore(out[skip..], edits[1..], raws[1..], edits[0].span.end)
      else out
  }

  ghost predicate RawSlices(text: Text, edits: seq<Edit>, raws: seq<Text>) {
    |raws| == |edits|
    && forall i :: 0 <= i < |edits| ==>
         var s := edits[i].span;
         s.start <= s.end <= |text| && raws[i] == text[s.start..s.end]
  }

  /** Nothing outside the spans is lost, changed or moved: with the raw slices back in place the input is there again. */
  lemma {:induction false} RestoreUndoesRebuild(text: Text, edits: seq<Edit>, raws: seq<Text>, cursor: nat)
    requires ChainedIn(text, edits, cursor) && RawSlices(text, edits, raws)
    ensures Restore(Rebuild(text, edits, cursor), edits, raws, cursor) == text[cursor..]
  {
    if edits != [] {
      ChainedTail(text, edits, cursor);
      var s, token := edits[0].span, edits[0].Token();
      var tail := Rebuild(text, edits[1..], s.end);
      var out := text[cursor..s.start] + token + tail;
      assert out == Rebuild(text, edits, cursor);
      var gap := s.start - cursor;
      assert out[..gap] == text[cursor..s.start];
      assert out[gap + |token|..] == tail;
      assert RawSlices(text, edits[1..], raws[1..]);
      RestoreUndoesRebuild(text, edits[1..], raws[1..], s.end);
      assert text[cursor..s.start] + text[s.start..s.end] + text[s.end..] == text[cursor..];
    }
  }

  /** What stands for a span: the vault's token, or the placeholder of its kind when the vault gave none. */
  lemma {:induction false} SpanBecomesToken(text: Text, edits: seq<Edit>, k: nat, cursor: nat)
    requires ChainedIn(text, edits, cursor) && k < |edits|
    ensures var s := edits[k].span;
      && s.start <= s.end <= |text|
      && ChainedIn(text[..s.start], edits[..k], cursor) && ChainedIn(text, edits[k + 1..], s.end)
      && Rebuild(text, edits, cursor)
         == Rebuild(text[..s.start], edits[..k], cursor)
            + (if edits[k].vault.Some? then edits[k].vault.value else Ascii("[PII:" + s.kind.Label() + "]"))
            + Rebuild(text, edits[k + 1..], s.end)
    decreases |edits|
  {
    hide ChainedIn, Rebuild, Ascii;
    ChainedTail(text, edits, cursor);
    var s, first := edits[k].span, edits[0].span;
    RebuildHead(text, edits, cursor);
    if k == 0 {
      NothingToRebuild(text, s.start, cursor);
      assert edits[..0] == [];
    } else {
      var rest := edits[1..];
      SpanBecomesToken(text, rest, k - 1, first.end);
      assert rest[k - 1] == edits[k] && rest[..k - 1] == edits[1..k] && rest[k..] == edits[k + 1..];
      FrontChained(text, edits, k, cursor);
      RebuildHead(text[..s.start], edits[..k], cursor);
      assert edits[..k][0] == edits[0] && edits[..k][1..] == edits[1..k];
      assert text[..s.start][cursor..first.start] == text[cursor..first.start];
    }
  }

  lemma RebuildHead(text: Text, edits: seq<Edit>, cursor: nat)
    requires ChainedIn(text, edits, cursor) && edits != []
    ensures var s := edits[0].span;
      && cursor <= s.start <= s.end <= |text| && ChainedIn(text, edits[1..], s.end)
      && Rebuild(text, edits, cursor) == text[cursor..s.start] + edits[0].Token() + Rebuild(text, edits[1..], s.end)
  {
    ChainedTail(text, edits, cursor);
  }

  lemma NothingToRebuild(text: Text, end: nat, cursor: nat)
    requires cursor <= end <= |text|
    ensures ChainedIn(text[..end], [], cursor) && Rebuild(text[..end], [], cursor) == text[cursor..end]
  {
    assert SpansOf([]) == [];
  }

  lemma FrontChained(text: Text, edits: seq<Edit>, k: nat, cursor: nat)
    requires ChainedIn(text, edits, cursor) && 0 < k < |edits|
    ensures edits[0].span.start <= edits[k].span.start <= |text|
    ensures ChainedIn(text[..edits[k].span.start], edits[..k], cursor)
  {
    var spans, front := SpansOf(edits), SpansOf(edits[..k]);
    forall i | 0 <= i < k ensures front[i] == spans[i] && front[i] in spans {
    }
    assert spans[k] in spans && spans[k - 1].end <= spans[k].start && spans[0] in spans;
  }

  // ----- Character boundaries -------------------------------------------------------------------------

  lemma LeadByte(c: char)
    ensures var b := Utf8.EncodeChar(c); b[0] as int / 64 != 2 && forall j :: 0 < j < |b| ==> b[j] as int / 64 == 2
  {
  }

  /** In the bytes of a text the boundaries are exactly the places between two characters. */
  lemma {:induction false} BoundaryIsBetweenCharacters(s: string, i: nat)
    requires i <= |Utf8.Encode(s)|
    ensures IsCharBoundary(Utf8.Encode(s), i) <==> exists k: nat :: k <= |s| && |Utf8.Encode(s[..k])| == i
    decreases |s|
  {
    hide Utf8.EncodeChar;
    var text := Utf8.Encode(s);
    if i == 0 {
      assert s[..0] == "" && |Utf8.Encode(s[..0])| == 0;
    } else if i == |text| {
      assert s[..|s|] == s;
    } else {
      var head, rest := Utf8.EncodeChar(s[0]), Utf8.Encode(s[1..]);
      assert text == head + rest;
      LeadByte(s[0]);
      if i < |head| {
        assert text[i] == head[i];
        forall k: nat | k <= |s| ensures |Utf8.Encode(s[..k])| != i {
          if k > 0 {
            FirstCharacterLength(s, k);
          } else {
            assert s[..k] == "";
          }
        }
      } else {
        BoundaryIsBetweenCharacters(s[1..], i - |head|);
        BoundaryBehindHead(head, s[1..], i);
        if exists k: nat :: k <= |s[1..]| && |Utf8.Encode(s[1..][..k])| == i - |head| {
          var k: nat :| k <= |s[1..]| && |Utf8.Encode(s[1..][..k])| == i - |head|;
          FirstCharacterLength(s, k + 1);
          assert |Utf8.Encode(s[..k + 1])| == i;
        }
        if exists k: nat :: k <= |s| && |Utf8.Encode(s[..k])| == i {
          var k: nat :| k <= |s| && |Utf8.Encode(s[..k])| == i;
          assert k > 0;
          FirstCharacterLength(s, k);
          assert |Utf8.Encode(s[1..][..k - 1])| == i - |head|;
        }
      }
    }
  }

  lemma FirstCharacterLength(s: string, k: nat)
    requires 0 < k <= |s|
    ensures |Utf8.Encode(s[..k])| == |Utf8.EncodeChar(s[0])| + |Utf8.Encode(s[1..][..k - 1])|
  {
    hide Utf8.EncodeChar;
    assert s[..k][0] == s[0] && s[..k][1..] == s[1..][..k - 1];
  }

  lemma BoundaryBehindHead(head: Text, s: string, i: nat)
    requires head != [] && |head| <= i < |head| + |Utf8.Encode(s)|
    ensures IsCharBoundary(head + Utf8.Encode(s), i) <==> IsCharBoundary(Utf8.Encode(s), i - |head|)
  {
    var rest := Utf8.Encode(s);
    assert (head + rest)[i] == rest[i - |head|];
    if i == |head| {
      LeadByte(s[0]);
      assert rest[0] == Utf8.EncodeChar(s[0])[0];
    }
  }

  /** With spans in bounds and on character boundaries neither guard is ever taken. */
  lemma {:induction false} GuardsNeverTaken(text: Text, edits: seq<Edit>)
    requires forall e :: e in edits ==> Usable(text, e.span)
    ensures UsableEdits(text, edits) == edits
  {
    if edits != [] {
      assert edits[0] in edits;
      GuardsNeverTaken(text, edits[1..]);
      assert edits == [edits[0]] + edits[1..];
    }
  }

  // ----- The pipeline ----------------------------------------------------------------------------

  datatype Cow = Borrowed | Owned(text: Text)

  function Asked(spans: seq<Span>, vault: Span -> Option<Text>): (edits: seq<Edit>)
    ensures SpansOf(edits) == spans
    ensures |edits| == |spans| && forall i :: 0 <= i < |edits| ==> edits[i].span == spans[i] && edits[i].vault == vault(spans[i])
  {
    var edits := seq(|spans|, i requires 0 <= i < |spans| => Edit(spans[i], vault(spans[i])));
    assert SpansOf(edits) == spans;
    edits
  }

  function Slice(text: Text, s: Span): Text {
    if s.start <= s.end <= |text| then text[s.start..s.end] else []
  }

  function Slices(text: Text, edits: seq<Edit>): (raws: seq<Text>)
    ensures |raws| == |edits| && forall i :: 0 <= i < |raws| ==> raws[i] == Slice(text, edits[i].span)
  {
    seq(|edits|, i requires 0 <= i < |edits| => Slice(text, edits[i].span))
  }

  lemma AskedUsable(text: Text, merged: seq<Span>, vault: Span -> Option<Text>)
    requires Chained(merged, 0) && forall s :: s in merged ==> Usable(text, s)
    ensures var edits := Asked(merged, vault);
            ChainedIn(text, edits, 0) && UsableEdits(text, edits) == edits
  {
    var edits := Asked(merged, vault);
    hide Usable, Asked, Chained;
    forall i | 0 <= i < |edits| ensures edits[i].span in merged {
      assert edits[i].span == SpansOf(edits)[i];
    }
    GuardsNeverTaken(text, edits);
    UsableChained(text, edits, 0);
  }

  lemma ChainedSlices(text: Text, edits: seq<Edit>)
    requires ChainedIn(text, edits, 0)
    ensures RawSlices(text, edits, Slices(text, edits))
  {
    var spans := SpansOf(edits);
    forall i | 0 <= i < |edits| ensures edits[i].span.WellFormed() {
      assert spans[i] in spans;
    }
  }

  lemma SelectedUsable(text: Text, spans: seq<Span>)
    requires forall s :: s in spans ==> s.WellFormed() && Usable(text, s)
    ensures Chained(Selected(spans), 0)
    ensures forall s :: s in Selected(spans) ==> Usable(text, s)
  {
    SelectionDisjoint(spans);
    hide Selected, Chained;
    forall s | s in Selected(spans) ensures Usable(text, s) {
      assert s in multiset(Selected(spans)) && s in multiset(spans);
    }
  }

  /** `regex` are the deterministic hits, `ner` the model's hits or `None` when the model failed; `vault` answers per span. */
  method Sanitize(text: Text, regex: seq<Span>, ner: Option<seq<Span>>, vault: Span -> Option<Text>) returns (r: Cow)
    requires forall s :: s in regex + ner.GetOr([]) ==> s.WellFormed() && Usable(text, s)
    ensures r == Borrowed <==> regex + ner.GetOr([]) == []
    ensures var edits := Asked(Selected(regex + ner.GetOr([])), vault);
            ChainedIn(text, edits, 0)
            && (forall e :: e in edits ==> e.vault == vault(e.span))
            && (r.Owned? ==> r.text == Rebuild(text, edits, 0) && Restore(r.text, edits, Slices(text, edits), 0) == text)
  {
    var spans := regex;
    if ner.Some? {
      spans := spans + ner.value;
    }
    assert spans == regex + ner.GetOr([]);
    SelectedUsable(text, spans);
    SelectionEmpty(spans);
    var merged := MergeAndDedup(spans);
    assert merged == Selected(spans);
    hide Selected, Usable, Chained, Asked, ChainedIn;
    AskedUsable(text, merged, vault);
    ChainedSlices(text, Asked(merged, vault));
    assert forall e :: e in Asked(merged, vault) ==> e.vault == vault(e.span);
    if merged == [] {
      return Borrowed;
    }
    var edits := Asked(merged, vault);
    var out := Substitute(text, edits);
    RestoreUndoesRebuild(text, edits, Slices(text, edits), 0);
    r := Owned(out);
  }
}
