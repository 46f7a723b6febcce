/** Normalisation of detected values before they are hashed: which raw values count as the same. */
module Normalize {
  import opened Prelude
  import opened Spans
  import Checksums

  /** The Unicode tables: compatibility composition of a text, and the lower case of one character. */
  datatype Unicode = Unicode(nfkc: string -> string, lower: char -> string)

  function Lower(u: Unicode, s: string): string {
    if s == "" then "" else Lower(u, s[..|s| - 1]) + u.lower(s[|s| - 1])
  }

  predicate NoSpace(s: string) {
    forall i :: 0 <= i < |s| ==> !IsWhitespace(s[i])
  }

  /** Lower-casing keeps white space, makes none, loses no other character, and done twice is done once. */
  ghost predicate SaneLower(u: Unicode) {
    forall c: char ::
      && (IsWhitespace(c) ==> u.lower(c) == [c])
      && (!IsWhitespace(c) ==> u.lower(c) != "" && NoSpace(u.lower(c)))
      && Lower(u, u.lower(c)) == u.lower(c)
  }

  /** Lower case goes character by character. */
  lemma {:induction false} LowerIsCharwise(u: Unicode, s: string)
    ensures Lower(u, s) == Flatten(seq(|s|, i requires 0 <= i < |s| => u.lower(s[i])))
  {
    var parts := seq(|s|, i requires 0 <= i < |s| => u.lower(s[i]));
    if s != "" {
      LowerIsCharwise(u, s[..|s| - 1]);
      assert parts[..|s| - 1] == seq(|s| - 1, i requires 0 <= i < |s| - 1 => u.lower(s[..|s| - 1][i]));
    }
  }

  lemma {:induction false} LowerConcat(u: Unicode, a: string, b: string)
    ensures Lower(u, a + b) == Lower(u, a) + Lower(u, b)
  {
    if b == "" {
      assert a + b == a;
    } else {
      LowerConcat(u, a, b[..|b| - 1]);
      assert (a + b)[..|a + b| - 1] == a + b[..|b| - 1];
    }
  }

  lemma {:induction false} LowerNoSpace(u: Unicode, s: string)
    requires SaneLower(u) && NoSpace(s)
    ensures NoSpace(Lower(u, s)) && (s != "" ==> Lower(u, s) != "")
  {
    hide IsWhitespace;
    if s != "" {
      LowerNoSpace(u, s[..|s| - 1]);
    }
  }

  lemma {:induction false} LowerTwice(u: Unicode, s: string)
    requires SaneLower(u)
    ensures Lower(u, Lower(u, s)) == Lower(u, s)
  {
    hide IsWhitespace;
    if s != "" {
      LowerTwice(u, s[..|s| - 1]);
      LowerConcat(u, Lower(u, s[..|s| - 1]), u.lower(s[|s| - 1]));
    }
  }

  // ----- The words of a text ------------------------------------------------------------------------

  /** The maximal runs of characters that are not white space. */
  function Words(s: string): seq<string> {
    if s == "" then []
    else
      var front, c := s[..|s| - 1], s[|s| - 1];
      var words := Words(front);
      if IsWhitespace(c) then words
      else if front == "" || IsWhitespace(front[|front| - 1]) || words == [] then words + [[c]]
      else words[..|words| - 1] + [words[|words| - 1] + [c]]
  }

  /** Words put together again with single spaces. */
  function Join(words: seq<string>): string {
    if words == [] then ""
    else if |words| == 1 then words[0]
    else Join(words[..|words| - 1]) + " " + words[|words| - 1]
  }

  function LowerAll(u: Unicode, words: seq<string>): (r: seq<string>)
    ensures |r| == |words| && forall i :: 0 <= i < |r| ==> r[i] == Lower(u, words[i])
  {
    seq(|words|, i requires 0 <= i < |words| => Lower(u, words[i]))
  }

  ghost predicate AreWords(words: seq<string>) {
    forall i :: 0 <= i < |words| ==> words[i] != "" && NoSpace(words[i])
  }

  lemma {:induction false} WordsAreWords(s: string)
    ensures AreWords(Words(s))
    ensures s != "" && !IsWhitespace(s[|s| - 1]) ==> Words(s) != []
  {
    hide IsWhitespace;
    if s != "" {
      WordsAreWords(s[..|s| - 1]);
    }
  }

  /** The text ends where a new word may start. */
  predicate AtBreak(s: string) {
    s == "" || IsWhitespace(s[|s| - 1])
  }

  lemma WordsSpace(s: string, c: char)
    requires IsWhitespace(c)
    ensures Words(s + [c]) == Words(s)
  {
    hide IsWhitespace;
    assert (s + [c])[..|s|] == s;
  }

  lemma WordsNew(s: string, c: char)
    requires !IsWhitespace(c) && AtBreak(s)
    ensures Words(s + [c]) == Words(s) + [[c]]
  {
    hide IsWhitespace;
    assert (s + [c])[..|s|] == s;
  }

  lemma WordsGrow(s: string, c: char)
    requires !IsWhitespace(c) && !AtBreak(s)
    ensures Words(s) != []
    ensures var words := Words(s); Words(s + [c]) == words[..|words| - 1] + [words[|words| - 1] + [c]]
  {
    hide IsWhitespace;
    WordsAreWords(s);
    assert (s + [c])[..|s|] == s;
  }

  lemma {:induction false} WordsOfExtended(s: string, w: string)
    requires w != "" && NoSpace(w) && AtBreak(s)
    ensures Words(s + w) == Words(s) + [w]
  {
    hide IsWhitespace, Words;
    var front, c := w[..|w| - 1], w[|w| - 1];
    assert s + w == (s + front) + [c];
    if front == "" {
      assert s + front == s && w == [c];
      WordsNew(s, c);
    } else {
      WordsOfExtended(s, front);
      assert (s + front)[|s + front| - 1] == front[|front| - 1];
      WordsGrow(s + front, c);
      assert (Words(s) + [front])[..|Words(s)|] == Words(s);
      assert front + [c] == w;
    }
  }

  /** Joining words and taking the result apart gives the words back. */
  lemma {:induction false} WordsOfJoin(words: seq<string>)
    requires AreWords(words)
    ensures Words(Join(words)) == words
  {
    hide IsWhitespace, Words, NoSpace;
    if words == [] {
      JoinNothing();
    } else {
      var front, last := words[..|words| - 1], words[|words| - 1];
      WordsOfJoin(front);
      if front == [] {
        WordsOfExtended("", last);
        JoinNothing();
        assert "" + last == last && words == [last];
      } else {
        SpaceIsWhitespace();
        WordsSpace(Join(front), ' ');
        WordsOfExtended(Join(front) + " ", last);
      }
      assert front + [last] == words;
    }
  }

  /** A text laid out as words with gaps before, between and after them. */
  function Laid(gaps: seq<string>, words: seq<string>): string
    requires |gaps| == |words| + 1
  {
    if words == [] then gaps[0]
    else Laid(gaps[..|words|], words[..|words| - 1]) + words[|words| - 1] + gaps[|words|]
  }

  ghost predicate AreGaps(gaps: seq<string>) {
    && (forall i :: 0 <= i < |gaps| ==> Blank(gaps[i]))
    && (forall i :: 0 < i < |gaps| - 1 ==> gaps[i] != "")
  }

  lemma {:induction false} WordsThenBlank(s: string, gap: string)
    requires Blank(gap)
    ensures Words(s + gap) == Words(s)
    ensures gap != "" ==> AtBreak(s + gap)
  {
    hide IsWhitespace, Words;
    if gap == "" {
      assert s + gap == s;
    } else {
      var front, c := gap[..|gap| - 1], gap[|gap| - 1];
      WordsThenBlank(s, front);
      assert s + gap == (s + front) + [c];
      WordsSpace(s + front, c);
    }
  }

  /** However wide the gaps and whatever white space they are made of, the words of the text are those words. */
  lemma {:induction false} WordsOfLaid(gaps: seq<string>, words: seq<string>)
    requires |gaps| == |words| + 1 && AreGaps(gaps) && AreWords(words)
    ensures Words(Laid(gaps, words)) == words
    ensures gaps[|words|] != "" ==> AtBreak(Laid(gaps, words))
  {
    hide IsWhitespace, Words, NoSpace, Blank, AtBreak;
    if words == [] {
      JoinNothing();
      WordsThenBlank("", gaps[0]);
      assert "" + gaps[0] == gaps[0];
    } else {
      var n := |words|;
      var s := Laid(gaps[..n], words[..n - 1]);
      WordsOfLaid(gaps[..n], words[..n - 1]);
      LaidAtBreak(gaps[..n], words[..n - 1]);
      WordsOfExtended(s, words[n - 1]);
      WordsThenBlank(s + words[n - 1], gaps[n]);
      assert words[..n - 1] + [words[n - 1]] == words;
    }
  }

  lemma LaidAtBreak(gaps: seq<string>, words: seq<string>)
    requires |gaps| == |words| + 1 && Blank(gaps[|words|]) && (words == [] || gaps[|words|] != "")
    ensures AtBreak(Laid(gaps, words))
  {
    hide IsWhitespace;
    if words != [] {
      var gap := gaps[|words|];
      assert Laid(gaps, words)[|Laid(gaps, words)| - 1] == gap[|gap| - 1];
    }
  }

  /** Every text is laid out in this way. */
  lemma {:induction false} EveryTextIsLaid(s: string) returns (gaps: seq<string>, words: seq<string>)
    ensures |gaps| == |words| + 1 && AreGaps(gaps) && AreWords(words) && Laid(gaps, words) == s
  {
    hide IsWhitespace;
    if s == "" {
      gaps, words := [""], [];
    } else {
      var front, c := s[..|s| - 1], s[|s| - 1];
      gaps, words := EveryTextIsLaid(front);
      var n := |words|;
      assert s == front + [c];
      if IsWhitespace(c) {
        var wider := gaps[n] + [c];
        assert gaps[..n] + [wider] == gaps[n := wider];
        gaps := gaps[n := wider];
      } else if gaps[n] != "" || n == 0 {
        gaps, words := gaps + [""], words + [[c]];
      } else {
        words := words[n - 1 := words[n - 1] + [c]];
      }
    }
  }

  lemma SpaceIsWhitespace()
    ensures IsWhitespace(' ')
  {
  }

  lemma JoinSnoc(words: seq<string>, w: string)
    ensures Join(words + [w]) == (if words == [] then "" else Join(words) + " ") + w
  {
    assert (words + [w])[..|words|] == words;
    if words == [] {
      assert words + [w] == [w] && "" + w == w;
    }
  }

  lemma LowerSpace(u: Unicode)
    requires SaneLower(u)
    ensures Lower(u, " ") == " "
  {
    SpaceIsWhitespace();
    assert " "[..0] == "" && u.lower(' ') == " ";
  }

  lemma {:induction false} LowerOfJoin(u: Unicode, words: seq<string>)
    requires SaneLower(u)
    ensures Lower(u, Join(words)) == Join(LowerAll(u, words))
  {
    hide SaneLower, Lower, Join;
    if words == [] {
      JoinNothing();
      LowerNothing(u);
      assert LowerAll(u, words) == [];
    } else {
      var front, last := words[..|words| - 1], words[|words| - 1];
      assert words == front + [last];
      assert LowerAll(u, words) == LowerAll(u, front) + [Lower(u, last)];
      JoinSnoc(front, last);
      JoinSnoc(LowerAll(u, front), Lower(u, last));
      if front != [] {
        LowerOfJoin(u, front);
        LowerSpace(u);
        LowerConcat(u, Join(front), " ");
        LowerConcat(u, Join(front) + " ", last);
      } else {
        assert "" + last == last && "" + Lower(u, last) == Lower(u, last);
      }
    }
  }

  lemma LowerNothing(u: Unicode)
    ensures Lower(u, "") == ""
  {
  }

  // ----- Trimming -----------------------------------------------------------------------------------

  function TrimStart(s: string): string {
    if s != "" && IsWhitespace(s[0]) then TrimStart(s[1..]) else s
  }

  function TrimEnd(s: string): string {
    if s != "" && IsWhitespace(s[|s| - 1]) then TrimEnd(s[..|s| - 1]) else s
  }

  function Trim(s: string): (t: string)
    ensures t != "" ==> !IsWhitespace(t[0]) && !IsWhitespace(t[|t| - 1])
  {
    TrimStartStarts(TrimEnd(s));
    TrimEndEnds(s);
    TrimStart(TrimEnd(s))
  }

  lemma {:induction false} TrimStartStarts(s: string)
    ensures var t := TrimStart(s); t != "" ==> s != "" && !IsWhitespace(t[0]) && t[|t| - 1] == s[|s| - 1]
  {
    hide IsWhitespace;
    if s != "" && IsWhitespace(s[0]) {
      TrimStartStarts(s[1..]);
    }
  }

  lemma {:induction false} TrimEndEnds(s: string)
    ensures var t := TrimEnd(s); t != "" ==> !IsWhitespace(t[|t| - 1])
  {
    hide IsWhitespace;
    if s != "" && IsWhitespace(s[|s| - 1]) {
      TrimEndEnds(s[..|s| - 1]);
    }
  }

  lemma {:induction false} WordsDropSpace(s: string)
    requires s != "" && IsWhitespace(s[0])
    ensures Words(s[1..]) == Words(s)
  {
    hide IsWhitespace;
    var front := s[..|s| - 1];
    if |s| == 1 {
      assert s[1..] == "" && front == "" && Words(s) == Words(front);
    } else {
      WordsDropSpace(front);
      assert s[1..][..|s[1..]| - 1] == front[1..];
      WordsAreWords(front[1..]);
    }
  }

  lemma {:induction false} WordsOfTrimStart(s: string)
    ensures Words(TrimStart(s)) == Words(s)
  {
    hide IsWhitespace, Words;
    if s != "" && IsWhitespace(s[0]) {
      WordsOfTrimStart(s[1..]);
      WordsDropSpace(s);
    }
  }

  lemma {:induction false} WordsOfTrimEnd(s: string)
    ensures Words(TrimEnd(s)) == Words(s)
  {
    hide IsWhitespace;
    if s != "" && IsWhitespace(s[|s| - 1]) {
      WordsOfTrimEnd(s[..|s| - 1]);
    }
  }

  lemma WordsOfTrim(s: string)
    ensures Words(Trim(s)) == Words(s)
  {
    hide Words, TrimStart, TrimEnd;
    WordsOfTrimEnd(s);
    WordsOfTrimStart(TrimEnd(s));
  }

  // ----- The two normalisations ---------------------------------------------------------------------

  /** Names: the words, joined by single spaces, in lower case. */
  method NormalizeName(u: Unicode, raw: string) returns (r: string)
    ensures r == NameForm(u, raw)
  {
    hide Lower, Words, Join, IsWhitespace;
    var text := Trim(u.nfkc(raw));
    var out := "";
    var prevSpace := false;
    JoinNothing();
    for i := 0 to |text|
      invariant prevSpace <==> 0 < i && AtBreak(text[..i])
      invariant out == Join(Words(text[..i])) + (if prevSpace then " " else "")
      invariant i == 0 <==> Words(text[..i]) == []
    {
      var c := text[i];
      assert text[..i + 1] == text[..i] + [c];
      JoinStep(text[..i], c);
      if IsWhitespace(c) {
        if !prevSpace {
          out := out + [' '];
          prevSpace := true;
        }
      } else {
        out := out + [c];
        prevSpace := false;
      }
    }
    assert text[..|text|] == text;
    assert !prevSpace;
    assert out == Join(Words(text));
    WordsOfTrim(u.nfkc(raw));
    r := Lower(u, out);
  }

  lemma JoinNothing()
    ensures Words("") == [] && Join([]) == ""
  {
  }

  /** What one more character does to the joined words. */
  lemma JoinStep(s: string, c: char)
    requires s == "" ==> !IsWhitespace(c)
    requires s == "" <==> Words(s) == []
    ensures IsWhitespace(c) ==> Words(s + [c]) == Words(s)
    ensures !IsWhitespace(c) ==>
              && Words(s + [c]) != []
              && Join(Words(s + [c])) == Join(Words(s)) + (if s != "" && AtBreak(s) then " " else "") + [c]
  {
    hide IsWhitespace, Words, Join;
    var words := Words(s);
    if IsWhitespace(c) {
      WordsSpace(s, c);
    } else if AtBreak(s) {
      WordsNew(s, c);
      JoinNothing();
      JoinSnoc(words, [c]);
    } else {
      WordsGrow(s, c);
      var front, last := words[..|words| - 1], words[|words| - 1];
      JoinSnoc(front, last);
      JoinSnoc(front, last + [c]);
      assert front + [last] == words;
    }
  }

  function NameForm(u: Unicode, raw: string): string {
    Lower(u, Join(Words(u.nfkc(raw))))
  }

  function StrictForm(u: Unicode, raw: string): string {
    Lower(u, Checksums.StripWhitespace(raw))
  }

  method NormalizeStrict(u: Unicode, raw: string) returns (r: string)
    ensures r == StrictForm(u, raw)
  {
    var kept := Checksums.Strip(raw);
    r := Lower(u, kept);
  }

  function Form(u: Unicode, kind: EntityKind, raw: string): string {
    if kind.Person? || kind.Org? then NameForm(u, raw) else StrictForm(u, raw)
  }

  method NormalizeValue(u: Unicode, kind: EntityKind, raw: string) returns (r: string)
    ensures r == Form(u, kind, raw)
    ensures r == if kind == Person || kind == Org then Lower(u, Join(Words(u.nfkc(raw))))
                 else Lower(u, Checksums.StripWhitespace(raw))
  {
    match kind
    case Person | Org => r := NormalizeName(u, raw);
    case _ => r := NormalizeStrict(u, raw);
  }

  /** Two names count as the same exactly when they have the same words up to case. */
  lemma SameNameIffSameWords(u: Unicode, a: string, b: string)
    requires SaneLower(u)
    ensures NameForm(u, a) == NameForm(u, b)
       <==> LowerAll(u, Words(u.nfkc(a))) == LowerAll(u, Words(u.nfkc(b)))
  {
    hide SaneLower, Lower, Words, Join, LowerAll;
    NameFormWords(u, a);
    NameFormWords(u, b);
  }

  lemma NameFormWords(u: Unicode, raw: string)
    requires SaneLower(u)
    ensures NameForm(u, raw) == Join(LowerAll(u, Words(u.nfkc(raw))))
    ensures Words(NameForm(u, raw)) == LowerAll(u, Words(u.nfkc(raw)))
  {
    hide SaneLower, Lower, Words, Join, NoSpace;
    var words := Words(u.nfkc(raw));
    LowerOfJoin(u, words);
    WordsAreWords(u.nfkc(raw));
    forall i | 0 <= i < |words| ensures LowerAll(u, words)[i] != "" && NoSpace(LowerAll(u, words)[i]) {
      LowerNoSpace(u, words[i]);
    }
    WordsOfJoin(LowerAll(u, words));
  }

  /** Normalising a normalised name changes nothing, provided compatibility composition does not. */
  lemma NameFormIdempotent(u: Unicode, raw: string)
    requires SaneLower(u) && u.nfkc(NameForm(u, raw)) == NameForm(u, raw)
    ensures NameForm(u, NameForm(u, raw)) == NameForm(u, raw)
  {
    hide SaneLower, Lower, Words, Join;
    NameFormWords(u, raw);
    var words := Words(u.nfkc(raw));
    LowerOfJoin(u, words);
    LowerTwice(u, Join(words));
  }

  /** The strict form has no white space left and normalising it again changes nothing. */
  lemma StrictFormIdempotent(u: Unicode, raw: string)
    requires SaneLower(u)
    ensures NoSpace(StrictForm(u, raw)) && StrictForm(u, StrictForm(u, raw)) == StrictForm(u, raw)
  {
    hide SaneLower, Lower, NoSpace, Checksums.StripWhitespace;
    var kept := Checksums.StripWhitespace(raw);
    StripNoSpace(raw);
    LowerNoSpace(u, kept);
    StripKeeps(Lower(u, kept));
    LowerTwice(u, kept);
  }

  lemma {:induction false} StripNoSpace(s: string)
    ensures NoSpace(Checksums.StripWhitespace(s))
  {
    hide IsWhitespace;
    if s != "" {
      StripNoSpace(s[..|s| - 1]);
    }
  }

  lemma {:induction false} StripKeeps(s: string)
    requires NoSpace(s)
    ensures Checksums.StripWhitespace(s) == s
  {
    hide IsWhitespace;
    if s != "" {
      StripKeeps(s[..|s| - 1]);
    }
  }
}
