/** The validators on texts as the scan finds them: white space between the groups changes no verdict and hides no error. */
module SpacedNumbers {
  import opened Prelude
  import opened Decimal
  import opened Checksums
  import opened IbanSplit

  /** White space may be put in anywhere. */
  lemma SpaceDoesNotMatter(p: string, c: char, q: string)
    requires IsWhitespace(c)
    ensures StripWhitespace(p + [c] + q) == StripWhitespace(p + q)
    ensures NirRule(StripWhitespace(p + [c] + q)) <==> NirRule(StripWhitespace(p + q))
    ensures IbanRule(StripWhitespace(p + [c] + q)) <==> IbanRule(StripWhitespace(p + q))
  {
    hide NirRule, IbanRule, StripWhitespace;
    StripConcat(p + [c], q);
    StripConcat(p, [c]);
    StripConcat(p, q);
    StripOne(c);
  }

  lemma {:induction false} StripBlank(s: string)
    requires Blank(s)
    ensures StripWhitespace(s) == ""
  {
    if s != "" {
      StripBlank(s[..|s| - 1]);
    }
  }

  lemma NotSpace(c: char)
    requires IsDigit(c) || IsUpper(c)
    ensures !IsWhitespace(c)
  {
  }

  /** A character among the others, each with its white space. */
  lemma StripAround(p: string, a: char, q: string)
    requires !IsWhitespace(a)
    ensures StripWhitespace(p + [a] + q) == StripWhitespace(p) + [a] + StripWhitespace(q)
  {
    hide StripWhitespace;
    StripConcat(p + [a], q);
    StripConcat(p, [a]);
    StripOne(a);
  }

  /** Two neighbours, perhaps with white space between. */
  lemma StripPair(p: string, a: char, gap: string, b: char, q: string)
    requires !IsWhitespace(a) && !IsWhitespace(b) && Blank(gap)
    ensures StripWhitespace(p + [a] + gap + [b] + q) == StripWhitespace(p) + [a] + [b] + StripWhitespace(q)
  {
    hide StripWhitespace;
    StripAround(p + [a] + gap, b, q);
    StripConcat(p + [a], gap);
    StripConcat(p, [a]);
    StripOne(a);
    StripBlank(gap);
    assert StripWhitespace(p) + [a] + "" == StripWhitespace(p) + [a];
  }

  lemma NeighboursSwapped(s: string, a: char, b: char, t: string)
    requires a != b
    ensures Swapped(s + [a] + [b] + t, s + [b] + [a] + t, |s|)
  {
  }

  lemma OneSubstituted(s: string, a: char, b: char, t: string)
    requires SameClass(a, b) && a != b
    ensures Substituted(s + [a] + t, s + [b] + t, |s|)
  {
  }

  // ----- NIR --------------------------------------------------------------------------------------------

  lemma SpacedNirDetectsSubstitution(p: string, a: char, b: char, q: string)
    requires NirRule(StripWhitespace(p + [a] + q)) && SameClass(a, b) && a != b
    ensures !NirRule(StripWhitespace(p + [b] + q))
  {
    hide NirRule, StripWhitespace;
    NotSpace(a);
    NotSpace(b);
    StripAround(p, a, q);
    StripAround(p, b, q);
    OneSubstituted(StripWhitespace(p), a, b, StripWhitespace(q));
    NirDetectsSubstitution(StripWhitespace(p + [a] + q), StripWhitespace(p + [b] + q), |StripWhitespace(p)|);
  }

  lemma SpacedNirDetectsSwap(p: string, a: char, gap: string, b: char, q: string)
    requires NirRule(StripWhitespace(p + [a] + gap + [b] + q)) && IsDigit(a) && IsDigit(b) && a != b && Blank(gap)
    ensures !NirRule(StripWhitespace(p + [b] + gap + [a] + q))
  {
    hide NirRule, StripWhitespace, Blank;
    NotSpace(a);
    NotSpace(b);
    StripPair(p, a, gap, b, q);
    StripPair(p, b, gap, a, q);
    NeighboursSwapped(StripWhitespace(p), a, b, StripWhitespace(q));
    NirDetectsSwap(StripWhitespace(p + [a] + gap + [b] + q), StripWhitespace(p + [b] + gap + [a] + q), |StripWhitespace(p)|);
  }

  // ----- IBAN -------------------------------------------------------------------------------------------

  lemma SpacedIbanDetectsSubstitution(p: string, a: char, b: char, q: string)
    requires IbanRule(StripWhitespace(p + [a] + q)) && SameClass(a, b) && a != b
    ensures !IbanRule(StripWhitespace(p + [b] + q))
  {
    hide IbanRule, StripWhitespace;
    NotSpace(a);
    NotSpace(b);
    StripAround(p, a, q);
    StripAround(p, b, q);
    OneSubstituted(StripWhitespace(p), a, b, StripWhitespace(q));
    IbanDetectsSubstitution(StripWhitespace(p + [a] + q), StripWhitespace(p + [b] + q), |StripWhitespace(p)|);
  }

  /** Exact, wherever the two stand: on one side of the split three pairs escape, across it those of `SplitBlind`. */
  lemma SpacedIbanSwap(p: string, a: char, gap: string, b: char, q: string)
    requires IbanRule(StripWhitespace(p + [a] + gap + [b] + q)) && Blank(gap)
    requires IsIbanChar(a) && IsIbanChar(b) && a != b
    ensures var iban := StripWhitespace(p + [a] + gap + [b] + q);
      && |iban| >= 5 && AllIbanChars(iban)
      && (IbanRule(StripWhitespace(p + [b] + gap + [a] + q))
          <==> if |StripWhitespace(p)| == 3 then SplitBlind(iban) else Blind(a, b))
  {
    var iban, damaged := StripWhitespace(p + [a] + gap + [b] + q), StripWhitespace(p + [b] + gap + [a] + q);
    assert |iban| >= 5 && AllIbanChars(iban);
    hide IbanRule, StripWhitespace, Blank, SplitBlind;
    NotSpace(a);
    NotSpace(b);
    StripPair(p, a, gap, b, q);
    StripPair(p, b, gap, a, q);
    NeighboursSwapped(StripWhitespace(p), a, b, StripWhitespace(q));
    if |StripWhitespace(p)| == 3 {
      IbanSwapAcrossSplit(iban, damaged);
    } else {
      IbanDetectsSwap(iban, damaged, |StripWhitespace(p)|);
    }
  }
}
