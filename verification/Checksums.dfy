/**
 * The two mod-97 validators of the deterministic PII scan: the French social security number (NIR)
 * and the IBAN (MOD 97-10 of ISO/IEC 7064, as used by ISO 13616-1).
 */
module Checksums {
  import opened Prelude
  import opened Decimal

  predicate IsUpper(c: char) {
    'A' <= c <= 'Z'
  }

  predicate IsAscii(c: char) {
    c as int < 128
  }

  /** Bytes that a character takes in UTF-8: `len()` of a Rust string counts these. */
  function Utf8Size(c: char): nat {
    var v := c as int;
    if v < 0x80 then 1 else if v < 0x800 then 2 else if v < 0x10000 then 3 else 4
  }

  function Utf8Length(s: string): nat {
    if s == "" then 0 else Utf8Length(s[..|s| - 1]) + Utf8Size(s[|s| - 1])
  }

  /** Byte offset `b` falls between two characters, so slicing there does not panic. */
  ghost predicate CharBoundary(s: string, b: nat) {
    exists k: nat :: k <= |s| && Utf8Length(s[..k]) == b
  }

  lemma {:induction false} Utf8LengthBounds(s: string)
    ensures |s| <= Utf8Length(s)
    ensures Utf8Length(s) == |s| <==> forall i :: 0 <= i < |s| ==> IsAscii(s[i])
  {
    if s != "" {
      Utf8LengthBounds(s[..|s| - 1]);
    }
  }

  function StripWhitespace(s: string): (r: string)
    ensures forall i :: 0 <= i < |r| ==> !IsWhitespace(r[i])
  {
    if s == "" then ""
    else if IsWhitespace(s[|s| - 1]) then StripWhitespace(s[..|s| - 1])
    else StripWhitespace(s[..|s| - 1]) + [s[|s| - 1]]
  }

  /** Stripping goes character by character: a white-space one leaves nothing, any other is kept, in order. */
  lemma {:induction false} StripConcat(p: string, q: string)
    ensures StripWhitespace(p + q) == StripWhitespace(p) + StripWhitespace(q)
  {
    if q == "" {
      assert p + q == p;
    } else {
      StripConcat(p, q[..|q| - 1]);
      assert (p + q)[..|p + q| - 1] == p + q[..|q| - 1];
    }
  }

  lemma StripOne(c: char)
    ensures StripWhitespace([c]) == (if IsWhitespace(c) then "" else [c])
  {
    assert [c][..0] == "";
  }

  method Strip(raw: string) returns (compact: string)
    ensures compact == StripWhitespace(raw)
  {
    compact := "";
    for i := 0 to |raw|
      invariant compact == StripWhitespace(raw[..i])
    {
      assert raw[..i + 1][..i] == raw[..i];
      if !IsWhitespace(raw[i]) {
        compact := compact + [raw[i]];
      }
    }
    assert raw[..|raw|] == raw;
  }

  // ----- NIR ---------------------------------------------------------------------------------

  /** The département digits that enter the checksum: Corsica's letters are replaced by digits. */
  function DepartmentDigits(dep: string): string {
    if dep == "2A" then "19" else if dep == "2B" then "18" else dep
  }

  function NirNormalized(compact: string): string
    requires |compact| == 15
  {
    compact[..5] + DepartmentDigits(compact[5..7]) + compact[7..]
  }

  /** The rule behind the key: body plus key is a multiple of 97, and the key lies in 1..97. */
  predicate KeyHolds(digits: string) {
    |digits| == 15 && AllDigits(digits)
    && 1 <= Value(digits[13..]) <= 97
    && (Value(digits[..13]) + Value(digits[13..])) % 97 == 0
  }

  predicate NirRule(compact: string) {
    |compact| == 15 && KeyHolds(NirNormalized(compact))
  }

  /** `raw` comes from a regex match of fifteen characters, so the two byte slices fall between characters. */
  method IsValidNir(raw: string) returns (valid: bool)
    requires var c := StripWhitespace(raw); Utf8Length(c) == 15 ==> CharBoundary(c, 5) && CharBoundary(c, 7)
    ensures valid <==> NirRule(StripWhitespace(raw))
  {
    var compact := Strip(raw);
    Utf8LengthBounds(compact);
    if Utf8Length(compact) != 15 {
      if NirRule(compact) {
        NirRuleIsAscii(compact);
      }
      return false;
    }
    var five := CharIndex(compact, 5);
    var seven := CharIndex(compact, 7);
    BoundariesOrdered(compact, five, seven);
    AsciiBoundaries(compact, five, seven);
    var normalized := NormalizeDepartment(compact, five, seven);
    if normalized.None? {
      return false;
    }
    DigitsAreAscii(compact, five, seven, normalized.value);
    assert normalized.value == NirNormalized(compact);
    valid := KeyMatches(normalized.value);
  }

  method KeyMatches(normalized: string) returns (matches: bool)
    requires |normalized| == 15 && AllDigits(normalized)
    ensures matches <==> KeyHolds(normalized)
  {
    var n := Value(normalized[..13]);
    var key := Value(normalized[13..]);
    var expected := 97 - n % 97;
    matches := expected == key;
    KeyFromBody(n, key);
  }

  /** Replaces the département characters and rejects anything that is then not a digit string. */
  method NormalizeDepartment(compact: string, five: nat, seven: nat) returns (normalized: Option<string>)
    requires five <= seven <= |compact|
    ensures var digits := compact[..five] + DepartmentDigits(compact[five..seven]) + compact[seven..];
            normalized == if AllDigits(digits) then Some(digits) else None
  {
    var dep := compact[five..seven];
    ghost var digits := compact[..five] + DepartmentDigits(dep) + compact[seven..];
    var buffer := compact[..five];
    if dep == "2A" {
      buffer := buffer + "19";
    } else if dep == "2B" {
      buffer := buffer + "18";
    } else {
      if !AllDigits(dep) {
        assert digits[five..seven] == dep;
        return None;
      }
      buffer := buffer + dep;
    }
    buffer := buffer + compact[seven..];
    assert buffer == digits;
    if !AllDigits(buffer) {
      return None;
    }
    normalized := Some(buffer);
  }

  /** The character that starts at byte offset `b`. */
  method CharIndex(s: string, b: nat) returns (k: nat)
    requires CharBoundary(s, b)
    ensures k <= |s| && Utf8Length(s[..k]) == b
  {
    k :| k <= |s| && Utf8Length(s[..k]) == b;
  }

  lemma AsciiBoundaries(s: string, five: nat, seven: nat)
    requires five <= |s| && Utf8Length(s[..five]) == 5
    requires seven <= |s| && Utf8Length(s[..seven]) == 7
    ensures Utf8Length(s) == |s| ==> five == 5 && seven == 7
  {
    Utf8LengthBounds(s);
    Utf8LengthBounds(s[..five]);
    Utf8LengthBounds(s[..seven]);
  }

  lemma {:induction false} BoundariesOrdered(s: string, a: nat, b: nat)
    requires a <= |s| && b <= |s| && Utf8Length(s[..a]) < Utf8Length(s[..b])
    ensures a < b
    decreases a
  {
    if b <= a {
      if a == b {
      } else {
        assert s[..a][..a - 1] == s[..a - 1];
        BoundariesOrdered(s, a - 1, b);
      }
    }
  }

  lemma NirRuleIsAscii(compact: string)
    requires NirRule(compact)
    ensures Utf8Length(compact) == 15
  {
    DigitsAreAscii(compact, 5, 7, NirNormalized(compact));
  }

  lemma DigitsAreAscii(compact: string, five: nat, seven: nat, normalized: string)
    requires five <= seven <= |compact|
    requires normalized == compact[..five] + DepartmentDigits(compact[five..seven]) + compact[seven..]
    requires AllDigits(normalized)
    ensures Utf8Length(compact) == |compact|
  {
    hide AllDigits, DepartmentDigits, Utf8Length;
    GroupsAreAscii(compact[..five], compact[five..seven], compact[seven..]);
    ThreePieces(compact, five, seven);
  }

  lemma ThreePieces(s: string, i: nat, j: nat)
    requires i <= j <= |s|
    ensures s[..i] + s[i..j] + s[j..] == s
  {
    assert s[..i] + s[i..j] == s[..j];
    assert s[..j] + s[j..] == s;
  }

  lemma GroupsAreAscii(head: string, dep: string, tail: string)
    requires AllDigits(head + DepartmentDigits(dep) + tail)
    ensures Utf8Length(head + dep + tail) == |head + dep + tail|
  {
    DepartmentIsAscii(dep);
    hide DepartmentDigits, AllDigits, Utf8Length, IsAscii;
    PiecesAreDigits(head, DepartmentDigits(dep), tail);
    DigitsAscii(head);
    DigitsAscii(tail);
    Utf8LengthBounds(head + dep + tail);
  }

  lemma PiecesAreDigits(a: string, b: string, c: string)
    requires AllDigits(a + b + c)
    ensures AllDigits(a) && AllDigits(b) && AllDigits(c)
  {
    var s := a + b + c;
    assert forall i :: 0 <= i < |a| ==> s[i] == a[i];
    assert forall i :: 0 <= i < |b| ==> s[|a| + i] == b[i];
    assert forall i :: 0 <= i < |c| ==> s[|a| + |b| + i] == c[i];
  }

  lemma DigitsAscii(s: string)
    requires AllDigits(s)
    ensures forall i :: 0 <= i < |s| ==> IsAscii(s[i])
  {
  }

  lemma DepartmentIsAscii(dep: string)
    ensures AllDigits(DepartmentDigits(dep)) ==> forall i :: 0 <= i < |dep| ==> IsAscii(dep[i])
  {
  }

  // ----- IBAN --------------------------------------------------------------------------------

  predicate IsIbanChar(c: char) {
    IsUpper(c) || IsDigit(c)
  }

  predicate AllIbanChars(s: string) {
    forall i :: 0 <= i < |s| ==> IsIbanChar(s[i])
  }

  /** A digit stands for itself, a letter for the two digits of 10..35. */
  function CharNumber(c: char): nat
    requires IsIbanChar(c)
  {
    if IsDigit(c) then DigitValue(c) else c as int - 'A' as int + 10
  }

  function Expand(s: string): (r: string)
    requires AllIbanChars(s)
    ensures AllDigits(r)
  {
    if s == "" then "" else Expand(s[..|s| - 1]) + Print(CharNumber(s[|s| - 1]))
  }

  function Rotate(compact: string): string
    requires 4 <= |compact|
  {
    compact[4..] + compact[..4]
  }

  predicate IbanRule(compact: string) {
    15 <= |compact| <= 34 && AllIbanChars(compact) && Remainder(Rotate(compact)) == 1
  }

  /** A valid number has 15 to 34 characters, upper-case letters and digits only. */
  lemma IbanShape(compact: string)
    requires IbanRule(compact)
    ensures 15 <= |compact| <= 34
    ensures forall i :: 0 <= i < |compact| ==> ('A' <= compact[i] <= 'Z') || ('0' <= compact[i] <= '9')
  {
  }

  /** The expanded number modulo 97. */
  function Remainder(s: string): (r: nat)
    requires AllIbanChars(s)
    ensures r < 97
  {
    Value(Expand(s)) % 97
  }

  method IsValidIban(raw: string) returns (valid: bool)
    ensures valid <==> IbanRule(StripWhitespace(raw))
  {
    hide Expand, Value;
    var compact := Strip(raw);
    Utf8LengthBounds(compact);
    if Utf8Length(compact) < 15 || Utf8Length(compact) > 34 {
      return false;
    }
    if !AllIbanChars(compact) {
      return false;
    }
    var head, tail := compact[..4], compact[4..];
    var rotated := tail + head;
    assert AllIbanChars(rotated);
    var numeric := ExpandLetters(rotated);
    var rem := StreamRemainder(numeric);
    valid := rem == 1;
  }

  method ExpandLetters(rotated: string) returns (numeric: string)
    requires AllIbanChars(rotated)
    ensures numeric == Expand(rotated)
  {
    numeric := "";
    for i := 0 to |rotated|
      invariant numeric == Expand(rotated[..i])
    {
      assert rotated[..i + 1][..i] == rotated[..i];
      if IsDigit(rotated[i]) {
        numeric := numeric + [rotated[i]];
        assert Print(CharNumber(rotated[i])) == [rotated[i]];
      } else {
        var v := rotated[i] as int - 'A' as int + 10;
        numeric := numeric + Print(v);
      }
    }
    assert rotated[..|rotated|] == rotated;
  }

  /** Digit by digit, and still the whole number modulo 97, whatever its length. */
  method StreamRemainder(numeric: string) returns (rem: nat)
    requires AllDigits(numeric)
    ensures rem == Value(numeric) % 97
  {
    rem := 0;
    for i := 0 to |numeric|
      invariant rem == Value(numeric[..i]) % 97
    {
      assert numeric[..i + 1][..i] == numeric[..i];
      ReduceEarly(Value(numeric[..i]), 10, DigitValue(numeric[i]));
      rem := (rem * 10 + DigitValue(numeric[i])) % 97;
    }
    assert numeric[..|numeric|] == numeric;
  }

  // ----- Arithmetic of the remainder ---------------------------------------------------------

  lemma SameRemainder(x: int, y: int, k: int)
    requires x == y + 97 * k
    ensures x % 97 == y % 97
  {
    var q, r := y / 97, y % 97;
    assert y == 97 * q + r;
    assert x == 97 * (q + k) + r;
  }

  /** Reducing early does not change a remainder. */
  lemma ReduceEarly(x: int, w: int, c: int)
    requires w == 10 || w == 100
    ensures (w * x + c) % 97 == (w * (x % 97) + c) % 97
  {
    var q, r := x / 97, x % 97;
    assert x == 97 * q + r;
    if w == 10 {
      SameRemainder(10 * x + c, 10 * r + c, 10 * q);
    } else {
      SameRemainder(100 * x + c, 100 * r + c, 100 * q);
    }
  }

  lemma CongruentDifference(x: int, y: int) returns (k: int)
    requires x % 97 == y % 97
    ensures x - y == 97 * k
  {
    k := x / 97 - y / 97;
  }

  /** 97 does not divide 10 or 100, so shifting keeps different remainders different. */
  lemma ShiftInjective(r1: int, r2: int, w: int, c: int)
    requires 0 <= r1 < 97 && 0 <= r2 < 97
    requires w == 10 || w == 100
    ensures (w * r1 + c) % 97 == (w * r2 + c) % 97 ==> r1 == r2
  {
    if (w * r1 + c) % 97 == (w * r2 + c) % 97 {
      var k := CongruentDifference(w * r1 + c, w * r2 + c);
      var d := r1 - r2;
      if w == 10 {
        assert d == 97 * (68 * k - 7 * d) by { assert 10 * d == 97 * k; }  // 68 is the inverse of 10
      } else {
        assert d == 97 * (65 * k - 67 * d) by { assert 100 * d == 97 * k; }  // 65 is the inverse of 100
      }
    }
  }

  /** How far one character shifts the digits before it. */
  function Weight(c: char): nat {
    if IsDigit(c) then 10 else 100
  }

  lemma ExpandAppend(s: string, c: char)
    requires AllIbanChars(s) && IsIbanChar(c)
    ensures Value(Expand(s + [c])) == Weight(c) * Value(Expand(s)) + CharNumber(c)
  {
    assert (s + [c])[..|s|] == s;
    var e, v := Expand(s), CharNumber(c);
    if IsDigit(c) {
      assert Print(v) == [c];
      ValueAppend(e, c);
    } else {
      var hi, lo := DigitChar(v / 10), DigitChar(v % 10);
      assert Print(v / 10) == [hi];
      assert Print(v) == [hi] + [lo];
      assert e + Print(v) == e + [hi] + [lo];
      ValueAppend(e, hi);
      ValueAppend(e + [hi], lo);
    }
  }

  lemma RemainderAppend(s: string, c: char)
    requires AllIbanChars(s) && IsIbanChar(c)
    ensures AllIbanChars(s + [c])
    ensures Remainder(s + [c]) == (Weight(c) * Remainder(s) + CharNumber(c)) % 97
  {
    ExpandAppend(s, c);
    hide Expand, Value, Weight, CharNumber;
    ReduceEarly(Value(Expand(s)), Weight(c), CharNumber(c));
  }

  lemma LastCharacterKeepsDifference(p: string, q: string, c: char)
    requires AllIbanChars(p) && AllIbanChars(q) && IsIbanChar(c)
    ensures Remainder(p + [c]) == Remainder(q + [c]) <==> Remainder(p) == Remainder(q)
  {
    hide Remainder;
    RemainderAppend(p, c);
    RemainderAppend(q, c);
    ShiftInjective(Remainder(p), Remainder(q), Weight(c), CharNumber(c));
  }

  /** A common suffix neither hides a difference of remainders nor creates one. */
  lemma {:induction false} SuffixKeepsDifference(p: string, q: string, suffix: string)
    requires AllIbanChars(p) && AllIbanChars(q) && AllIbanChars(suffix)
    ensures Remainder(p + suffix) == Remainder(q + suffix) <==> Remainder(p) == Remainder(q)
  {
    hide Remainder;
    if suffix == "" {
      assert p + suffix == p && q + suffix == q;
    } else {
      var n := |suffix| - 1;
      SuffixKeepsDifference(p, q, suffix[..n]);
      assert p + suffix == p + suffix[..n] + [suffix[n]];
      assert q + suffix == q + suffix[..n] + [suffix[n]];
      LastCharacterKeepsDifference(p + suffix[..n], q + suffix[..n], suffix[n]);
    }
  }

  ghost predicate SameClass(a: char, b: char) {
    (IsDigit(a) && IsDigit(b)) || (IsUpper(a) && IsUpper(b))
  }

  lemma LastCharacterCounts(w: int, r: int, a: int, b: int)
    requires 0 <= a < 97 && 0 <= b < 97
    ensures (w * r + a) % 97 == (w * r + b) % 97 ==> a == b
  {
    var x := w * r;
    if (x + a) % 97 == (x + b) % 97 {
      var k := CongruentDifference(x + a, x + b);
    }
  }

  lemma LastCharacterDistinguishes(p: string, a: char, b: char)
    requires AllIbanChars(p) && SameClass(a, b) && a != b
    ensures Remainder(p + [a]) != Remainder(p + [b])
  {
    hide Remainder;
    RemainderAppend(p, a);
    RemainderAppend(p, b);
    LastCharacterCounts(Weight(a), Remainder(p), CharNumber(a), CharNumber(b));
  }

  lemma SubstitutionChangesRemainder(p: string, a: char, b: char, suffix: string)
    requires AllIbanChars(p) && AllIbanChars(suffix) && SameClass(a, b) && a != b
    ensures Remainder(p + [a] + suffix) != Remainder(p + [b] + suffix)
  {
    hide Remainder;
    LastCharacterDistinguishes(p, a, b);
    SuffixKeepsDifference(p + [a], p + [b], suffix);
  }

  lemma SwapRemainders(p: string, a: char, b: char)
    requires AllIbanChars(p) && IsIbanChar(a) && IsIbanChar(b)
    ensures AllIbanChars(p + [a] + [b])
    ensures Remainder(p + [a] + [b])
         == (Weight(a) * Weight(b) * Remainder(p) + Weight(b) * CharNumber(a) + CharNumber(b)) % 97
  {
    hide Remainder;
    RemainderAppend(p, a);
    RemainderAppend(p + [a], b);
    NestedShift(Weight(a), Weight(b), Remainder(p), CharNumber(a), CharNumber(b));
  }

  lemma NestedShift(wa: int, wb: int, r: int, a: int, b: int)
    requires wa in {10, 100} && wb in {10, 100}
    ensures (wb * ((wa * r + a) % 97) + b) % 97 == (wa * wb * r + wb * a + b) % 97
  {
    ReduceEarly(wa * r + a, wb, b);
    assert wb * (wa * r + a) == wa * wb * r + wb * a;
  }

  ghost predicate BlindPair(digit: char, letter: char) {
    (digit, letter) == ('1', 'B') || (digit, letter) == ('2', 'M') || (digit, letter) == ('3', 'X')
  }

  /** The unordered pairs whose swap leaves the remainder alone. */
  ghost predicate Blind(a: char, b: char) {
    BlindPair(a, b) || BlindPair(b, a)
  }

  /** 9v - 2d is a multiple of 97 in range only at v = 11d. */
  lemma BlindNumbers(d: int, v: int, j: int)
    requires 0 <= d < 10 && 10 <= v < 36 && 9 * v - 2 * d == 97 * j
    ensures 1 <= j <= 3 && d == j && v == 11 * j
  {
  }

  lemma DigitLetterBlind(digit: char, letter: char, r: nat)
    requires IsDigit(digit) && IsUpper(letter)
    ensures (1000 * r + 100 * CharNumber(digit) + CharNumber(letter)) % 97
         == (1000 * r + 10 * CharNumber(letter) + CharNumber(digit)) % 97
        <==> BlindPair(digit, letter)
  {
    var d: int, v: int := CharNumber(digit), CharNumber(letter);
    var x: int, y: int := 1000 * r + 100 * d + v, 1000 * r + 10 * v + d;
    if BlindPair(digit, letter) {
      assert x == y;
    } else if x % 97 == y % 97 {
      var k := CongruentDifference(x, y);
      BlindNumbers(d, v, d - k);
    }
  }

  lemma SameClassSwap(w: int, r: int, a: int, b: int)
    requires (w == 10 && 0 <= a < 10 && 0 <= b < 10) || (w == 100 && 10 <= a < 36 && 10 <= b < 36)
    ensures (w * w * r + w * a + b) % 97 == (w * w * r + w * b + a) % 97 ==> a == b
  {
    var x, y := w * w * r + w * a + b, w * w * r + w * b + a;
    if x % 97 == y % 97 {
      var k := CongruentDifference(x, y);
      if w == 10 {
        assert w * a == 10 * a && w * b == 10 * b;
        NineTimes(a - b, k);
      } else {
        assert w * a == 100 * a && w * b == 100 * b;
        NinetyNineTimes(a - b, k);
      }
    }
  }

  lemma NineTimes(d: int, k: int)
    requires -97 < d < 97 && 9 * d == 97 * k
    ensures d == 0
  {
    assert d == 97 * (4 * d - 43 * k);
  }

  lemma NinetyNineTimes(d: int, k: int)
    requires -48 < d < 48 && 99 * d == 97 * k
    ensures d == 0
  {
    assert 2 * d == 97 * (k - d);
  }

  lemma SwapBlind(a: char, b: char, r: nat)
    requires IsIbanChar(a) && IsIbanChar(b) && a != b
    ensures (Weight(a) * Weight(b) * r + Weight(b) * CharNumber(a) + CharNumber(b)) % 97
         == (Weight(a) * Weight(b) * r + Weight(a) * CharNumber(b) + CharNumber(a)) % 97
        <==> Blind(a, b)
  {
    if IsDigit(a) && IsUpper(b) {
      DigitLetterBlind(a, b, r);
    } else if IsUpper(a) && IsDigit(b) {
      DigitLetterBlind(b, a, r);
    } else {
      SameClassSwap(Weight(a), r, CharNumber(a), CharNumber(b));
    }
  }

  /** An adjacent swap inside one side of the split is missed for exactly three digit and letter pairs. */
  lemma SwapRemainderEqual(p: string, a: char, b: char, suffix: string)
    requires AllIbanChars(p) && IsIbanChar(a) && IsIbanChar(b) && AllIbanChars(suffix) && a != b
    ensures Remainder(p + [a] + [b] + suffix) == Remainder(p + [b] + [a] + suffix) <==> Blind(a, b)
  {
    hide Remainder;
    SwapRemainders(p, a, b);
    SwapRemainders(p, b, a);
    SwapBlind(a, b, Remainder(p));
    SuffixKeepsDifference(p + [a] + [b], p + [b] + [a], suffix);
  }

  // ----- Error detection ---------------------------------------------------------------------

  /** `t` is `s` with position `i` replaced by a different character of the same class. */
  ghost predicate Substituted(s: string, t: string, i: nat) {
    i < |s| && |t| == |s| && t == s[i := t[i]] && SameClass(s[i], t[i]) && s[i] != t[i]
  }

  /** `t` is `s` with the different neighbours at `i` and `i + 1` exchanged. */
  ghost predicate Swapped(s: string, t: string, i: nat) {
    i + 1 < |s| && s[i] != s[i + 1] && t == s[i := s[i + 1]][i + 1 := s[i]]
  }

  lemma IbanDetectsSubstitution(iban: string, damaged: string, i: nat)
    requires IbanRule(iban) && Substituted(iban, damaged, i)
    ensures !IbanRule(damaged)
  {
    hide Remainder;
    var r, d := Rotate(iban), Rotate(damaged);
    var j := if i < 4 then |iban| - 4 + i else i - 4;
    assert r == r[..j] + [iban[i]] + r[j + 1..];
    assert d == r[..j] + [damaged[i]] + r[j + 1..];
    SubstitutionChangesRemainder(r[..j], iban[i], damaged[i], r[j + 1..]);
  }

  /** Exact: of all adjacent swaps on one side of the split, only three pairs of characters escape. */
  lemma IbanDetectsSwap(iban: string, damaged: string, i: nat)
    requires IbanRule(iban) && Swapped(iban, damaged, i) && i != 3
    ensures IbanRule(damaged) <==> Blind(iban[i], iban[i + 1])
  {
    hide Remainder;
    var r, d := Rotate(iban), Rotate(damaged);
    var j := if i < 4 then |iban| - 4 + i else i - 4;
    var a, b := iban[i], iban[i + 1];
    assert r == r[..j] + [a] + [b] + r[j + 2..];
    assert d == r[..j] + [b] + [a] + r[j + 2..];
    assert AllIbanChars(r) && IsIbanChar(r[j]) && IsIbanChar(r[j + 1]);
    SwapRemainderEqual(r[..j], a, b, r[j + 2..]);
  }

  /** A number of two digits, printed with its leading zero. */
  function TwoDigits(k: nat): string
    requires k < 100
  {
    [DigitChar(k / 10), DigitChar(k % 10)]
  }

  /** Every country and BBAN have exactly one check pair in 02..98, the one ISO 7064 generates. */
  lemma IbanCheckPairUnique(country: string, bban: string, k: nat)
    requires |country| == 2 && 11 <= |bban| <= 30 && AllIbanChars(country) && AllIbanChars(bban)
    requires 2 <= k <= 98
    ensures AllIbanChars(bban + country + TwoDigits(0))
    ensures IbanRule(country + TwoDigits(k) + bban) <==> k == 98 - Remainder(bban + country + TwoDigits(0))
  {
    hide Remainder;
    var iban := country + TwoDigits(k) + bban;
    var stem := bban + country;
    assert Rotate(iban) == stem + TwoDigits(k);
    assert TwoDigits(k) == [DigitChar(k / 10)] + [DigitChar(k % 10)];
    SwapRemainders(stem, DigitChar(k / 10), DigitChar(k % 10));
    SwapRemainders(stem, '0', '0');
    assert stem + TwoDigits(0) == stem + ['0'] + ['0'];
    assert stem + TwoDigits(k) == stem + [DigitChar(k / 10)] + [DigitChar(k % 10)];
    CheckPair(Remainder(stem), k);
  }

  lemma CheckPair(r: nat, k: nat)
    requires 2 <= k <= 98
    ensures (100 * r + k) % 97 == 1 <==> k == 98 - (100 * r) % 97
  {
    var q, m := 100 * r / 97, (100 * r) % 97;
    assert 100 * r == 97 * q + m;
    SameRemainder(100 * r + k, m + k, q);
    assert (m + k) % 97 == 1 <==> m + k == 98;
  }

  lemma {:induction false} DigitsExpandToThemselves(s: string)
    requires AllDigits(s)
    ensures AllIbanChars(s) && Expand(s) == s
  {
    if s != "" {
      DigitsExpandToThemselves(s[..|s| - 1]);
      assert Print(DigitValue(s[|s| - 1])) == [s[|s| - 1]];
    }
  }

  /** The key is determined by the body: it is 97 minus the body's remainder. */
  lemma KeyFromBody(n: nat, k: nat)
    ensures 1 <= k <= 97 && (n + k) % 97 == 0 <==> k == 97 - n % 97
  {
    assert n == 97 * (n / 97) + n % 97;
  }

  lemma KeyParts(digits: string)
    requires KeyHolds(digits)
    ensures AllDigits(digits[..13]) && AllIbanChars(digits[..13])
    ensures Value(digits[13..]) == 97 - Remainder(digits[..13])
    ensures Value(digits[13..]) == 10 * DigitValue(digits[13]) + DigitValue(digits[14])
  {
    DigitsExpandToThemselves(digits[..13]);
    KeyFromBody(Value(digits[..13]), Value(digits[13..]));
    KeyValue(digits);
  }

  /** Normalizing touches positions 5 and 6 only, and there only Corsica's two codes. */
  lemma NormalizedAt(compact: string)
    requires |compact| == 15
    requires KeyHolds(NirNormalized(compact))
    ensures var digits := NirNormalized(compact);
            && (forall j :: 0 <= j < 15 && j != 5 && j != 6 ==> digits[j] == compact[j])
            && (compact[5] == '2' && compact[6] == 'A' ==> digits[5] == '1' && digits[6] == '9')
            && (compact[5] == '2' && compact[6] == 'B' ==> digits[5] == '1' && digits[6] == '8')
            && ((compact[5] != '2' || (compact[6] != 'A' && compact[6] != 'B')) ==>
                 digits[5] == compact[5] && digits[6] == compact[6] && IsDigit(compact[5]) && IsDigit(compact[6]))
  {
    var digits := NirNormalized(compact);
    var dep := compact[5..7];
    assert dep == [compact[5], compact[6]];
    assert digits[5..7] == DepartmentDigits(dep);
    assert digits[5] == digits[5..7][0] && digits[6] == digits[5..7][1];
  }

  lemma NirSubstitutionNormalized(nir: string, damaged: string, i: nat)
    requires NirRule(nir) && NirRule(damaged) && Substituted(nir, damaged, i)
    ensures Substituted(NirNormalized(nir), NirNormalized(damaged), i)
  {
    var a, b := NirNormalized(nir), NirNormalized(damaged);
    NormalizedAt(nir);
    NormalizedAt(damaged);
    hide NirNormalized, KeyHolds;
    assert b == a[i := b[i]];
  }

  lemma KeyDetectsSubstitution(a: string, b: string, i: nat)
    requires KeyHolds(a) && Substituted(a, b, i)
    ensures !KeyHolds(b)
  {
    hide Remainder;
    if KeyHolds(b) {
      KeyParts(a);
      KeyParts(b);
      if i < 13 {
        var p, suffix := a[..i], a[i + 1..13];
        assert a[..13] == p + [a[i]] + suffix && b[..13] == p + [b[i]] + suffix && a[13..] == b[13..];
        SubstitutionChangesRemainder(p, a[i], b[i], suffix);
      }
    }
  }

  lemma NirDetectsSubstitution(nir: string, damaged: string, i: nat)
    requires NirRule(nir) && Substituted(nir, damaged, i)
    ensures !NirRule(damaged)
  {
    if NirRule(damaged) {
      NirSubstitutionNormalized(nir, damaged, i);
      KeyDetectsSubstitution(NirNormalized(nir), NirNormalized(damaged), i);
    }
  }

  lemma KeyValue(digits: string)
    requires |digits| == 15 && AllDigits(digits)
    ensures Value(digits[13..]) == 10 * DigitValue(digits[13]) + DigitValue(digits[14])
  {
    assert digits[13..] == [digits[13]] + [digits[14]];
    ValueAppend([digits[13]], digits[14]);
  }

  lemma NirSwapNormalized(nir: string, damaged: string, i: nat)
    requires NirRule(nir) && NirRule(damaged) && Swapped(nir, damaged, i)
    requires IsDigit(nir[i]) && IsDigit(nir[i + 1])
    ensures Swapped(NirNormalized(nir), NirNormalized(damaged), i)
  {
    var a, b := NirNormalized(nir), NirNormalized(damaged);
    NormalizedAt(nir);
    NormalizedAt(damaged);
    hide NirNormalized, KeyHolds;
    assert b == a[i := a[i + 1]][i + 1 := a[i]];
  }

  /** Exchanging the last body digit with the first key digit shifts body plus key by nine times their difference. */
  lemma SwapAcrossKey(p: nat, x: nat, y: nat, z: nat)
    requires x < 10 && y < 10
    requires (10 * p + x + (10 * y + z)) % 97 == 0 && (10 * p + y + (10 * x + z)) % 97 == 0
    ensures x == y
  {
    var k := CongruentDifference(10 * p + x + (10 * y + z), 10 * p + y + (10 * x + z));
    assert 9 * (y - x) == 97 * k;
  }

  lemma BodyDetectsSwap(a: string, b: string, i: nat)
    requires KeyHolds(a) && Swapped(a, b, i) && i < 12
    ensures !KeyHolds(b)
  {
    hide Remainder;
    if KeyHolds(b) {
      KeyParts(a);
      KeyParts(b);
      var p, suffix := a[..i], a[i + 2..13];
      assert a[..13] == p + [a[i]] + [a[i + 1]] + suffix && b[..13] == p + [a[i + 1]] + [a[i]] + suffix;
      assert a[13..] == b[13..];
      SwapRemainderEqual(p, a[i], a[i + 1], suffix);
    }
  }

  lemma KeyDetectsSwap(a: string, b: string, i: nat)
    requires KeyHolds(a) && Swapped(a, b, i) && 12 <= i
    ensures !KeyHolds(b)
  {
    hide Remainder;
    if KeyHolds(b) {
      KeyParts(a);
      KeyParts(b);
      if i == 12 {
        assert a[..13] == a[..12] + [a[12]] && b[..13] == a[..12] + [a[13]];
        ValueAppend(a[..12], a[12]);
        ValueAppend(a[..12], a[13]);
        SwapAcrossKey(Value(a[..12]), DigitValue(a[12]), DigitValue(a[13]), DigitValue(a[14]));
      }
    }
  }

  /** Every swap of two different neighbouring digits, in the body, in the key, or across the two, is caught. */
  lemma NirDetectsSwap(nir: string, damaged: string, i: nat)
    requires NirRule(nir) && Swapped(nir, damaged, i)
    requires IsDigit(nir[i]) && IsDigit(nir[i + 1])
    ensures !NirRule(damaged)
  {
    if NirRule(damaged) {
      NirSwapNormalized(nir, damaged, i);
      if i < 12 {
        BodyDetectsSwap(NirNormalized(nir), NirNormalized(damaged), i);
      } else {
        KeyDetectsSwap(NirNormalized(nir), NirNormalized(damaged), i);
      }
    }
  }

  /** Every 13-character body has exactly one key, and it lies in 01..97. */
  lemma NirKeyUnique(body: string, k: nat)
    requires |body| == 13 && AllDigits(body[..5] + DepartmentDigits(body[5..7]) + body[7..]) && k < 100
    ensures NirRule(body + TwoDigits(k))
       <==> k == 97 - Value(body[..5] + DepartmentDigits(body[5..7]) + body[7..]) % 97
  {
    var nir := body + TwoDigits(k);
    var digits := body[..5] + DepartmentDigits(body[5..7]) + body[7..];
    assert nir[..5] == body[..5] && nir[5..7] == body[5..7] && nir[7..] == body[7..] + TwoDigits(k);
    assert NirNormalized(nir) == digits + TwoDigits(k);
    KeyValue(digits + TwoDigits(k));
    assert (digits + TwoDigits(k))[..13] == digits;
    KeyFromBody(Value(digits), k);
  }
}
