/** Adjacent swaps across the four-character split of an IBAN: one character leads the rotated number, the other ends it. */
module IbanSplit {
  import opened Prelude
  import opened Decimal
  import opened Checksums

  // ----- 97 is prime --------------------------------------------------------------------------------

  lemma NoDivisor(d: nat, q: nat)
    requires 2 <= d <= 96
    ensures d * q != 97
  {
    if d <= 9 {
      SmallDivisor(d, q);
    } else if q == 1 {
    } else if q <= 9 {
      SmallDivisor(q, d);
      assert d * q == q * d;
    } else {
      assert d * q >= 10 * q >= 100;
    }
  }

  lemma SmallDivisor(d: nat, q: nat)
    requires d <= 9 && d != 1
    ensures d * q != 97
  {
    assert d == 0 || d == 1 || d == 2 || d == 3 || d == 4 || d == 5 || d == 6 || d == 7 || d == 8 || d == 9;
  }

  /** Euclid: when 97 divides a product, and not the first factor, it divides the second. */
  lemma {:induction false} Euclid(d: nat, y: int, k: int) returns (j: int)
    requires 1 <= d <= 96 && d * y == 97 * k
    ensures y == 97 * j
    decreases d
  {
    if d == 1 {
      j := k;
    } else {
      var q, r := 97 / d, 97 % d;
      assert d * q + r == 97;
      NoDivisor(d, q);
      RemainderTimes(d, q, r, y, k);
      j := Euclid(r, y, y - q * k);
    }
  }

  lemma RemainderTimes(d: int, q: int, r: int, y: int, k: int)
    requires d * q + r == 97 && d * y == 97 * k
    ensures r * y == 97 * (y - q * k)
  {
    assert (d * q + r) * y == q * (d * y) + r * y;
    assert q * (97 * k) == 97 * (q * k);
  }

  // ----- The order of 10 modulo 97 exceeds every IBAN's length ---------------------------------------

  function TenPower(m: nat): (r: nat)
    ensures r < 97
  {
    if m == 0 then 1 else 10 * TenPower(m - 1) % 97
  }

  lemma NextPower(m: nat, r: nat, s: nat)
    requires TenPower(m) == r && 10 * r % 97 == s
    ensures TenPower(m + 1) == s
  {
  }

  /** Eight consecutive powers, given one by one; none of them is 1. */
  lemma Row(from: nat, r: nat, a: nat, b: nat, c: nat, d: nat, e: nat, f: nat, g: nat, h: nat, m: nat)
    requires TenPower(from) == r
    requires 10 * r % 97 == a != 1 && 10 * a % 97 == b != 1 && 10 * b % 97 == c != 1 && 10 * c % 97 == d != 1
    requires 10 * d % 97 == e != 1 && 10 * e % 97 == f != 1 && 10 * f % 97 == g != 1 && 10 * g % 97 == h != 1
    ensures TenPower(from + 8) == h
    ensures from < m <= from + 8 ==> TenPower(m) != 1
  {
    hide TenPower;
    NextPower(from, r, a);
    NextPower(from + 1, a, b);
    NextPower(from + 2, b, c);
    NextPower(from + 3, c, d);
    NextPower(from + 4, d, e);
    NextPower(from + 5, e, f);
    NextPower(from + 6, f, g);
    NextPower(from + 7, g, h);
  }

  lemma FirstPowers(m: nat)
    ensures TenPower(24) == 75
    ensures 0 < m <= 24 ==> TenPower(m) != 1
  {
    assert TenPower(0) == 1;
    hide TenPower;
    Row(0, 1, 10, 3, 30, 9, 90, 27, 76, 81, m);
    Row(8, 81, 34, 49, 5, 50, 15, 53, 45, 62, m);
    Row(16, 62, 38, 89, 17, 73, 51, 25, 56, 75, m);
  }

  lemma SecondPowers(m: nat)
    ensures TenPower(48) == 96
    ensures 24 < m <= 48 ==> TenPower(m) != 1
  {
    FirstPowers(m);
    hide TenPower;
    Row(24, 75, 71, 31, 19, 93, 57, 85, 74, 61, m);
    Row(32, 61, 28, 86, 84, 64, 58, 95, 77, 91, m);
    Row(40, 91, 37, 79, 14, 43, 42, 32, 29, 96, m);
  }

  lemma ThirdPowers(m: nat)
    ensures TenPower(72) == 22
    ensures 48 < m <= 72 ==> TenPower(m) != 1
  {
    SecondPowers(m);
    hide TenPower;
    Row(48, 96, 87, 94, 67, 88, 7, 70, 21, 16, m);
    Row(56, 16, 63, 48, 92, 47, 82, 44, 52, 35, m);
    Row(64, 35, 59, 8, 80, 24, 46, 72, 41, 22, m);
  }

  /** The powers of 10 do not come back to 1 within 72 steps: more than the length of any expanded IBAN. */
  lemma TenPowerNeverOne(m: nat)
    requires 1 <= m <= 72
    ensures TenPower(m) != 1
  {
    hide TenPower;
    FirstPowers(m);
    SecondPowers(m);
    ThirdPowers(m);
  }

  // ----- How far the leading character is shifted -----------------------------------------------------

  /** The digits that a piece expands to. */
  function Shift(s: string): (n: nat)
    requires AllIbanChars(s)
    ensures |s| <= n <= 2 * |s|
  {
    if s == "" then 0 else Shift(s[..|s| - 1]) + (if IsDigit(s[|s| - 1]) then 1 else 2)
  }

  lemma WeighPower(n: nat, c: char)
    requires IsIbanChar(c)
    ensures TenPower(n + if IsDigit(c) then 1 else 2) == Weight(c) * TenPower(n) % 97
  {
    if !IsDigit(c) {
      ReduceEarly(10 * TenPower(n), 10, 0);
    }
  }

  lemma LeadStep(x: nat, w: nat, t: nat, r: nat, c: nat)
    requires w == 10 || w == 100
    ensures (w * ((x * t + r) % 97) + c) % 97 == (x * (w * t % 97) + (w * r + c) % 97) % 97
  {
    ReduceEarly(x * t + r, w, c);
    var j, l := w * t / 97, (w * r + c) / 97;
    var t', r' := w * t % 97, (w * r + c) % 97;
    assert w * t == 97 * j + t' && w * r + c == 97 * l + r';
    TimesSplit(x, w, t, r, c, j, t');
    SameRemainder(w * (x * t + r) + c, x * t' + r', x * j + l);
  }

  lemma TimesSplit(x: int, w: int, t: int, r: int, c: int, j: int, t': int)
    requires w * t == 97 * j + t'
    ensures w * (x * t + r) + c == x * t' + 97 * (x * j) + (w * r + c)
  {
    assert w * (x * t) == x * (w * t);
    assert x * (97 * j + t') == 97 * (x * j) + x * t';
    assert w * (x * t + r) == w * (x * t) + w * r;
  }

  /** The first character counts with the power of 10 that the rest of the number shifts it by. */
  lemma {:induction false} LeadingCharacter(x: char, s: string)
    requires IsIbanChar(x) && AllIbanChars(s)
    ensures AllIbanChars([x] + s)
    ensures Remainder([x] + s) == (CharNumber(x) * TenPower(Shift(s)) + Remainder(s)) % 97
  {
    hide Remainder, TenPower;
    if s == "" {
      EmptyRemainder();
      assert [x] + s == "" + [x];
      RemainderAppend("", x);
    } else {
      var front, c := s[..|s| - 1], s[|s| - 1];
      LeadingCharacter(x, front);
      assert [x] + s == ([x] + front) + [c] && s == front + [c];
      RemainderAppend([x] + front, c);
      RemainderAppend(front, c);
      WeighPower(Shift(front), c);
      LeadStep(CharNumber(x), Weight(c), TenPower(Shift(front)), Remainder(front), CharNumber(c));
    }
  }

  lemma EmptyRemainder()
    ensures Remainder("") == 0 && TenPower(Shift("")) == 1
  {
  }

  // ----- The swap -------------------------------------------------------------------------------------

  /** Exchanging two numbers at both ends of a number changes its remainder unless the power between them is 1. */
  lemma EndsSwap(w: nat, t: nat, r: nat, a: nat, b: nat)
    requires w == 10 || w == 100
    requires a < 97 && b < 97 && a != b && w * t % 97 != 1
    ensures (w * ((b * t + r) % 97) + a) % 97 != (w * ((a * t + r) % 97) + b) % 97
  {
    ReduceEarly(b * t + r, w, a);
    ReduceEarly(a * t + r, w, b);
    var x, y := w * (b * t + r) + a, w * (a * t + r) + b;
    if x % 97 == y % 97 {
      var k := CongruentDifference(x, y);
      DifferenceFactors(w, t, r, a, b);
      var j: int;
      if a < b {
        j := Euclid(b - a, w * t - 1, k);
      } else {
        NegateProduct(a - b, w * t - 1, k);
        j := Euclid(a - b, w * t - 1, -k);
      }
      SameRemainder(w * t, 1, j);
    }
  }

  lemma DifferenceFactors(w: int, t: int, r: int, a: int, b: int)
    ensures w * (b * t + r) + a - (w * (a * t + r) + b) == (b - a) * (w * t - 1)
  {
    assert w * (b * t + r) == w * (b * t) + w * r && w * (a * t + r) == w * (a * t) + w * r;
    assert w * (b * t) == b * (w * t) && w * (a * t) == a * (w * t);
  }

  lemma NegateProduct(d: int, y: int, k: int)
    requires -d * y == 97 * k
    ensures d * y == 97 * -k
  {
  }

  /** The characters that stand between the two ends of the rotated number. */
  function Middle(iban: string): string
    requires |iban| >= 5
  {
    iban[5..] + iban[..3]
  }

  lemma RotatedEnds(iban: string, damaged: string)
    requires |iban| >= 5 && AllIbanChars(iban) && Swapped(iban, damaged, 3)
    ensures AllIbanChars(Middle(iban)) && AllIbanChars(damaged) && |damaged| == |iban|
    ensures var a, b, mid := iban[3], iban[4], Middle(iban);
      && AllIbanChars([b] + mid + [a]) && AllIbanChars([a] + mid + [b])
      && Rotate(iban) == [b] + mid + [a] && Rotate(damaged) == [a] + mid + [b]
  {
  }

  /** The remainder in terms of both ends. */
  lemma EndsRemainder(x: char, mid: string, y: char)
    requires IsIbanChar(x) && IsIbanChar(y) && AllIbanChars(mid)
    ensures AllIbanChars([x] + mid + [y])
    ensures Remainder([x] + mid + [y])
         == Ends(CharNumber(x), TenPower(Shift(mid)), Remainder(mid), Weight(y), CharNumber(y))
  {
    hide Remainder, TenPower, Shift, CharNumber, Weight;
    LeadingCharacter(x, mid);
    RemainderAppend([x] + mid, y);
    WeightIs(y);
    ReduceEarly(CharNumber(x) * TenPower(Shift(mid)) + Remainder(mid), Weight(y), CharNumber(y));
  }

  lemma WeightIs(c: char)
    ensures Weight(c) == 10 || Weight(c) == 100
  {
  }

  /** A swap of two different characters of the same class across the split is always caught. */
  lemma IbanDetectsSwapAcrossSplit(iban: string, damaged: string)
    requires IbanRule(iban) && Swapped(iban, damaged, 3) && SameClass(iban[3], iban[4])
    ensures !IbanRule(damaged)
  {
    hide Remainder, TenPower, Shift;
    var a, b, mid := iban[3], iban[4], Middle(iban);
    RotatedEnds(iban, damaged);
    LeadingCharacter(a, mid);
    LeadingCharacter(b, mid);
    RemainderAppend([b] + mid, a);
    RemainderAppend([a] + mid, b);
    WeighPower(Shift(mid), a);
    TenPowerNeverOne(Shift(mid) + if IsDigit(a) then 1 else 2);
    EndsSwap(Weight(a), TenPower(Shift(mid)), Remainder(mid), CharNumber(a), CharNumber(b));
  }

  // ----- A digit with a letter --------------------------------------------------------------------------

  lemma Multiple(x: int, y: int, k: int)
    requires x == y + 97 * k
    ensures x % 97 == 0 <==> y % 97 == 0
  {
    SameRemainder(x, y, k);
  }

  predicate DigitLetterMissed(u: int, digit: int, letter: int) {
    (u * (digit - letter) - (10 * digit - letter - 9)) % 97 == 0
  }

  predicate LetterDigitMissed(u: int, letter: int, digit: int) {
    (u * (letter - digit) - (9 + letter - 10 * digit)) % 97 == 0
  }

  /** The remainder of a number with `x` and `y` at its ends. */
  function Ends(x: int, t: int, r: int, w: int, y: int): int {
    (w * (x * t + r) + y) % 97
  }

  /** `t` is the power of 10 that the middle shifts by, `u` the power two places higher. */
  lemma DigitThenLetter(t: int, u: int, r: int, a: int, b: int)
    requires u == 100 * t % 97 && Ends(b, t, r, 10, a) == 1
    ensures Ends(a, t, r, 100, b) == 1 <==> DigitLetterMissed(u, a, b)
  {
    var x, y := 10 * (b * t + r) + a, 100 * (a * t + r) + b;
    var z := 100 * t * (a - b) - (10 * a - b - 9);
    var k, j := x / 97, 100 * t / 97;
    assert 100 * t == 97 * j + u;
    Products(t, u, j, a, b);
    Multiple(z, u * (a - b) - (10 * a - b - 9), j * (a - b));
    assert y - 1 == z + 97 * (10 * k);
    Multiple(y - 1, z, 10 * k);
    OneMore(y);
  }

  lemma LetterThenDigit(t: int, u: int, r: int, a: int, b: int)
    requires u == 100 * t % 97 && Ends(b, t, r, 100, a) == 1
    ensures Ends(a, t, r, 10, b) == 1 <==> LetterDigitMissed(u, a, b)
  {
    var x, y := 100 * (b * t + r) + a, 10 * (a * t + r) + b;
    var z := 100 * t * (a - b) - (9 + a - 10 * b);
    var k, j := x / 97, 100 * t / 97;
    assert 100 * t == 97 * j + u;
    Products(t, u, j, a, b);
    Multiple(z, u * (a - b) - (9 + a - 10 * b), j * (a - b));
    assert 10 * (y - 1) == z + 97 * k;
    Multiple(10 * (y - 1), z, k);
    TimesTen(y - 1);
    OneMore(y);
  }

  lemma Products(t: int, u: int, j: int, a: int, b: int)
    requires 100 * t == 97 * j + u
    ensures 100 * t * (a - b) == u * (a - b) + 97 * (j * (a - b))
    ensures 100 * (a * t) - 100 * (b * t) == 100 * t * (a - b)
  {
    assert (97 * j + u) * (a - b) == 97 * (j * (a - b)) + u * (a - b);
    assert t * (a - b) == a * t - b * t;
    assert 100 * t * (a - b) == 100 * (t * (a - b));
  }

  lemma OneMore(y: int)
    ensures y % 97 == 1 <==> (y - 1) % 97 == 0
  {
  }

  lemma TimesTen(x: int)
    ensures 10 * x % 97 == 0 <==> x % 97 == 0
  {
    if 10 * x % 97 == 0 {
      var j := Euclid(10, x, 10 * x / 97);
      SameRemainder(x, 0, j);
    }
    if x % 97 == 0 {
      SameRemainder(10 * x, 0, 10 * (x / 97));
    }
  }

  /** The pairs of digit and letter on the two sides of the split whose swap goes unnoticed, given the characters between. */
  ghost predicate SplitBlind(iban: string)
    requires |iban| >= 5 && AllIbanChars(iban)
  {
    var a, b := CharNumber(iban[3]), CharNumber(iban[4]);
    var u := TenPower(Shift(Middle(iban)) + 2);
    if IsDigit(iban[3]) && IsUpper(iban[4]) then DigitLetterMissed(u, a, b)
    else if IsUpper(iban[3]) && IsDigit(iban[4]) then LetterDigitMissed(u, a, b)
    else false
  }

  /** Exact: which swaps across the split go unnoticed. */
  lemma IbanSwapAcrossSplit(iban: string, damaged: string)
    requires IbanRule(iban) && Swapped(iban, damaged, 3)
    ensures IbanRule(damaged) <==> SplitBlind(iban)
  {
    var a, b, mid := iban[3], iban[4], Middle(iban);
    RotatedEnds(iban, damaged);
    if SameClass(a, b) {
      IbanDetectsSwapAcrossSplit(iban, damaged);
    } else {
      hide Remainder, Shift, CharNumber, Ends, DigitLetterMissed, LetterDigitMissed;
      var t := TenPower(Shift(mid));
      EndsRemainder(b, mid, a);
      EndsRemainder(a, mid, b);
      TwoHigher(Shift(mid));
      hide TenPower;
      if IsDigit(a) {
        DigitThenLetter(t, TenPower(Shift(mid) + 2), Remainder(mid), CharNumber(a), CharNumber(b));
      } else {
        LetterThenDigit(t, TenPower(Shift(mid) + 2), Remainder(mid), CharNumber(a), CharNumber(b));
      }
    }
  }

  lemma TwoHigher(n: nat)
    ensures TenPower(n + 2) == 100 * TenPower(n) % 97
  {
    assert TenPower(n + 2) == 10 * TenPower(n + 1) % 97;
    ReduceEarly(10 * TenPower(n), 10, 0);
  }

  // ----- One that does ------------------------------------------------------------------------------------

  function Push(r: nat, c: char): nat
    requires IsIbanChar(c)
  {
    (Weight(c) * r + CharNumber(c)) % 97
  }

  function PushAll(r: nat, s: string): nat
    requires AllIbanChars(s)
    decreases |s|
  {
    if s == "" then r else PushAll(Push(r, s[0]), s[1..])
  }

  lemma {:induction false} RemainderByPushing(p: string, s: string)
    requires AllIbanChars(p) && AllIbanChars(s)
    ensures AllIbanChars(p + s) && Remainder(p + s) == PushAll(Remainder(p), s)
    decreases |s|
  {
    hide Remainder;
    if s == "" {
      assert p + s == p;
    } else {
      RemainderAppend(p, s[0]);
      assert p + s == (p + [s[0]]) + s[1..];
      RemainderByPushing(p + [s[0]], s[1..]);
    }
  }

  /** The remainders along the way determine the last one. */
  lemma {:induction false} PushTrace(s: string, rs: seq<nat>, i: nat)
    requires AllIbanChars(s) && |rs| == |s| + 1 && i <= |s|
    requires forall k :: 0 <= k < |s| ==> Push(rs[k], s[k]) == rs[k + 1]
    ensures PushAll(rs[i], s[i..]) == rs[|s|]
    decreases |s| - i
  {
    hide Push;
    if i < |s| {
      PushTrace(s, rs, i + 1);
      assert s[i..][1..] == s[i + 1..];
    }
  }

  lemma RemainderIs(s: string, rs: seq<nat>)
    requires AllIbanChars(s) && |rs| == |s| + 1 && rs[0] == 0
    requires forall k :: 0 <= k < |s| ==> Push(rs[k], s[k]) == rs[k + 1]
    ensures Remainder(s) == rs[|s|]
  {
    hide Remainder, Push, PushAll;
    EmptyRemainder();
    RemainderByPushing("", s);
    PushTrace(s, rs, 0);
    assert s[0..] == s && "" + s == s;
  }

  lemma ValidRemainder()
    ensures AllIbanChars("D0000000008GB63") && Remainder("D0000000008GB63") == 1
  {
    RemainderIs("D0000000008GB63", [0, 13, 33, 39, 2, 20, 6, 60, 18, 83, 54, 63, 11, 44, 58, 1]);
  }

  lemma SwappedRemainder()
    ensures AllIbanChars("30000000008GB6D") && Remainder("30000000008GB6D") == 1
  {
    RemainderIs("30000000008GB6D", [0, 3, 30, 9, 90, 27, 76, 81, 34, 49, 5, 58, 93, 96, 93, 1]);
  }

  /** A valid number that stays valid when the last check digit and the first letter of the account change places. */
  lemma MissedSwap()
    ensures IbanRule("GB63D0000000008") && IbanRule("GB6D30000000008")
    ensures Swapped("GB63D0000000008", "GB6D30000000008", 3)
  {
    hide Remainder;
    ValidRemainder();
    SwappedRemainder();
    assert Rotate("GB63D0000000008") == "D0000000008GB63";
    assert Rotate("GB6D30000000008") == "30000000008GB6D";
  }
}
