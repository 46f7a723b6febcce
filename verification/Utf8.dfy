/** UTF-8 over Unicode scalar values: the bytes of a text, and reading bytes back with malformed input replaced. */
module Utf8 {
  import opened Prelude

  const REPLACEMENT: char := '\U{FFFD}'

  predicate IsCont(b: byte) {
    0x80 <= b < 0xC0
  }

  function Low(b: byte): nat
    requires IsCont(b)
  {
    b as int - 0x80
  }

  function Cont(v: nat): (b: byte)
    requires v < 64
    ensures IsCont(b) && Low(b) == v
  {
    (0x80 + v) as byte
  }

  function EncodeChar(c: char): (bytes: seq<byte>)
    ensures 1 <= |bytes| <= 4
  {
    var v := c as int;
    if v < 0x80 then [v as byte]
    else if v < 0x800 then [(0xC0 + v / 64) as byte, Cont(v % 64)]
    else if v < 0x10000 then [(0xE0 + v / 4096) as byte, Cont(v / 64 % 64), Cont(v % 64)]
    else [(0xF0 + v / 262144) as byte, Cont(v / 4096 % 64), Cont(v / 64 % 64), Cont(v % 64)]
  }

  /** The bytes of a character by length class: the number behind the leading bits, most significant part first. */
  lemma EncodedValue(c: char)
    ensures var b, v := EncodeChar(c), c as int;
      if v < 0x80 then |b| == 1 && b[0] as int == v
      else if v < 0x800 then
        |b| == 2 && 0xC2 <= b[0] < 0xE0 && (b[0] as int - 0xC0) * 64 + (b[1] as int - 0x80) == v
      else if v < 0x10000 then
        |b| == 3 && 0xE0 <= b[0] < 0xF0 && (b[0] as int - 0xE0) * 4096 + (b[1] as int - 0x80) * 64 + (b[2] as int - 0x80) == v
      else
        |b| == 4 && 0xF0 <= b[0] < 0xF5
        && (b[0] as int - 0xF0) * 262144 + (b[1] as int - 0x80) * 4096 + (b[2] as int - 0x80) * 64 + (b[3] as int - 0x80) == v
  {
    var v := c as int;
    if v < 0x80 {
    } else if v < 0x800 {
      Digits2(v);
    } else if v < 0x10000 {
      Digits3(v);
    } else {
      Digits4(v);
    }
  }

  function Encode(s: string): (bytes: seq<byte>)
    ensures |s| <= |bytes|
  {
    if s == "" then [] else EncodeChar(s[0]) + Encode(s[1..])
  }

  predicate IsScalar(v: int) {
    0 <= v < 0xD800 || 0xE000 <= v < 0x110000
  }

  /** The character at the front of `b` and its length, if `b` starts with a well-formed one. */
  function DecodeChar(b: seq<byte>): (r: Option<(char, nat)>)
    requires b != []
    ensures r.Some? ==> 1 <= r.value.1 <= |b|
  {
    var b0 := b[0] as int;
    if b0 < 0x80 then Some((b0 as char, 1))
    else if 0xC2 <= b0 < 0xE0 && |b| >= 2 && IsCont(b[1]) then
      Some((((b0 - 0xC0) * 64 + Low(b[1])) as char, 2))
    else if 0xE0 <= b0 < 0xF0 && |b| >= 3 && IsCont(b[1]) && IsCont(b[2]) then
      var v := (b0 - 0xE0) * 4096 + Low(b[1]) * 64 + Low(b[2]);
      if v >= 0x800 && IsScalar(v) then Some((v as char, 3)) else None
    else if 0xF0 <= b0 < 0xF5 && |b| >= 4 && IsCont(b[1]) && IsCont(b[2]) && IsCont(b[3]) then
      var v := (b0 - 0xF0) * 262144 + Low(b[1]) * 4096 + Low(b[2]) * 64 + Low(b[3]);
      if v >= 0x10000 && IsScalar(v) then Some((v as char, 4)) else None
    else None
  }

  function Decode(b: seq<byte>): string
    decreases |b|
  {
    if b == [] then ""
    else
      match DecodeChar(b)
      case Some((c, n)) => [c] + Decode(b[n..])
      case None => [REPLACEMENT] + Decode(b[1..])
  }

  lemma Digits2(v: nat)
    ensures v == v / 64 * 64 + v % 64
  {
  }

  lemma Digits3(v: nat)
    ensures v == v / 4096 * 4096 + v / 64 % 64 * 64 + v % 64
  {
    assert v / 4096 == v / 64 / 64;
    Digits2(v);
    Digits2(v / 64);
  }

  lemma Digits4(v: nat)
    ensures v == v / 262144 * 262144 + v / 4096 % 64 * 4096 + v / 64 % 64 * 64 + v % 64
  {
    assert v / 262144 == v / 4096 / 64;
    Digits3(v);
    Digits2(v / 4096);
  }

  /** A character's bytes, followed by anything, read back as that character. */
  lemma DecodeEncodedChar(c: char, rest: seq<byte>)
    ensures DecodeChar(EncodeChar(c) + rest) == Some((c, |EncodeChar(c)|))
  {
    var v := c as int;
    if v < 0x80 {
    } else if v < 0x800 {
      Digits2(v);
    } else if v < 0x10000 {
      Digits3(v);
    } else {
      Digits4(v);
    }
  }

  lemma DecodeStep(b: seq<byte>, c: char, n: nat)
    requires b != [] && DecodeChar(b) == Some((c, n))
    ensures n <= |b| && Decode(b) == [c] + Decode(b[n..])
  {
    hide DecodeChar;
  }

  lemma ConsAppend(s: string, t: string)
    requires s != ""
    ensures [s[0]] + (s[1..] + t) == s + t
  {
  }

  lemma {:induction false} DecodeEncodePrefix(s: string, rest: seq<byte>)
    ensures Decode(Encode(s) + rest) == s + Decode(rest)
  {
    hide DecodeChar, EncodeChar, Decode;
    if s == "" {
      assert Encode(s) + rest == rest;
    } else {
      var head, tail := EncodeChar(s[0]), Encode(s[1..]) + rest;
      assert Encode(s) + rest == head + tail;
      DecodeEncodedChar(s[0], tail);
      DecodeStep(head + tail, s[0], |head|);
      assert (head + tail)[|head|..] == tail;
      DecodeEncodePrefix(s[1..], rest);
      ConsAppend(s, Decode(rest));
    }
  }

  /** Every text survives the trip through its bytes. */
  lemma DecodeEncode(s: string)
    ensures Decode(Encode(s)) == s
  {
    DecodeEncodePrefix(s, []);
    assert Encode(s) + [] == Encode(s);
  }
}
