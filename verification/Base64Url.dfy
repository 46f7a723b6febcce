/** Unpadded base64url (section 5 of RFC 4648): Java's encoder, and its decoder with optional padding. */
module Base64Url {
  import opened Prelude

  predicate IsSymbol(c: char) {
    'A' <= c <= 'Z' || 'a' <= c <= 'z' || '0' <= c <= '9' || c == '-' || c == '_'
  }

  function SymbolValue(c: char): (v: nat)
    requires IsSymbol(c)
    ensures v < 64
  {
    if 'A' <= c <= 'Z' then c as int - 'A' as int
    else if 'a' <= c <= 'z' then c as int - 'a' as int + 26
    else if '0' <= c <= '9' then c as int - '0' as int + 52
    else if c == '-' then 62
    else 63
  }

  function Symbol(v: nat): (c: char)
    requires v < 64
    ensures IsSymbol(c) && SymbolValue(c) == v
  {
    if v < 26 then (v + 'A' as int) as char
    else if v < 52 then (v - 26 + 'a' as int) as char
    else if v < 62 then (v - 52 + '0' as int) as char
    else if v == 62 then '-'
    else '_'
  }

  /** Table 2 of RFC 4648: the 64 symbols in the order of their values. */
  lemma SymbolIsInAlphabet(v: nat)
    requires v < 64
    ensures v < 26 ==> Symbol(v) == "ABCDEFGHIJKLMNOPQRSTUVWXYZ"[v]
    ensures 26 <= v < 52 ==> Symbol(v) == "abcdefghijklmnopqrstuvwxyz"[v - 26]
    ensures 52 <= v ==> Symbol(v) == "0123456789-_"[v - 52]
  {
    var upper, lower, digits := "ABCDEFGHIJKLMNOPQRSTUVWXYZ", "abcdefghijklmnopqrstuvwxyz", "0123456789-_";
    assert forall i :: 0 <= i < 26 ==> upper[i] as int == i + 65;
    assert forall i :: 0 <= i < 26 ==> lower[i] as int == i + 97;
    assert forall i :: 0 <= i < 10 ==> digits[i] as int == i + 48;
  }

  // The four sextets of three bytes, and back.

  function Sextets(a: byte, b: byte, c: byte): (s: string)
    ensures |s| == 4 && forall i :: 0 <= i < 4 ==> IsSymbol(s[i])
  {
    var x, y, z := a as int, b as int, c as int;
    [Symbol(x / 4), Symbol(x % 4 * 16 + y / 16), Symbol(y % 16 * 4 + z / 64), Symbol(z % 64)]
  }

  /** Three bytes and their four symbols are the same number of 24 bits. */
  lemma SextetsValue(a: byte, b: byte, c: byte)
    ensures var s := Sextets(a, b, c);
      a as int * 65536 + b as int * 256 + c as int
      == SymbolValue(s[0]) * 262144 + SymbolValue(s[1]) * 4096 + SymbolValue(s[2]) * 64 + SymbolValue(s[3])
  {
    hide SymbolValue, Symbol, IsSymbol;
  }

  function First(p: char, q: char): byte
    requires IsSymbol(p) && IsSymbol(q)
  {
    (SymbolValue(p) * 4 + SymbolValue(q) / 16) as byte
  }

  function Second(q: char, r: char): byte
    requires IsSymbol(q) && IsSymbol(r)
  {
    (SymbolValue(q) % 16 * 16 + SymbolValue(r) / 4) as byte
  }

  function Third(r: char, s: char): byte
    requires IsSymbol(r) && IsSymbol(s)
  {
    (SymbolValue(r) % 4 * 64 + SymbolValue(s)) as byte
  }

  lemma SextetsRoundTrip(a: byte, b: byte, c: byte)
    ensures var s := Sextets(a, b, c); First(s[0], s[1]) == a && Second(s[1], s[2]) == b && Third(s[2], s[3]) == c
  {
    hide SymbolValue, Symbol, IsSymbol;
  }

  function Encode(bytes: seq<byte>): string {
    if bytes == [] then ""
    else if |bytes| == 1 then Sextets(bytes[0], 0, 0)[..2]
    else if |bytes| == 2 then Sextets(bytes[0], bytes[1], 0)[..3]
    else Sextets(bytes[0], bytes[1], bytes[2]) + Encode(bytes[3..])
  }

  predicate AllSymbols(s: string) {
    forall i :: 0 <= i < |s| ==> IsSymbol(s[i])
  }

  /** Whole groups of four, then two or three symbols with or without their padding. Unused low bits are ignored. */
  function Decode(s: string): Option<seq<byte>> {
    if s == "" then Some([])
    else if |s| >= 4 && AllSymbols(s[..4]) then
      (match Decode(s[4..])
       case Some(rest) => Some([First(s[0], s[1]), Second(s[1], s[2]), Third(s[2], s[3])] + rest)
       case None => None)
    else if (|s| == 3 || (|s| == 4 && s[3] == '=')) && AllSymbols(s[..3]) then
      Some([First(s[0], s[1]), Second(s[1], s[2])])
    else if (|s| == 2 || (|s| == 4 && s[2..] == "==")) && AllSymbols(s[..2]) then
      Some([First(s[0], s[1])])
    else None
  }

  lemma DecodeGroup(s: string, rest: string)
    requires |s| == 4 && AllSymbols(s) && Decode(rest).Some?
    ensures Decode(s + rest) == Some([First(s[0], s[1]), Second(s[1], s[2]), Third(s[2], s[3])] + Decode(rest).value)
  {
    hide First, Second, Third, IsSymbol;
    assert (s + rest)[..4] == s && (s + rest)[4..] == rest;
  }

  lemma DecodeTail(s: string)
    requires 2 <= |s| <= 3 && AllSymbols(s)
    ensures Decode(s) == Some(if |s| == 3 then [First(s[0], s[1]), Second(s[1], s[2])] else [First(s[0], s[1])])
  {
    hide First, Second, Third, IsSymbol;
    assert s[..|s|] == s;
  }

  /** Every byte string survives the trip, and its encoding uses the alphabet only. */
  lemma {:induction false} DecodeEncode(bytes: seq<byte>)
    ensures Decode(Encode(bytes)) == Some(bytes) && AllSymbols(Encode(bytes))
  {
    hide Decode, Sextets, First, Second, Third, IsSymbol;
    if bytes == [] {
      DecodeNothing();
    } else if |bytes| == 1 {
      SextetsRoundTrip(bytes[0], 0, 0);
      DecodeTail(Sextets(bytes[0], 0, 0)[..2]);
      assert bytes == [bytes[0]];
    } else if |bytes| == 2 {
      SextetsRoundTrip(bytes[0], bytes[1], 0);
      DecodeTail(Sextets(bytes[0], bytes[1], 0)[..3]);
      assert bytes == [bytes[0], bytes[1]];
    } else {
      var s := Sextets(bytes[0], bytes[1], bytes[2]);
      SextetsRoundTrip(bytes[0], bytes[1], bytes[2]);
      DecodeEncode(bytes[3..]);
      DecodeGroup(s, Encode(bytes[3..]));
      assert bytes == [bytes[0], bytes[1], bytes[2]] + bytes[3..];
    }
  }

  lemma DecodeNothing()
    ensures Decode("") == Some([])
  {
  }

  /** What the decoder takes: symbols, not one too many, and then nothing or exactly the padding that completes the group. */
  ghost predicate WellPadded(s: string, core: string, padding: string) {
    && s == core + padding && AllSymbols(core)
    && match |core| % 4
       case 0 => padding == ""
       case 2 => padding == "" || padding == "=="
       case 3 => padding == "" || padding == "="
       case _ => false
  }

  lemma {:induction false} DecodableWhenWellPadded(s: string, core: string, padding: string)
    requires WellPadded(s, core, padding)
    ensures Decode(s).Some? && |Decode(s).value| == |core| * 3 / 4
    decreases |core|
  {
    if |core| >= 4 {
      hide Decode, IsSymbol;
      assert s[..4] == core[..4] && s[4..] == core[4..] + padding && s == s[..4] + s[4..];
      assert |core| % 4 == |core[4..]| % 4;
      DecodableWhenWellPadded(s[4..], core[4..], padding);
      DecodeGroup(s[..4], s[4..]);
    } else {
      LastGroupDecodable(s, core, padding);
    }
  }

  lemma LastGroupDecodable(s: string, core: string, padding: string)
    requires WellPadded(s, core, padding) && |core| < 4
    ensures Decode(s).Some? && |Decode(s).value| == |core| * 3 / 4
  {
    hide First, Second, Third, IsSymbol;
    assert s[..|core|] == core && s[|core|..] == padding;
    if |s| == 4 {
      assert s[3] == padding[|padding| - 1] && s[..4][3] == '=';
      EqualsIsNoSymbol();
    }
  }

  lemma EqualsIsNoSymbol()
    ensures !IsSymbol('=')
  {
  }

  lemma {:induction false} WellPaddedWhenDecodable(s: string) returns (core: string, padding: string)
    requires Decode(s).Some?
    ensures WellPadded(s, core, padding)
    decreases |s|
  {
    hide IsSymbol, First, Second, Third;
    if |s| >= 4 && AllSymbols(s[..4]) {
      assert Decode(s[4..]).Some?;
      hide Decode, WellPadded, AllSymbols;
      core, padding := WellPaddedWhenDecodable(s[4..]);
      GroupInFront(s[..4], s[4..], core, padding);
      assert s == s[..4] + s[4..];
      core := s[..4] + core;
    } else {
      core, padding := LastGroupPadded(s);
    }
  }

  lemma GroupInFront(group: string, s: string, core: string, padding: string)
    requires |group| == 4 && AllSymbols(group) && WellPadded(s, core, padding)
    ensures WellPadded(group + s, group + core, padding)
  {
    hide IsSymbol;
    assert group + s == group + core + padding;
  }

  lemma LastGroupPadded(s: string) returns (core: string, padding: string)
    requires Decode(s).Some? && !(|s| >= 4 && AllSymbols(s[..4]))
    ensures WellPadded(s, core, padding)
  {
    hide IsSymbol, First, Second, Third;
    if s == "" {
      core, padding := "", "";
    } else if (|s| == 3 || (|s| == 4 && s[3] == '=')) && AllSymbols(s[..3]) {
      core, padding := s[..3], s[3..];
    } else {
      core, padding := s[..2], s[2..];
    }
  }

  /** Exactly which texts the decoder takes, and how many bytes they give. */
  lemma DecodableIff(s: string)
    ensures Decode(s).Some? <==> exists core, padding :: WellPadded(s, core, padding)
  {
    hide Decode, WellPadded;
    if Decode(s).Some? {
      var core, padding := WellPaddedWhenDecodable(s);
    }
    if exists core, padding :: WellPadded(s, core, padding) {
      var core, padding :| WellPadded(s, core, padding);
      DecodableWhenWellPadded(s, core, padding);
    }
  }
}
