/** The scanner undoes the printer: which issued tokens validate, with which claims, and until when. */
module JwtRoundTrip {
  import opened Prelude
  import opened Jwt
  import Base64Url
  import Decimal
  import Utf8

  predicate Free(s: string, c: char) {
    forall i :: 0 <= i < |s| ==> s[i] != c
  }

  // ----- First-match search over concatenations ------------------------------------------------------

  function Index(s: string, needle: string): int {
    IndexFrom(s, needle, 0)
  }

  lemma MatchShift(a: string, b: string, needle: string, i: nat)
    ensures MatchAt(a + b, needle, |a| + i) <==> MatchAt(b, needle, i)
  {
    if |a| + i + |needle| <= |a + b| {
      assert (a + b)[|a| + i..|a| + i + |needle|] == b[i..i + |needle|];
    }
  }

  lemma IndexIsFirst(s: string, needle: string, k: nat)
    requires MatchAt(s, needle, k) && forall i :: 0 <= i < k ==> !MatchAt(s, needle, i)
    ensures Index(s, needle) == k
  {
  }

  /** A piece in which no match starts only shifts the first match. */
  lemma SkipPiece(a: string, b: string, needle: string)
    requires forall i :: 0 <= i < |a| ==> !MatchAt(a + b, needle, i)
    requires Index(b, needle) >= 0
    ensures Index(a + b, needle) == |a| + Index(b, needle)
  {
    hide MatchAt;
    var k := Index(b, needle);
    MatchShift(a, b, needle, k);
    forall i | 0 <= i < |a| + k ensures !MatchAt(a + b, needle, i) {
      if |a| <= i {
        MatchShift(a, b, needle, i - |a|);
      }
    }
    IndexIsFirst(a + b, needle, |a| + k);
  }

  /** One character that differs rules a match out. */
  lemma NoMatch(s: string, needle: string, i: nat, j: nat)
    requires j < |needle| && (i + j < |s| ==> s[i + j] != needle[j])
    ensures !MatchAt(s, needle, i)
  {
    if i + |needle| <= |s| {
      assert s[i..i + |needle|][j] == s[i + j];
    }
  }

  lemma SkipPlain(a: string, b: string, needle: string)
    requires Free(a, '"') && needle != "" && needle[0] == '"' && Index(b, needle) >= 0
    ensures Index(a + b, needle) == |a| + Index(b, needle)
  {
    forall i | 0 <= i < |a| ensures !MatchAt(a + b, needle, i) {
      NoMatch(a + b, needle, i, 0);
    }
    SkipPiece(a, b, needle);
  }

  /** The needle looks for a quoted name and its colon. */
  ghost predicate NameNeedle(needle: string, name: string) {
    && name != "" && Free(name, '"') && name[0] != ':' && name[0] != ','
    && |needle| >= |name| + 3 && needle[0] == '"' && needle[|name| + 1] == '"' && needle[|name| + 2] == ':'
    && forall j :: 0 <= j < |name| ==> needle[j + 1] == name[j]
  }

  ghost predicate OtherThan(x: string, b: string, name: string) {
    Free(x, '"') && b != "" && (b[0] == ':' || b[0] == ',') && (b[0] == ':' ==> x != name)
  }

  lemma QuotedAt(x: string, b: string)
    ensures var s := Quoted(x) + b;
      && |s| == |x| + 2 + |b| && s[0] == '"' && s[|x| + 1] == '"'
      && (forall j :: 0 <= j < |x| ==> s[j + 1] == x[j])
      && (forall j :: 0 <= j < |b| ==> s[|x| + 2 + j] == b[j])
  {
  }

  lemma NoMatchAtOpening(x: string, b: string, name: string, needle: string)
    requires NameNeedle(needle, name) && OtherThan(x, b, name)
    ensures !MatchAt(Quoted(x) + b, needle, 0)
  {
    hide MatchAt, Quoted;
    QuotedAt(x, b);
    var s := Quoted(x) + b;
    if |x| < |name| {
      assert needle[|x| + 1] == name[|x|];
      NoMatch(s, needle, 0, |x| + 1);
    } else if |name| < |x| {
      assert s[|name| + 1] == x[|name|];
      NoMatch(s, needle, 0, |name| + 1);
    } else if x == name {
      assert s[|x| + 2 + 0] == b[0];
      NoMatch(s, needle, 0, |name| + 2);
    } else {
      var j :| 0 <= j < |x| && x[j] != name[j];
      NoMatch(s, needle, 0, j + 1);
    }
  }

  /** A quoted string is passed over unless it is the name looked for, with its colon. */
  lemma SkipQuoted(x: string, b: string, name: string, needle: string)
    requires NameNeedle(needle, name) && OtherThan(x, b, name)
    requires Index(b, needle) >= 0
    ensures Index(Quoted(x) + b, needle) == |x| + 2 + Index(b, needle)
  {
    hide MatchAt, Quoted;
    QuotedAt(x, b);
    QuotedAt(x, "");
    var s := Quoted(x) + b;
    assert Quoted(x) + "" == Quoted(x);
    forall i | 0 <= i < |Quoted(x)| ensures !MatchAt(s, needle, i) {
      if i == 0 {
        NoMatchAtOpening(x, b, name, needle);
      } else if i <= |x| {
        assert s[(i - 1) + 1] == x[i - 1];
        NoMatch(s, needle, i, 0);
      } else {
        assert s[|x| + 2 + 0] == b[0];
        assert needle[0 + 1] == name[0];
        NoMatch(s, needle, i, 1);
      }
    }
    SkipPiece(Quoted(x), b, needle);
  }

  lemma FoundHere(name: string, b: string, needle: string)
    requires needle <= Quoted(name) + b
    ensures Index(Quoted(name) + b, needle) == 0
  {
    assert MatchAt(Quoted(name) + b, needle, 0);
  }

  // ----- Reading a value ------------------------------------------------------------------------------

  lemma Piece(a: string, v: string, b: string)
    ensures var s := a + v + b;
      && |s| == |a| + |v| + |b| && s[|a|..|a| + |v|] == v
      && (forall i :: 0 <= i < |v| ==> s[|a| + i] == v[i])
      && (b != "" ==> s[|a| + |v|] == b[0])
  {
  }

  lemma Regroup(a: string, q: string, c: string, v: string, b: string)
    ensures a + (q + (c + (v + b))) == a + (q + c) + v + b
  {
  }

  lemma NextQuote(a: string, v: string, b: string)
    requires Free(v, '"') && b != "" && b[0] == '"'
    ensures IndexFrom(a + v + b, "\"", |a|) == |a| + |v|
  {
    var s := a + v + b;
    Piece(a, v, b);
    forall i | |a| <= i < |a| + |v| ensures !MatchAt(s, "\"", i) {
      assert s[|a| + (i - |a|)] == v[i - |a|];
      NoMatch(s, "\"", i, 0);
    }
    assert MatchAt(s, "\"", |a| + |v|);
  }

  lemma StringNeedle(field: string)
    ensures "\"" + field + "\":\"" == Quoted(field) + ":\""
  {
  }

  lemma QuotedTail(v: string, b: string)
    ensures ":" + (Quoted(v) + b) == ":\"" + (v + ("\"" + b))
  {
  }

  /** With the first match of the field at `|a|`, its value is what stands between the quotes. */
  lemma StringFieldIs(json: string, field: string, a: string, v: string, b: string)
    requires json == a + (Quoted(field) + (":" + (Quoted(v) + b)))
    requires Index(json, "\"" + field + "\":\"") == |a| && Free(v, '"')
    ensures StringField(json, field) == Some(v)
  {
    var front, rest := a + (Quoted(field) + ":\""), "\"" + b;
    StringNeedle(field);
    QuotedTail(v, b);
    Regroup(a, Quoted(field), ":\"", v, rest);
    hide Quoted;
    assert json == front + v + rest;
    Piece(front, v, rest);
    NextQuote(front, v, rest);
  }

  lemma DigitRunStops(s: string, end: nat)
    requires end < |s| && !Decimal.IsDigit(s[end])
    ensures DigitRun(s, end) == end
  {
  }

  function LongOf(digits: string): Option<int>
    requires Decimal.AllDigits(digits)
  {
    if digits == "" || Decimal.Value(digits) > LONG_MAX then None else Some(Decimal.Value(digits))
  }

  lemma LongFieldAt(json: string, field: string, start: nat, end: nat)
    requires Index(json, "\"" + field + "\":") + |field| + 3 == start <= end <= |json|
    requires DigitRun(json, start) == end
    ensures Decimal.AllDigits(json[start..end]) && LongField(json, field) == LongOf(json[start..end])
  {
    hide DigitRun, IndexFrom, Decimal.Value, Decimal.IsDigit;
  }

  lemma LongFieldIs(json: string, field: string, a: string, v: string, b: string)
    requires json == a + (Quoted(field) + (":" + (v + b))) && b != "" && !Decimal.IsDigit(b[0])
    requires Index(json, "\"" + field + "\":") == |a| && Decimal.AllDigits(v)
    ensures LongField(json, field) == LongOf(v)
  {
    hide Quoted, Decimal.AllDigits, Decimal.IsDigit, DigitRun, LongField, LongOf, Index;
    QuotedLength(field);
    var front := a + (Quoted(field) + ":");
    Regroup(a, Quoted(field), ":", v, b);
    assert json == front + v + b;
    Piece(front, v, b);
    var start, end := |front|, |front| + |v|;
    assert json[start..end] == v && json[end] == b[0];
    DigitRunSteps(json, start, end);
    DigitRunStops(json, end);
    LongFieldAt(json, field, start, end);
  }

  lemma QuotedLength(field: string)
    ensures |Quoted(field)| == |field| + 2
  {
  }

  // ----- The payload, from the back -------------------------------------------------------------------

  function ExpTail(now: int, jti: string): string {
    Quoted("exp") + (":" + (PrintLong(now + TOKEN_TTL_SECONDS) + ("," + (Quoted("jti") + (":" + Quoted(jti) + "}")))))
  }

  function IatTail(now: int, jti: string): string {
    Quoted("iat") + ((":" + PrintLong(now) + ",") + ExpTail(now, jti))
  }

  function RoleTail(role: AccessRole, now: int, jti: string): string {
    Quoted("role") + (":" + (Quoted(role.Name()) + ("," + IatTail(now, jti))))
  }

  function SubTail(keyHash: string, role: AccessRole, now: int, jti: string): string {
    Quoted("sub") + (":" + (Quoted(keyHash) + ("," + RoleTail(role, now, jti))))
  }

  lemma PayloadTails(keyHash: string, role: AccessRole, now: int, jti: string)
    ensures Payload(keyHash, role, now, jti) == "{" + SubTail(keyHash, role, now, jti)
  {
    hide Quoted, PrintLong;
  }

  /** `t` is what is left of `s` after `k` characters in which the needle was not found. */
  ghost predicate Reaches(s: string, t: string, needle: string, k: nat) {
    k <= |s| && s[k..] == t && Index(s, needle) == k + Index(t, needle)
  }

  lemma ReachesOn(s: string, t: string, u: string, needle: string, k: nat, l: nat)
    requires Reaches(s, t, needle, k) && Reaches(t, u, needle, l)
    ensures Reaches(s, u, needle, k + l)
  {
    hide Index;
  }

  lemma SkipTo(x: string, c: string, b: string, name: string, needle: string)
    requires NameNeedle(needle, name) && Index(b, needle) >= 0 && Free(c, '"') && c != "" && OtherThan(x, c, name)
    ensures Reaches(Quoted(x) + (c + b), b, needle, |x| + 2 + |c|)
  {
    hide Index, MatchAt;
    SkipPlain(c, b, needle);
    SkipQuoted(x, c + b, name, needle);
    QuotedAt(x, c + b);
    assert (Quoted(x) + (c + b))[|x| + 2 + |c|..] == b;
  }

  lemma PrintLongPlain(n: int)
    ensures Free(PrintLong(n), '"') && PrintLong(n) != ""
  {
    if n < 0 {
      DigitsPlain(Decimal.Print(-n));
    } else {
      DigitsPlain(Decimal.Print(n));
    }
  }

  lemma DigitsPlain(s: string)
    requires Decimal.AllDigits(s)
    ensures Free(s, '"')
  {
    assert forall i :: 0 <= i < |s| ==> Decimal.IsDigit(s[i]);
  }

  lemma RoleNamePlain(role: AccessRole)
    ensures Free(role.Name(), '"') && RoleOf(role.Name()) == Some(role)
  {
  }

  const SUB: string := "\"sub\":\""
  const ROLE: string := "\"role\":\""
  const EXP: string := "\"exp\":"

  lemma Needles()
    ensures NameNeedle(SUB, "sub") && NameNeedle(ROLE, "role") && NameNeedle(EXP, "exp")
    ensures "\"" + "sub" + "\":\"" == SUB && "\"" + "role" + "\":\"" == ROLE && "\"" + "exp" + "\":" == EXP
  {
  }

  /** The three names stand where their tails begin. */
  lemma NamesAtTails(keyHash: string, role: AccessRole, now: int, jti: string)
    ensures Index(SubTail(keyHash, role, now, jti), SUB) == 0
    ensures Index(RoleTail(role, now, jti), ROLE) == 0
    ensures Index(ExpTail(now, jti), EXP) == 0
  {
    hide PrintLong, MatchAt, IndexFrom;
    FoundHere("sub", ":" + (Quoted(keyHash) + ("," + RoleTail(role, now, jti))), SUB);
    FoundHere("role", ":" + (Quoted(role.Name()) + ("," + IatTail(now, jti))), ROLE);
    FoundHere("exp", ":" + (PrintLong(now + TOKEN_TTL_SECONDS) + ("," + (Quoted("jti") + (":" + Quoted(jti) + "}")))), EXP);
  }

  lemma ReachSub(keyHash: string, role: AccessRole, now: int, jti: string, needle: string, name: string)
    requires NameNeedle(needle, name) && Index(SubTail(keyHash, role, now, jti), needle) >= 0
    ensures Reaches(Payload(keyHash, role, now, jti), SubTail(keyHash, role, now, jti), needle, 1)
  {
    hide Index, SubTail, Payload;
    PayloadTails(keyHash, role, now, jti);
    SkipPlain("{", SubTail(keyHash, role, now, jti), needle);
  }

  lemma ReachRole(keyHash: string, role: AccessRole, now: int, jti: string, needle: string, name: string) returns (k: nat)
    requires NameNeedle(needle, name) && name != "sub" && Free(keyHash, '"')
    requires Index(RoleTail(role, now, jti), needle) >= 0
    ensures Reaches(Payload(keyHash, role, now, jti), RoleTail(role, now, jti), needle, k)
  {
    hide Index, RoleTail, Payload, Quoted;
    var tail := RoleTail(role, now, jti);
    SkipTo(keyHash, ",", tail, name, needle);
    var mid := Quoted(keyHash) + ("," + tail);
    SkipTo("sub", ":", mid, name, needle);
    var sub := SubTail(keyHash, role, now, jti);
    ReachSub(keyHash, role, now, jti, needle, name);
    ReachesOn(sub, mid, tail, needle, 6, |keyHash| + 3);
    ReachesOn(Payload(keyHash, role, now, jti), sub, tail, needle, 1, |keyHash| + 9);
    k := |keyHash| + 10;
  }

  lemma IatToExp(now: int, jti: string) returns (k: nat)
    ensures Reaches(IatTail(now, jti), ExpTail(now, jti), EXP, k)
    ensures Index(ExpTail(now, jti), EXP) == 0
  {
    hide Index, ExpTail, Quoted, PrintLong, NameNeedle;
    Needles();
    NamesAtTails("", ADMIN, now, jti);
    PrintLongPlain(now);
    var colon := ":" + PrintLong(now) + ",";
    SkipTo("iat", colon, ExpTail(now, jti), "exp", EXP);
    k := 5 + |colon|;
  }

  lemma RoleToExp(role: AccessRole, now: int, jti: string) returns (k: nat)
    ensures Reaches(RoleTail(role, now, jti), ExpTail(now, jti), EXP, k)
    ensures Index(ExpTail(now, jti), EXP) == 0
  {
    hide Index, ExpTail, IatTail, Quoted, NameNeedle;
    Needles();
    RoleNamePlain(role);
    var j := IatToExp(now, jti);
    var iat := IatTail(now, jti);
    SkipTo(role.Name(), ",", iat, "exp", EXP);
    var mid := Quoted(role.Name()) + ("," + iat);
    SkipTo("role", ":", mid, "exp", EXP);
    ReachesOn(RoleTail(role, now, jti), mid, iat, EXP, 7, |role.Name()| + 3);
    ReachesOn(RoleTail(role, now, jti), iat, ExpTail(now, jti), EXP, |role.Name()| + 10, j);
    k := |role.Name()| + 10 + j;
  }

  lemma ReachExp(keyHash: string, role: AccessRole, now: int, jti: string) returns (k: nat)
    requires Free(keyHash, '"')
    ensures Reaches(Payload(keyHash, role, now, jti), ExpTail(now, jti), EXP, k)
  {
    hide Index, ExpTail, RoleTail, Payload, NameNeedle;
    Needles();
    var j := RoleToExp(role, now, jti);
    var i := ReachRole(keyHash, role, now, jti, EXP, "exp");
    ReachesOn(Payload(keyHash, role, now, jti), RoleTail(role, now, jti), ExpTail(now, jti), EXP, i, j);
    k := i + j;
  }

  // ----- What the scanner finds -----------------------------------------------------------------------

  lemma TailOf(s: string, t: string, needle: string, k: nat)
    requires Reaches(s, t, needle, k) && Index(t, needle) == 0
    ensures s == s[..k] + t && |s[..k]| == k && Index(s, needle) == k
  {
    hide Index;
  }

  lemma RoleFound(keyHash: string, role: AccessRole, now: int, jti: string)
    requires Free(keyHash, '"')
    ensures StringField(Payload(keyHash, role, now, jti), "role") == Some(role.Name())
  {
    hide Index, Payload, StringField, Quoted, PrintLong, NameNeedle;
    var json := Payload(keyHash, role, now, jti);
    Needles();
    NamesAtTails(keyHash, role, now, jti);
    var k := ReachRole(keyHash, role, now, jti, ROLE, "role");
    TailOf(json, RoleTail(role, now, jti), ROLE, k);
    RoleNamePlain(role);
    StringFieldIs(json, "role", json[..k], role.Name(), "," + IatTail(now, jti));
  }

  /** The number after `exp` is read back, unless it has a sign: an expiry before 1970 is not readable. */
  lemma ExpFound(keyHash: string, role: AccessRole, now: int, jti: string)
    requires Free(keyHash, '"') && now + TOKEN_TTL_SECONDS <= LONG_MAX
    ensures LongField(Payload(keyHash, role, now, jti), "exp")
         == if now + TOKEN_TTL_SECONDS >= 0 then Some(now + TOKEN_TTL_SECONDS) else None
  {
    hide Index, Payload, LongField, Quoted, NameNeedle, Decimal.Value, Decimal.Print;
    var json, exp := Payload(keyHash, role, now, jti), now + TOKEN_TTL_SECONDS;
    Needles();
    NamesAtTails(keyHash, role, now, jti);
    var k := ReachExp(keyHash, role, now, jti);
    TailOf(json, ExpTail(now, jti), EXP, k);
    var rest := "," + (Quoted("jti") + (":" + Quoted(jti) + "}"));
    if exp >= 0 {
      LongFieldIs(json, "exp", json[..k], Decimal.Print(exp), rest);
    } else {
      var signed := PrintLong(exp) + rest;
      assert signed[0] == '-' && "" + signed == signed;
      LongFieldIs(json, "exp", json[..k], "", signed);
    }
  }

  /** The key hash is read up to its first quote. */
  lemma SubFound(keyHash: string, role: AccessRole, now: int, jti: string)
    ensures StringField(Payload(keyHash, role, now, jti), "sub") == Some(keyHash) <==> Free(keyHash, '"')
  {
    hide Index, Payload, Quoted, PrintLong, NameNeedle, MatchAt, RoleTail;
    var json, tail := Payload(keyHash, role, now, jti), SubTail(keyHash, role, now, jti);
    Needles();
    NamesAtTails(keyHash, role, now, jti);
    ReachSub(keyHash, role, now, jti, SUB, "sub");
    TailOf(json, tail, SUB, 1);
    if Free(keyHash, '"') {
      StringFieldIs(json, "sub", json[..1], keyHash, "," + RoleTail(role, now, jti));
    } else {
      QuoteFreeField(json, "sub");
    }
  }

  /** Whatever is read as a string has no quote in it. */
  lemma QuoteFreeField(json: string, field: string)
    ensures StringField(json, field).Some? ==> Free(StringField(json, field).value, '"')
  {
    var start := IndexFrom(json, "\"" + field + "\":\"", 0) + |field| + 4;
    var end := IndexFrom(json, "\"", start);
    if end != -1 {
      forall i | start <= i < end ensures json[i] != '"' {
        assert json[i..i + 1] == [json[i]];
        assert !MatchAt(json, "\"", i);
      }
    }
  }

  /**
   * What a string field is: the text from behind the first match of the name up to the next quote. When
   * there is no match the search goes on as from index -1.
   */
  lemma StringFieldIff(json: string, field: string, v: string)
    ensures var start := Index(json, "\"" + field + "\":\"") + |field| + 4;
      StringField(json, field) == Some(v)
      <==> start + |v| < |json| && json[start..start + |v|] == v && json[start + |v|] == '"' && Free(v, '"')
  {
    hide IndexFrom;
    var start := Index(json, "\"" + field + "\":\"") + |field| + 4;
    var needle := "\"" + field + "\":\"";
    assert |needle| == |field| + 4;
    QuoteFreeField(json, field);
    if StringField(json, field) == Some(v) {
      var end := IndexFrom(json, "\"", start);
      assert MatchAt(json, "\"", end) && json[end..end + 1][0] == json[end];
      assert v == json[start..end] && end == start + |v|;
    }
    if start + |v| < |json| && json[start..start + |v|] == v && json[start + |v|] == '"' && Free(v, '"') {
      var a, b := json[..start], json[start + |v|..];
      assert json == a + v + b;
      NextQuote(a, v, b);
    }
  }

  /** The digits from `start` to `end` are all there are. */
  ghost predicate LongestDigits(s: string, start: nat, end: nat) {
    start <= end <= |s| && Decimal.AllDigits(s[start..end]) && (end < |s| ==> !Decimal.IsDigit(s[end]))
  }

  lemma DigitRunIff(s: string, start: nat, end: nat)
    requires start <= |s|
    ensures LongestDigits(s, start, end) <==> end == DigitRun(s, start)
  {
    if LongestDigits(s, start, end) {
      DigitRunSteps(s, start, end);
    }
  }

  /** What a number field is: the digits behind the first match of the name, as many as there are, at least one, up to 2^63 - 1. */
  lemma LongFieldIff(json: string, field: string, v: int)
    ensures var start := Index(json, "\"" + field + "\":") + |field| + 3;
      LongField(json, field) == Some(v)
      <==> exists end: nat ::
             LongestDigits(json, start, end) && start < end && Decimal.Value(json[start..end]) == v <= 0x7FFF_FFFF_FFFF_FFFF
  {
    hide LongestDigits, DigitRun, Decimal.Value;
    var start := Index(json, "\"" + field + "\":") + |field| + 3;
    forall end: nat | start <= |json| ensures LongestDigits(json, start, end) <==> end == DigitRun(json, start) {
      DigitRunIff(json, start, end);
    }
    LongestIsWithin(json, start);
  }

  lemma LongestIsWithin(s: string, start: nat)
    ensures forall end: nat :: LongestDigits(s, start, end) ==> start <= end <= |s| && Decimal.AllDigits(s[start..end])
  {
  }

  /** Which payloads give which claims: not past the expiry, and the two strings as they must be. */
  lemma ReadClaimsIff(payload: string, now: int, keyHash: string, role: AccessRole)
    ensures ReadClaims(payload, now) == Some(JwtClaims(keyHash, role))
       <==> LongField(payload, "exp").Some? && now <= LongField(payload, "exp").value
            && StringField(payload, "sub") == Some(keyHash)
            && StringField(payload, "role") == Some(if role == ADMIN then "ADMIN" else "READ_ONLY")
  {
    hide LongField, StringField;
  }

  /** The payload is read back exactly when the key hash has no quote, the expiry has no sign, and it is not past it. */
  lemma ReadPrinted(keyHash: string, role: AccessRole, issued: int, jti: string, now: int)
    requires issued + 3600 <= 0x7FFF_FFFF_FFFF_FFFF
    ensures ReadClaims(Payload(keyHash, role, issued, jti), now) == Some(JwtClaims(keyHash, role))
       <==> Free(keyHash, '"') && 0 <= issued + 3600 && now <= issued + 3600
    ensures Free(keyHash, '"') && now > issued + 3600 ==> ReadClaims(Payload(keyHash, role, issued, jti), now) == None
  {
    hide Payload, StringField, LongField;
    SubFound(keyHash, role, issued, jti);
    if Free(keyHash, '"') {
      RoleFound(keyHash, role, issued, jti);
      RoleNamePlain(role);
      ExpFound(keyHash, role, issued, jti);
    }
  }

  // ----- The three parts ------------------------------------------------------------------------------

  lemma {:induction false} SplitWhole(s: string)
    requires Free(s, '.')
    ensures SplitAtDots(s) == [s]
  {
    if s != "" {
      SplitWhole(s[..|s| - 1]);
      assert s[..|s| - 1] + [s[|s| - 1]] == s;
    }
  }

  lemma {:induction false} SplitLast(s: string, t: string)
    requires Free(t, '.')
    ensures SplitAtDots(s + "." + t) == SplitAtDots(s) + [t]
  {
    var whole := s + "." + t;
    if t == "" {
      assert whole[..|whole| - 1] == s;
    } else {
      var front := t[..|t| - 1];
      SplitLast(s, front);
      assert whole[..|whole| - 1] == s + "." + front;
      assert front + [t[|t| - 1]] == t;
      assert (SplitAtDots(s) + [front])[..|SplitAtDots(s)|] == SplitAtDots(s);
    }
  }

  lemma SplitThree(a: string, b: string, c: string)
    requires Free(a, '.') && Free(b, '.') && Free(c, '.')
    ensures SplitAtDots(a + "." + b + "." + c) == [a, b, c]
  {
    hide SplitAtDots;
    SplitWhole(a);
    SplitLast(a, b);
    SplitLast(a + "." + b, c);
  }

  lemma EncodedIsDotFree(bytes: seq<byte>)
    ensures Free(Base64Url.Encode(bytes), '.')
  {
    hide Base64Url.Encode, Base64Url.Decode;
    Base64Url.DecodeEncode(bytes);
    assert forall i :: 0 <= i < |Base64Url.Encode(bytes)| ==> Base64Url.IsSymbol(Base64Url.Encode(bytes)[i]);
  }

  lemma NotBlank(a: string, b: string)
    ensures !Blank(a + "." + b)
  {
    assert (a + "." + b)[|a|] == '.';
  }

  /** An issued token splits into its three parts, its signature matches, and its payload comes back. */
  lemma IssuedIsRead(mac: Mac, keyHash: string, role: AccessRole, issued: int, jti: string, now: int)
    ensures Claims(mac, Some(Issue(mac, keyHash, role, issued, jti)), now)
         == ReadClaims(Payload(keyHash, role, issued, jti), now)
  {
    hide Payload, ReadClaims, Base64Url.Encode, Base64Url.Decode, Utf8.Encode, Utf8.Decode, SplitAtDots, Blank;
    var payload := Payload(keyHash, role, issued, jti);
    var header, body := Base64Text(HEADER), Base64Text(payload);
    var signing := header + "." + body;
    var sig := Signature(mac, signing);
    EncodedIsDotFree(Utf8.Encode(HEADER));
    EncodedIsDotFree(Utf8.Encode(payload));
    EncodedIsDotFree(mac(Utf8.Encode(signing)));
    SplitThree(header, body, sig);
    NotBlank(signing, sig);
    Base64Url.DecodeEncode(mac(Utf8.Encode(signing)));
    Base64Url.DecodeEncode(Utf8.Encode(payload));
    Utf8.DecodeEncode(payload);
  }

  /**
   * The round trip, exactly: a token issued at any instant validates with the claims it was issued for if
   * and only if the key hash has no quote, the expiry is not negative, and the clock is not past it.
   */
  lemma ValidateIssued(mac: Mac, keyHash: string, role: AccessRole, issued: int, jti: string, now: int)
    requires INSTANT_MIN <= issued <= INSTANT_MAX
    ensures Claims(mac, Some(Issue(mac, keyHash, role, issued, jti)), now) == Some(JwtClaims(keyHash, role))
       <==> Free(keyHash, '"') && 0 <= issued + 3600 && now <= issued + 3600
    ensures Free(keyHash, '"') && now > issued + 3600 ==>
              Claims(mac, Some(Issue(mac, keyHash, role, issued, jti)), now) == None
  {
    hide Claims, Issue, ReadClaims, Payload;
    IssuedIsRead(mac, keyHash, role, issued, jti, now);
    ReadPrinted(keyHash, role, issued, jti, now);
  }

  /** The token is these three parts, the third decodes to the keyed hash of the first two, and the second to this payload. */
  ghost predicate Signed(mac: Mac, token: string, header: string, body: string, sig: string, payload: string) {
    && token == header + "." + body + "." + sig && Free(header, '.') && Free(body, '.') && Free(sig, '.')
    && Base64Url.Decode(sig) == Some(mac(Utf8.Encode(header + "." + body)))
    && Base64Url.Decode(body).Some? && payload == Utf8.Decode(Base64Url.Decode(body).value)
  }

  /** Whatever validates is signed, and its claims are those of the signed payload. */
  lemma AcceptedIsSigned(mac: Mac, token: string, now: int)
    returns (header: string, body: string, sig: string, payload: string)
    requires Claims(mac, Some(token), now).Some?
    ensures Signed(mac, token, header, body, sig, payload)
    ensures Claims(mac, Some(token), now) == ReadClaims(payload, now)
  {
    hide ReadClaims, Base64Url.Decode, Utf8.Encode, Utf8.Decode, SplitAtDots, Blank;
    var parts := SplitAtDots(token);
    JoinSplit(token);
    PartsAreFree(token);
    assert [parts[0]] + [parts[1]] + [parts[2]] == parts;
    JoinThree(parts[0], parts[1], parts[2]);
    header, body, sig := parts[0], parts[1], parts[2];
    payload := Utf8.Decode(Base64Url.Decode(body).value);
  }

  /** And whatever is signed gives the claims of its payload. */
  lemma SignedIsAccepted(mac: Mac, token: string, header: string, body: string, sig: string, payload: string, now: int)
    requires Signed(mac, token, header, body, sig, payload)
    ensures Claims(mac, Some(token), now) == ReadClaims(payload, now)
  {
    hide ReadClaims, Base64Url.Decode, Utf8.Encode, Utf8.Decode, SplitAtDots, Blank, Free;
    SplitThree(header, body, sig);
    NotBlank(header + "." + body, sig);
  }

  /** Exactly which texts validate with which claims, at which time. */
  lemma ValidatesIff(mac: Mac, token: string, now: int, keyHash: string, role: AccessRole)
    ensures Claims(mac, Some(token), now) == Some(JwtClaims(keyHash, role))
       <==> exists header, body, sig, payload ::
              Signed(mac, token, header, body, sig, payload)
              && LongField(payload, "exp").Some? && now <= LongField(payload, "exp").value
              && StringField(payload, "sub") == Some(keyHash)
              && StringField(payload, "role") == Some(if role == ADMIN then "ADMIN" else "READ_ONLY")
  {
    hide Claims, Signed, ReadClaims, LongField, StringField;
    if Claims(mac, Some(token), now) == Some(JwtClaims(keyHash, role)) {
      var header, body, sig, payload := AcceptedIsSigned(mac, token, now);
      ReadClaimsIff(payload, now, keyHash, role);
    }
    forall header, body, sig, payload | Signed(mac, token, header, body, sig, payload)
      ensures Claims(mac, Some(token), now) == ReadClaims(payload, now)
    {
      SignedIsAccepted(mac, token, header, body, sig, payload, now);
    }
    forall payload ensures ReadClaims(payload, now) == Some(JwtClaims(keyHash, role))
                      <==> LongField(payload, "exp").Some? && now <= LongField(payload, "exp").value
                           && StringField(payload, "sub") == Some(keyHash)
                           && StringField(payload, "role") == Some(if role == ADMIN then "ADMIN" else "READ_ONLY")
    {
      ReadClaimsIff(payload, now, keyHash, role);
    }
  }

  lemma {:induction false} PartsAreFree(s: string)
    ensures forall p :: p in SplitAtDots(s) ==> Free(p, '.')
  {
    if s != "" {
      var parts := SplitAtDots(s[..|s| - 1]);
      PartsAreFree(s[..|s| - 1]);
      forall p | p in SplitAtDots(s) ensures Free(p, '.') {
        assert p in parts || p == "" || p == parts[|parts| - 1] + [s[|s| - 1]];
        assert parts[|parts| - 1] in parts;
      }
    }
  }

  // ----- What is issued ---------------------------------------------------------------------------------

  lemma StringPiece(name: string, v: string, rest: string)
    ensures Quoted(name) + (":" + (Quoted(v) + ("," + rest))) == (Quoted(name) + ":\"" + v + "\",") + rest
  {
  }

  lemma NumberPiece(name: string, v: string, rest: string)
    ensures Quoted(name) + ((":" + v + ",") + rest) == (Quoted(name) + ":" + v + ",") + rest
    ensures Quoted(name) + (":" + (v + ("," + rest))) == (Quoted(name) + ":" + v + ",") + rest
  {
  }

  lemma LastPiece(name: string, v: string)
    ensures Quoted(name) + (":" + Quoted(v) + "}") == (Quoted(name) + ":\"" + v + "\"") + "}"
  {
  }

  lemma Names()
    ensures Quoted("sub") + ":\"" == "\"sub\":\"" && Quoted("role") + ":\"" == "\"role\":\""
    ensures Quoted("iat") + ":" == "\"iat\":" && Quoted("exp") + ":" == "\"exp\":" && Quoted("jti") + ":\"" == "\"jti\":\""
  {
  }

  lemma SevenPieces(a: string, b: string, c: string, d: string, e: string, f: string, g: string)
    ensures a + (b + (c + (d + (e + (f + g))))) == a + b + c + d + e + f + g
  {
  }

  /** The payload, field by field. */
  lemma PayloadText(keyHash: string, role: AccessRole, now: int, jti: string)
    ensures Payload(keyHash, role, now, jti)
         == "{" + ("\"sub\":\"" + keyHash + "\",") + ("\"role\":\"" + role.Name() + "\",") + ("\"iat\":" + PrintLong(now) + ",")
            + ("\"exp\":" + PrintLong(now + 3600) + ",") + ("\"jti\":\"" + jti + "\"") + "}"
  {
    hide Quoted, PrintLong, AccessRole.Name;
    PayloadTails(keyHash, role, now, jti);
    Names();
    LastPiece("jti", jti);
    NumberPiece("exp", PrintLong(now + 3600), Quoted("jti") + (":" + Quoted(jti) + "}"));
    NumberPiece("iat", PrintLong(now), ExpTail(now, jti));
    StringPiece("role", role.Name(), IatTail(now, jti));
    StringPiece("sub", keyHash, RoleTail(role, now, jti));
    SevenPieces("{", "\"sub\":\"" + keyHash + "\",", "\"role\":\"" + role.Name() + "\",", "\"iat\":" + PrintLong(now) + ",",
                "\"exp\":" + PrintLong(now + 3600) + ",", "\"jti\":\"" + jti + "\"", "}");
  }

  /** An issued token: its header, its payload with the role in full, and the keyed hash of the two. */
  lemma IssuedText(mac: Mac, keyHash: string, role: AccessRole, now: int, jti: string)
    returns (header: string, body: string, sig: string, payload: string)
    ensures Signed(mac, Issue(mac, keyHash, role, now, jti), header, body, sig, payload)
    ensures Base64Url.Decode(header) == Some(Utf8.Encode("{\"alg\":\"HS256\",\"typ\":\"JWT\"}"))
    ensures payload == "{" + ("\"sub\":\"" + keyHash + "\",")
                       + ("\"role\":\"" + (if role == ADMIN then "ADMIN" else "READ_ONLY") + "\",")
                       + ("\"iat\":" + PrintLong(now) + ",") + ("\"exp\":" + PrintLong(now + 3600) + ",")
                       + ("\"jti\":\"" + jti + "\"") + "}"
  {
    hide Payload, PrintLong, Base64Url.Encode, Base64Url.Decode, Utf8.Encode, Utf8.Decode, Free;
    payload := Payload(keyHash, role, now, jti);
    header, body := Base64Text(HEADER), Base64Text(payload);
    sig := Signature(mac, header + "." + body);
    EncodedIsDotFree(Utf8.Encode(HEADER));
    EncodedIsDotFree(Utf8.Encode(payload));
    EncodedIsDotFree(mac(Utf8.Encode(header + "." + body)));
    Base64Url.DecodeEncode(Utf8.Encode(HEADER));
    Base64Url.DecodeEncode(Utf8.Encode(payload));
    Base64Url.DecodeEncode(mac(Utf8.Encode(header + "." + body)));
    Utf8.DecodeEncode(payload);
    PayloadText(keyHash, role, now, jti);
  }

  function JoinDots(parts: seq<string>): string
    requires parts != []
  {
    if |parts| == 1 then parts[0] else JoinDots(parts[..|parts| - 1]) + "." + parts[|parts| - 1]
  }

  lemma JoinThree(a: string, b: string, c: string)
    ensures JoinDots([a] + [b] + [c]) == a + "." + b + "." + c
  {
    var parts := [a] + [b] + [c];
    assert parts[..2] == [a, b] && [a, b][..1] == [a];
    assert JoinDots([a, b]) == JoinDots([a]) + "." + b;
  }

  /** Splitting loses nothing. */
  lemma {:induction false} JoinSplit(s: string)
    ensures JoinDots(SplitAtDots(s)) == s
  {
    if s != "" {
      var front, c := s[..|s| - 1], s[|s| - 1];
      JoinSplit(front);
      var parts := SplitAtDots(front);
      if c == '.' {
        assert (parts + [""])[..|parts|] == parts;
        assert front + "." + "" == s;
      } else {
        var grown := parts[..|parts| - 1] + [parts[|parts| - 1] + [c]];
        assert SplitAtDots(s) == grown && |grown| == |parts|;
        assert grown[..|grown| - 1] == parts[..|parts| - 1];
        assert front + [c] == s;
      }
    }
  }
}
