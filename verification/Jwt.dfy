/** The gateway's bearer tokens: the printer, and the hand-written scanner that reads them back. */
module Jwt {
  import opened Prelude
  import Base64Url
  import Decimal
  import Utf8

  const TOKEN_TTL_SECONDS: int := 3600
  const LONG_MAX: int := 0x7FFF_FFFF_FFFF_FFFF

  // `Instant.MIN` and `Instant.MAX`, in epoch seconds
  const INSTANT_MIN: int := -31557014167219200
  const INSTANT_MAX: int := 31556889864403199

  datatype AccessRole = READ_ONLY | ADMIN {
    function Name(): string {
      match this
      case READ_ONLY => "READ_ONLY"
      case ADMIN => "ADMIN"
    }
  }

  function RoleOf(name: string): Option<AccessRole> {
    if name == "READ_ONLY" then Some(READ_ONLY)
    else if name == "ADMIN" then Some(ADMIN)
    else None
  }

  datatype JwtClaims = JwtClaims(keyHash: string, role: AccessRole)

  /** The keyed hash, HMAC-SHA256 under the server's secret. */
  type Mac = seq<byte> -> seq<byte>

  // ----- Printing -----------------------------------------------------------------------------------

  function PrintLong(n: int): string {
    if n < 0 then "-" + Decimal.Print(-n) else Decimal.Print(n)
  }

  function Quoted(s: string): string {
    "\"" + s + "\""
  }

  function Payload(keyHash: string, role: AccessRole, now: int, jti: string): string {
    "{" + (Quoted("sub") + (":" + (Quoted(keyHash) + ("," +
    (Quoted("role") + (":" + (Quoted(role.Name()) + ("," +
    (Quoted("iat") + ((":" + PrintLong(now) + ",") +
    (Quoted("exp") + (":" + (PrintLong(now + TOKEN_TTL_SECONDS) + ("," +
    (Quoted("jti") + (":" + Quoted(jti) + "}"))))))))))))))))
  }

  const HEADER: string := "{\"alg\":\"HS256\",\"typ\":\"JWT\"}"

  function Base64Text(s: string): string {
    Base64Url.Encode(Utf8.Encode(s))
  }

  function Signature(mac: Mac, signing: string): string {
    Base64Url.Encode(mac(Utf8.Encode(signing)))
  }

  function Issue(mac: Mac, keyHash: string, role: AccessRole, now: int, jti: string): string {
    var signing := Base64Text(HEADER) + "." + Base64Text(Payload(keyHash, role, now, jti));
    signing + "." + Signature(mac, signing)
  }

  // ----- Scanning -----------------------------------------------------------------------------------

  predicate MatchAt(s: string, needle: string, i: nat) {
    i + |needle| <= |s| && s[i..i + |needle|] == needle
  }

  /** Java's `indexOf`: the first match at or after `from`, or -1. */
  function IndexFrom(s: string, needle: string, from: nat): (r: int)
    ensures r == -1 || (from <= r && MatchAt(s, needle, r))
    ensures forall i :: from <= i && (r == -1 || i < r) ==> !MatchAt(s, needle, i)
    decreases |s| - from
  {
    if from > |s| then -1
    else if MatchAt(s, needle, from) then from
    else IndexFrom(s, needle, from + 1)
  }

  /** `None` where the Java method throws. A missing field is not an error by itself: the search goes on from index -1. */
  function StringField(json: string, field: string): Option<string> {
    var needle := "\"" + field + "\":\"";
    var start := IndexFrom(json, needle, 0) + |needle|;
    var end := IndexFrom(json, "\"", start);
    if end == -1 then None else Some(json[start..end])
  }

  function DigitRun(s: string, start: nat): (end: nat)
    requires start <= |s|
    ensures start <= end <= |s| && Decimal.AllDigits(s[start..end])
    ensures end < |s| ==> !Decimal.IsDigit(s[end])
    decreases |s| - start
  {
    if start < |s| && Decimal.IsDigit(s[start]) then
      var end := DigitRun(s, start + 1);
      assert s[start..end] == [s[start]] + s[start + 1..end];
      end
    else start
  }

  function LongField(json: string, field: string): Option<int> {
    var needle := "\"" + field + "\":";
    var start := IndexFrom(json, needle, 0) + |needle|;
    if start > |json| then None
    else
      var digits := json[start..DigitRun(json, start)];
      if digits == "" || Decimal.Value(digits) > LONG_MAX then None else Some(Decimal.Value(digits))
  }

  method ExtractString(json: string, field: string) returns (r: Option<string>)
    ensures r == StringField(json, field)
  {
    var needle := "\"" + field + "\":\"";
    var start := IndexFrom(json, needle, 0) + |needle|;
    var end := IndexFrom(json, "\"", start);
    if end == -1 {
      return None;
    }
    r := Some(json[start..end]);
  }

  lemma DigitRunSteps(s: string, start: nat, end: nat)
    requires start <= end <= |s| && Decimal.AllDigits(s[start..end])
    ensures DigitRun(s, start) == DigitRun(s, end)
    decreases end - start
  {
    if start < end {
      assert s[start..end][0] == s[start];
      assert s[start..end][1..] == s[start + 1..end];
      DigitRunSteps(s, start + 1, end);
    }
  }

  /** Reads the digits one by one, as far as they go. */
  method ExtractLong(json: string, field: string) returns (r: Option<int>)
    ensures r == LongField(json, field)
  {
    var needle := "\"" + field + "\":";
    var start := IndexFrom(json, needle, 0) + |needle|;
    var end: nat := start;
    while end < |json| && Decimal.IsDigit(json[end])
      invariant start <= end && (start <= |json| ==> end <= |json| && Decimal.AllDigits(json[start..end]))
      invariant start > |json| ==> end == start
    {
      assert json[start..end + 1] == json[start..end] + [json[end]];
      end := end + 1;
    }
    if start > |json| {
      return None;
    }
    DigitRunSteps(json, start, end);
    var digits := json[start..end];
    if digits == "" || Decimal.Value(digits) > LONG_MAX {
      return None;
    }
    r := Some(Decimal.Value(digits));
  }

  /** `split("\\.", -1)`: every part, empty ones too. */
  function SplitAtDots(s: string): (parts: seq<string>)
    ensures parts != []
  {
    if s == "" then [""]
    else
      var parts := SplitAtDots(s[..|s| - 1]);
      if s[|s| - 1] == '.' then parts + [""]
      else parts[..|parts| - 1] + [parts[|parts| - 1] + [s[|s| - 1]]]
  }

  /** The claims in a payload that is signed and not yet expired. The code still accepts at `exp` itself. */
  function ReadClaims(payload: string, now: int): Option<JwtClaims> {
    var exp := LongField(payload, "exp");
    if exp.None? || now > exp.value then None
    else
      var keyHash, role := StringField(payload, "sub"), StringField(payload, "role");
      if keyHash.None? || role.None? || RoleOf(role.value).None? then None
      else Some(JwtClaims(keyHash.value, RoleOf(role.value).value))
  }

  function Claims(mac: Mac, token: Option<string>, now: int): Option<JwtClaims> {
    if token.None? || Blank(token.value) then None
    else
      var parts := SplitAtDots(token.value);
      if |parts| != 3 then None
      else if Base64Url.Decode(parts[2]) != Some(mac(Utf8.Encode(parts[0] + "." + parts[1]))) then None
      else
        var payload := Base64Url.Decode(parts[1]);
        if payload.None? then None else ReadClaims(Utf8.Decode(payload.value), now)
  }

  method Validate(mac: Mac, token: Option<string>, now: int) returns (r: Option<JwtClaims>)
    ensures r == Claims(mac, token, now)
  {
    if token.None? || Blank(token.value) {
      return None;
    }
    var parts := SplitAtDots(token.value);
    if |parts| != 3 {
      return None;
    }
    var expectedSig := mac(Utf8.Encode(parts[0] + "." + parts[1]));
    var actualSig := Base64Url.Decode(parts[2]);
    if actualSig != Some(expectedSig) {
      return None;
    }
    var bytes := Base64Url.Decode(parts[1]);
    if bytes.None? {
      return None;
    }
    var payloadJson := Utf8.Decode(bytes.value);
    var exp := ExtractLong(payloadJson, "exp");
    if exp.None? || now > exp.value {
      return None;
    }
    var keyHash := ExtractString(payloadJson, "sub");
    if keyHash.None? {
      return None;
    }
    var name := ExtractString(payloadJson, "role");
    if name.None? || RoleOf(name.value).None? {
      return None;
    }
    r := Some(JwtClaims(keyHash.value, RoleOf(name.value).value));
  }
}
