/** The PII vault: one counter per workspace and kind, one table of tokens, and the statement that mints a token. */
module Vault {
  import opened Prelude
  import opened Spans
  import Decimal
  import opened Normalize

  type Workspace = string

  type Hash = seq<byte>

  // ----- Tokens -------------------------------------------------------------------------------------

  /** `PII_<label>_<number>`: the text determines the kind and the number. */
  datatype Token = Token(kind: EntityKind, number: nat) {
    function Text(): string {
      "PII_" + kind.Label() + "_" + Decimal.Print(number)
    }
  }

  /** The form that the design promises, for the eight kinds. */
  lemma TextForm(number: nat)
    ensures Token(Email, number).Text() == "PII_EMAIL_" + Decimal.Print(number)
    ensures Token(Nir, number).Text() == "PII_NIR_" + Decimal.Print(number)
    ensures Token(Iban, number).Text() == "PII_IBAN_" + Decimal.Print(number)
    ensures Token(Phone, number).Text() == "PII_PHONE_" + Decimal.Print(number)
    ensures Token(Uuid, number).Text() == "PII_UUID_" + Decimal.Print(number)
    ensures Token(Person, number).Text() == "PII_PERSON_" + Decimal.Print(number)
    ensures Token(Org, number).Text() == "PII_ORG_" + Decimal.Print(number)
    ensures Token(Loc, number).Text() == "PII_LOC_" + Decimal.Print(number)
  {
  }

  predicate NoUnderscore(s: string) {
    forall i :: 0 <= i < |s| ==> s[i] != '_'
  }

  lemma LabelsDiffer(a: EntityKind, b: EntityKind)
    ensures NoUnderscore(a.Label()) && (a.Label() == b.Label() <==> a == b)
  {
  }

  lemma SplitAtUnderscore(a: string, x: string, b: string, y: string)
    requires NoUnderscore(a) && NoUnderscore(b) && a + "_" + x == b + "_" + y
    ensures a == b && x == y
  {
    var s := a + "_" + x;
    assert forall i :: 0 <= i < |a| ==> s[i] == a[i];
    assert s == b + "_" + y && forall i :: 0 <= i < |b| ==> s[i] == b[i];
    assert s[|a|] == '_' && s[|b|] == '_';
    assert |a| == |b|;
    assert a == s[..|a|] && b == s[..|b|] && x == s[|a| + 1..] && y == s[|b| + 1..];
  }

  lemma TextInjective(a: Token, b: Token)
    requires a.Text() == b.Text()
    ensures a == b
  {
    LabelsDiffer(a.kind, b.kind);
    LabelsDiffer(b.kind, a.kind);
    var x, y := Decimal.Print(a.number), Decimal.Print(b.number);
    assert a.Text()[4..] == a.kind.Label() + "_" + x;
    assert b.Text()[4..] == b.kind.Label() + "_" + y;
    SplitAtUnderscore(a.kind.Label(), x, b.kind.Label(), y);
    assert Decimal.Value(x) == a.number && Decimal.Value(y) == b.number;
  }

  // ----- The tables ---------------------------------------------------------------------------------

  datatype Key = Key(workspace: Workspace, kind: EntityKind, hash: Hash)

  type Counters = map<(Workspace, EntityKind), nat>

  /** Token (primary key) to the key it stands for (unique as well). The ciphertext column plays no part. */
  type Tokens = map<Token, Key>

  datatype Tables = Tables(counters: Counters, tokens: Tokens)

  ghost predicate HasKey(tokens: Tokens, key: Key) {
    exists t :: t in tokens && tokens[t] == key
  }

  /** The number the statement would take next: the counter, or 1 for the first row. */
  function NextId(counters: Counters, workspace: Workspace, kind: EntityKind): nat {
    if (workspace, kind) in counters then counters[(workspace, kind)] else 1
  }

  datatype Answer = Returned(token: Token) | NoRow | UniqueViolation

  /** The token of a key, if the tables hold one. */
  ghost function Find(tokens: Tokens, key: Key): (r: Option<Token>)
    ensures r.Some? ==> r.value in tokens && tokens[r.value] == key
    ensures r.None? <==> !HasKey(tokens, key)
    ensures HasKey(tokens, key) && UniqueKeys(tokens) ==> forall t :: t in tokens && tokens[t] == key ==> r == Some(t)
  {
    if t :| t in tokens && tokens[t] == key then Some(t) else None
  }

  ghost predicate UniqueKeys(tokens: Tokens) {
    forall t, u :: t in tokens && u in tokens && tokens[t] == tokens[u] ==> t == u
  }

  // ----- The upsert statement -----------------------------------------------------------------------

  /**
   * The minting statement, as it commits: bump the counter, insert unless the key is there already, read
   * back. The final read sees the rows this statement inserted and the snapshot it started from. A second
   * holder of the same token text is an error that rolls the whole statement back.
   */
  ghost function Execute(tables: Tables, snapshot: Tokens, key: Key): (Tables, Answer) {
    var n := NextId(tables.counters, key.workspace, key.kind);
    var bumped := tables.counters[(key.workspace, key.kind) := n + 1];
    var token := Token(key.kind, n);
    if HasKey(tables.tokens, key) then
      (Tables(bumped, tables.tokens), if Find(snapshot, key).Some? then Returned(Find(snapshot, key).value) else NoRow)
    else if token in tables.tokens then (tables, UniqueViolation)
    else (Tables(bumped, tables.tokens[token := key]), Returned(token))
  }

  /** A token stands below its owner's counter, and the owner of a counter holds number 1 of that kind. */
  ghost predicate TablesInv(t: Tables) {
    && UniqueKeys(t.tokens)
    && (forall k :: k in t.tokens ==> TokenOk(t, k))
    && (forall c :: c in t.counters ==> CounterOk(t, c))
  }

  ghost predicate TokenOk(t: Tables, token: Token)
    requires token in t.tokens
  {
    var key := t.tokens[token];
    && token.kind == key.kind && (key.workspace, key.kind) in t.counters
    && 1 <= token.number < t.counters[(key.workspace, key.kind)]
  }

  ghost predicate CounterOk(t: Tables, c: (Workspace, EntityKind)) {
    Token(c.1, 1) in t.tokens && t.tokens[Token(c.1, 1)].workspace == c.0
  }

  class PiiVault {
    var counters: Counters
    var tokens: Tokens

    constructor ()
      ensures State() == Tables(map[], map[])
    {
      counters, tokens := map[], map[];
    }

    ghost function State(): Tables
      reads this
    {
      Tables(counters, tokens)
    }

    method LookupExisting(key: Key) returns (r: Option<Token>)
      requires UniqueKeys(tokens)
      ensures r == Find(tokens, key)
    {
      if t :| t in tokens && tokens[t] == key {
        assert HasKey(tokens, key);
        r := Some(t);
      } else {
        r := None;
      }
    }

    method RunStatement(snapshot: Tokens, key: Key) returns (answer: Answer)
      requires UniqueKeys(snapshot)
      modifies this
      ensures (State(), answer) == Execute(old(State()), snapshot, key)
    {
      var n := NextId(counters, key.workspace, key.kind);
      var before := counters;
      counters := counters[(key.workspace, key.kind) := n + 1];
      var token := Token(key.kind, n);
      if t :| t in tokens && tokens[t] == key {
        assert HasKey(tokens, key);
        if u :| u in snapshot && snapshot[u] == key {
          assert HasKey(snapshot, key);
          answer := Returned(u);
        } else {
          answer := NoRow;
        }
      } else if token in tokens {
        counters := before;
        answer := UniqueViolation;
      } else {
        tokens := tokens[token := key];
        answer := Returned(token);
      }
    }

    /** A call that meets no other: the old token of the key, or a new one, or the refusal of a second workspace. */
    method Upsert(key: Key) returns (answer: Answer)
      requires TablesInv(State())
      modifies this
      ensures TablesInv(State())
      ensures answer.Returned? <==> old(HasKey(tokens, key)) || old(Unclaimed(tokens, key))
      ensures answer.Returned? ==> answer.token in tokens && tokens[answer.token] == key
      ensures !answer.Returned? ==> State() == old(State())
      ensures forall t :: t in old(tokens) ==> t in tokens && tokens[t] == old(tokens)[t]
    {
      var existing := LookupExisting(key);
      if existing.Some? {
        return Returned(existing.value);
      }
      ExecuteKeepsInv(State(), tokens, key);
      UncontendedAnswer(State(), key);
      answer := RunStatement(tokens, key);
    }

    /** A whole call that meets no other, from the detected text on. */
    method Tokenize(u: Unicode, hash: LookupHash, workspace: Workspace, kind: EntityKind, raw: string)
      returns (answer: Answer)
      requires TablesInv(State())
      modifies this
      ensures TablesInv(State())
      ensures var key := KeyOf(u, hash, workspace, kind, raw);
        && (answer.Returned? <==> old(HasKey(tokens, key)) || old(Unclaimed(tokens, key)))
        && (answer.Returned? ==> answer.token in tokens && tokens[answer.token] == key)
    {
      var normalized := NormalizeValue(u, kind, raw);
      answer := Upsert(Key(workspace, kind, hash(workspace, kind, normalized)));
    }
  }

  /** The keyed hash of a normalised value, per workspace and kind. */
  type LookupHash = (Workspace, EntityKind, string) -> Hash

  function KeyOf(u: Unicode, hash: LookupHash, workspace: Workspace, kind: EntityKind, raw: string): Key {
    Key(workspace, kind, hash(workspace, kind, Form(u, kind, raw)))
  }

  ghost predicate Extends(a: Tokens, b: Tokens) {
    forall t :: t in a ==> t in b && b[t] == a[t]
  }

  /** What every execution keeps, against any snapshot that is not ahead of the table. */
  lemma ExecuteKeepsInv(t: Tables, snapshot: Tokens, key: Key)
    requires TablesInv(t) && Extends(snapshot, t.tokens)
    ensures var (after, answer) := Execute(t, snapshot, key);
      && TablesInv(after) && Extends(t.tokens, after.tokens)
      && (answer.Returned? ==> answer.token in after.tokens && after.tokens[answer.token] == key)
  {
    var (after, answer) := Execute(t, snapshot, key);
    var n := NextId(t.counters, key.workspace, key.kind);
    var c := (key.workspace, key.kind);
    if answer.UniqueViolation? {
    } else if HasKey(t.tokens, key) {
      var held :| held in t.tokens && t.tokens[held] == key;
      assert TokenOk(t, held);
      forall x | x in after.counters ensures CounterOk(after, x) {
        assert CounterOk(t, x);
      }
      forall k | k in after.tokens ensures TokenOk(after, k) {
        assert TokenOk(t, k);
      }
    } else {
      MintKeepsInv(t, key);
    }
  }

  lemma MintKeepsInv(t: Tables, key: Key)
    requires TablesInv(t) && !HasKey(t.tokens, key)
    requires Token(key.kind, NextId(t.counters, key.workspace, key.kind)) !in t.tokens
    ensures TablesInv(Execute(t, map[], key).0)
    ensures Execute(t, map[], key).0.tokens == t.tokens[Token(key.kind, NextId(t.counters, key.workspace, key.kind)) := key]
  {
    var after := Execute(t, map[], key).0;
    var c := (key.workspace, key.kind);
    var minted := Token(key.kind, NextId(t.counters, key.workspace, key.kind));
    forall k | k in after.tokens ensures TokenOk(after, k) {
      if k != minted {
        assert TokenOk(t, k);
      } else if c in t.counters {
        CounterAtLeastTwo(t, c);
      }
    }
    forall x | x in after.counters ensures CounterOk(after, x) {
      if x in t.counters {
        assert CounterOk(t, x);
      }
    }
    forall k, l | k in after.tokens && l in after.tokens && after.tokens[k] == after.tokens[l] ensures k == l {
      assert k != minted ==> k in t.tokens && t.tokens[k] != key;
      assert l != minted ==> l in t.tokens && t.tokens[l] != key;
    }
  }

  lemma CounterAtLeastTwo(t: Tables, c: (Workspace, EntityKind))
    requires TablesInv(t) && c in t.counters
    ensures t.counters[c] >= 2
  {
    assert CounterOk(t, c) && TokenOk(t, Token(c.1, 1));
  }

  // ----- One workspace per kind ---------------------------------------------------------------------

  /** Nobody else holds a token of this kind. */
  ghost predicate Unclaimed(tokens: Tokens, key: Key) {
    forall t :: t in tokens && t.kind == key.kind ==> tokens[t].workspace == key.workspace
  }

  /** The token text carries no workspace and is a primary key, so a kind belongs to its first workspace. */
  lemma OneWorkspacePerKind(t: Tables, a: Token, b: Token)
    requires TablesInv(t) && a in t.tokens && b in t.tokens && a.kind == b.kind
    ensures t.tokens[a].workspace == t.tokens[b].workspace
  {
    assert TokenOk(t, a) && TokenOk(t, b);
    assert CounterOk(t, (t.tokens[a].workspace, a.kind)) && CounterOk(t, (t.tokens[b].workspace, b.kind));
  }

  /**
   * The answer of a statement whose snapshot is current: a token if and only if the key is known or no
   * other workspace holds the kind; otherwise a unique violation that changes nothing, so a retry fails too.
   */
  lemma UncontendedAnswer(t: Tables, key: Key)
    requires TablesInv(t)
    ensures var (after, answer) := Execute(t, t.tokens, key);
      && (answer.Returned? <==> HasKey(t.tokens, key) || Unclaimed(t.tokens, key))
      && (!answer.Returned? ==> answer.UniqueViolation? && after == t)
  {
    var n := NextId(t.counters, key.workspace, key.kind);
    var c := (key.workspace, key.kind);
    var token := Token(key.kind, n);
    if !HasKey(t.tokens, key) {
      if token in t.tokens {
        assert TokenOk(t, token);
        assert t.tokens[token].workspace != key.workspace;
      } else if c in t.counters {
        assert CounterOk(t, c);
        forall k | k in t.tokens && k.kind == key.kind ensures t.tokens[k].workspace == key.workspace {
          OneWorkspacePerKind(t, k, Token(key.kind, 1));
        }
      } else {
        forall k | k in t.tokens ensures k.kind != key.kind {
          assert TokenOk(t, k);
          assert CounterOk(t, (t.tokens[k].workspace, k.kind));
        }
      }
    }
  }

  /** A new token takes the next number of its workspace and kind, and the counter moves on by one: numbers have no gaps. */
  lemma MintTakesNextNumber(t: Tables, snapshot: Tokens, key: Key)
    requires TablesInv(t) && !HasKey(t.tokens, key)
    ensures var (after, answer) := Execute(t, snapshot, key);
      var c, next := (key.workspace, key.kind), if (key.workspace, key.kind) in t.counters then t.counters[(key.workspace, key.kind)] else 1;
      answer.Returned? ==>
        && answer.token == Token(key.kind, next)
        && after.tokens == t.tokens[answer.token := key] && after.counters == t.counters[c := next + 1]
  {
  }

  /** Who gets no row: exactly the call that lost the race after its snapshot was taken. It uses up a number. */
  lemma RaceLoserGetsNoRow(t: Tables, snapshot: Tokens, key: Key)
    requires TablesInv(t) && Extends(snapshot, t.tokens)
    ensures var (after, answer) := Execute(t, snapshot, key);
      && (answer.NoRow? <==> HasKey(t.tokens, key) && !HasKey(snapshot, key))
      && (answer.NoRow? ==> after.tokens == t.tokens)
      && (answer.NoRow? ==> NextId(after.counters, key.workspace, key.kind) == NextId(t.counters, key.workspace, key.kind) + 1)
  {
  }
}
