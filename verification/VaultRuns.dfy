/** Any number of tokenize calls, interleaved step by step: agreement, injectivity, and one workspace per kind. */
module VaultRuns {
  import opened Prelude
  import opened Spans
  import opened Vault
  import opened Normalize
  import Checksums
  import SpacedNumbers

  type CallId = nat

  /** Where a call stands. A running statement carries the snapshot its own reads see. */
  datatype Call =
    | Looking(key: Key)
    | Missed(key: Key)
    | Running(key: Key, snapshot: Tokens)
    | Served(key: Key, token: Token)
    | Failed(key: Key)

  datatype System = System(tables: Tables, calls: map<CallId, Call>)

  datatype Event =
    | Arrive(call: CallId, key: Key)
    | Lookup(call: CallId)                   // the short-circuit query
    | Snapshot(call: CallId)                 // the statement starts
    | Commit(call: CallId, delivered: bool)  // the statement takes effect; its answer may be lost
    | Abort(call: CallId)                    // the call dies and its open statement rolls back

  ghost predicate Enabled(s: System, e: Event) {
    match e
    case Arrive(c, _) => c !in s.calls
    case Lookup(c) => c in s.calls && s.calls[c].Looking?
    case Snapshot(c) => c in s.calls && s.calls[c].Missed?
    case Commit(c, _) => c in s.calls && s.calls[c].Running?
    case Abort(c) => c in s.calls && !s.calls[c].Served? && !s.calls[c].Failed?
  }

  ghost function Next(s: System, e: Event): System
    requires Enabled(s, e)
  {
    match e
    case Arrive(c, key) => s.(calls := s.calls[c := Looking(key)])
    case Lookup(c) =>
      var key := s.calls[c].key;
      var found := Find(s.tables.tokens, key);
      s.(calls := s.calls[c := if found.Some? then Served(key, found.value) else Missed(key)])
    case Snapshot(c) => s.(calls := s.calls[c := Running(s.calls[c].key, s.tables.tokens)])
    case Commit(c, delivered) =>
      var key := s.calls[c].key;
      var (tables, answer) := Execute(s.tables, s.calls[c].snapshot, key);
      var call := if delivered && answer.Returned? then Served(key, answer.token) else Failed(key);
      System(tables, s.calls[c := call])
    case Abort(c) => s.(calls := s.calls[c := Failed(s.calls[c].key)])
  }

  /** A snapshot is never ahead of the table, and a served call holds a token that stands for its key. */
  ghost predicate CallOk(tokens: Tokens, call: Call) {
    match call
    case Running(_, snapshot) => Extends(snapshot, tokens)
    case Served(key, token) => token in tokens && tokens[token] == key
    case _ => true
  }

  ghost predicate Inv(s: System) {
    TablesInv(s.tables) && forall c :: c in s.calls ==> CallOk(s.tables.tokens, s.calls[c])
  }

  lemma CallStaysOk(a: Tokens, b: Tokens, call: Call)
    requires CallOk(a, call) && Extends(a, b)
    ensures CallOk(b, call)
  {
  }

  lemma StepKeepsInv(s: System, e: Event)
    requires Enabled(s, e) && Inv(s)
    ensures Inv(Next(s, e))
    ensures Extends(s.tables.tokens, Next(s, e).tables.tokens)
    ensures forall c :: c in s.calls && s.calls[c].Served? ==> c in Next(s, e).calls && Next(s, e).calls[c] == s.calls[c]
  {
    hide TablesInv, Execute, CallOk;
    var t := s.tables;
    assert Extends(t.tokens, t.tokens);
    var s' := Next(s, e);
    assert e.Arrive? || e.call in s.calls;
    if e.Commit? {
      assert CallOk(t.tokens, s.calls[e.call]);
      RunningSnapshot(t.tokens, s.calls[e.call]);
      ExecuteKeepsInv(t, s.calls[e.call].snapshot, s.calls[e.call].key);
    }
    assert TablesInv(s'.tables) && Extends(t.tokens, s'.tables.tokens);
    forall c | c in s'.calls ensures CallOk(s'.tables.tokens, s'.calls[c]) {
      if c != e.call {
        assert CallOk(t.tokens, s.calls[c]);
        CallStaysOk(t.tokens, s'.tables.tokens, s.calls[c]);
      } else {
        NewCallOk(s, e);
      }
    }
  }

  lemma RunningSnapshot(tokens: Tokens, call: Call)
    requires CallOk(tokens, call) && call.Running?
    ensures Extends(call.snapshot, tokens)
  {
  }

  lemma NewCallOk(s: System, e: Event)
    requires Enabled(s, e) && Inv(s)
    ensures CallOk(Next(s, e).tables.tokens, Next(s, e).calls[e.call])
  {
    hide TablesInv, Execute;
    if e.Commit? {
      assert CallOk(s.tables.tokens, s.calls[e.call]);
      ExecuteKeepsInv(s.tables, s.calls[e.call].snapshot, s.calls[e.call].key);
    }
  }

  // ----- Runs ---------------------------------------------------------------------------------------

  ghost predicate Run(states: seq<System>, events: seq<Event>) {
    && |states| == |events| + 1
    && states[0] == System(Tables(map[], map[]), map[])
    && forall i :: 0 <= i < |events| ==> Enabled(states[i], events[i]) && states[i + 1] == Next(states[i], events[i])
  }

  lemma {:induction false} RunInv(states: seq<System>, events: seq<Event>, i: nat)
    requires Run(states, events) && i < |states|
    ensures Inv(states[i])
  {
    hide Next, Enabled;
    if 0 < i {
      RunInv(states, events, i - 1);
      assert states[i - 1 + 1] == Next(states[i - 1], events[i - 1]);
      StepKeepsInv(states[i - 1], events[i - 1]);
    }
  }

  /** Tokens are never lost, nor is what a call was told. */
  lemma {:induction false} RunGrows(states: seq<System>, events: seq<Event>, i: nat, j: nat)
    requires Run(states, events) && i <= j < |states|
    ensures Extends(states[i].tables.tokens, states[j].tables.tokens)
    ensures forall c :: c in states[i].calls && states[i].calls[c].Served?
              ==> c in states[j].calls && states[j].calls[c] == states[i].calls[c]
  {
    hide Next, Enabled, Inv;
    if i < j {
      RunGrows(states, events, i, j - 1);
      RunInv(states, events, j - 1);
      assert states[j - 1 + 1] == Next(states[j - 1], events[j - 1]);
      StepKeepsInv(states[j - 1], events[j - 1]);
    }
  }

  ghost predicate ServedAt(s: System, c: CallId, key: Key, token: Token) {
    c in s.calls && s.calls[c] == Served(key, token)
  }

  lemma ServedHolds(states: seq<System>, events: seq<Event>, i: nat, c: CallId, key: Key, token: Token)
    requires Run(states, events) && i < |states| && ServedAt(states[i], c, key, token)
    ensures TablesInv(states[i].tables) && token in states[i].tables.tokens && states[i].tables.tokens[token] == key
  {
    hide Run;
    RunInv(states, events, i);
    assert CallOk(states[i].tables.tokens, states[i].calls[c]);
  }

  /** Agreement and injectivity: at whatever times, two served calls got the same token if and only if they had the same key. */
  lemma SameTokenIffSameKey(states: seq<System>, events: seq<Event>, i: nat, j: nat,
                            c: CallId, key: Key, t: Token, d: CallId, key': Key, t': Token)
    requires Run(states, events) && i < |states| && j < |states|
    requires ServedAt(states[i], c, key, t) && ServedAt(states[j], d, key', t')
    ensures t == t' <==> key == key'
    ensures t.Text() == t'.Text() <==> key == key'
  {
    hide Run;
    var last := |states| - 1;
    ServedHolds(states, events, i, c, key, t);
    ServedHolds(states, events, j, d, key', t');
    RunGrows(states, events, i, last);
    RunGrows(states, events, j, last);
    RunInv(states, events, last);
    if t.Text() == t'.Text() {
      TextInjective(t, t');
    }
  }

  /** Distinct normalised values of a workspace and kind have distinct hashes. */
  ghost predicate CollisionFree(hash: LookupHash, workspace: Workspace, kind: EntityKind) {
    forall a, b :: hash(workspace, kind, a) == hash(workspace, kind, b) ==> a == b
  }

  lemma SameTokenIffSameForm(states: seq<System>, events: seq<Event>, i: nat, j: nat, c: CallId, t: Token, d: CallId, t': Token,
                             u: Unicode, hash: LookupHash, workspace: Workspace, kind: EntityKind, raw: string, raw': string)
    requires Run(states, events) && i < |states| && j < |states| && CollisionFree(hash, workspace, kind)
    requires ServedAt(states[i], c, KeyOf(u, hash, workspace, kind, raw), t)
    requires ServedAt(states[j], d, KeyOf(u, hash, workspace, kind, raw'), t')
    ensures t.Text() == t'.Text() <==> Form(u, kind, raw) == Form(u, kind, raw')
  {
    hide Run, Form;
    SameTokenIffSameKey(states, events, i, j, c, KeyOf(u, hash, workspace, kind, raw), t,
                        d, KeyOf(u, hash, workspace, kind, raw'), t');
  }

  /**
   * Two persons, or two organisations, get the same token if and only if their names have the same words up
   * to case, after compatibility composition. At whatever times they are tokenised.
   */
  lemma SameTokenIffSameWords(states: seq<System>, events: seq<Event>, i: nat, j: nat, c: CallId, t: Token, d: CallId, t': Token,
                              u: Unicode, hash: LookupHash, workspace: Workspace, kind: EntityKind, raw: string, raw': string)
    requires Run(states, events) && i < |states| && j < |states| && CollisionFree(hash, workspace, kind) && SaneLower(u)
    requires ServedAt(states[i], c, KeyOf(u, hash, workspace, kind, raw), t)
    requires ServedAt(states[j], d, KeyOf(u, hash, workspace, kind, raw'), t')
    requires kind == Person || kind == Org
    ensures t.Text() == t'.Text() <==> LowerAll(u, Words(u.nfkc(raw))) == LowerAll(u, Words(u.nfkc(raw')))
  {
    hide Run, SaneLower, NameForm, StrictForm, CollisionFree, KeyOf, LowerAll, Words;
    SameTokenIffSameForm(states, events, i, j, c, t, d, t', u, hash, workspace, kind, raw, raw');
    SameNameIffSameWords(u, raw, raw');
  }

  /** Two values of any other kind get the same token if and only if they have the same characters, white space and case aside. */
  lemma SameTokenIffSameCharacters(states: seq<System>, events: seq<Event>, i: nat, j: nat, c: CallId, t: Token, d: CallId, t': Token,
                                   u: Unicode, hash: LookupHash, workspace: Workspace, kind: EntityKind, raw: string, raw': string)
    requires Run(states, events) && i < |states| && j < |states| && CollisionFree(hash, workspace, kind)
    requires ServedAt(states[i], c, KeyOf(u, hash, workspace, kind, raw), t)
    requires ServedAt(states[j], d, KeyOf(u, hash, workspace, kind, raw'), t')
    requires kind != Person && kind != Org
    ensures t.Text() == t'.Text()
       <==> Lower(u, Checksums.StripWhitespace(raw)) == Lower(u, Checksums.StripWhitespace(raw'))
  {
    hide Run, CollisionFree, KeyOf, Lower, Checksums.StripWhitespace, NameForm;
    SameTokenIffSameForm(states, events, i, j, c, t, d, t', u, hash, workspace, kind, raw, raw');
  }

  /** In particular white space put into an account number, or anything else that is not a name, leads to the same token. */
  lemma SpacedValueSameToken(states: seq<System>, events: seq<Event>, i: nat, j: nat, c: CallId, t: Token, d: CallId, t': Token,
                             u: Unicode, hash: LookupHash, workspace: Workspace, kind: EntityKind, p: string, space: char, q: string)
    requires Run(states, events) && i < |states| && j < |states| && CollisionFree(hash, workspace, kind)
    requires ServedAt(states[i], c, KeyOf(u, hash, workspace, kind, p + q), t)
    requires ServedAt(states[j], d, KeyOf(u, hash, workspace, kind, p + [space] + q), t')
    requires kind != Person && kind != Org && IsWhitespace(space)
    ensures t.Text() == t'.Text()
  {
    hide Run, CollisionFree, KeyOf, Lower, Checksums.StripWhitespace, ServedAt;
    SpacedNumbers.SpaceDoesNotMatter(p, space, q);
    SameTokenIffSameCharacters(states, events, i, j, c, t, d, t', u, hash, workspace, kind, p + q, p + [space] + q);
  }

  /** Every number issued stays below its counter, so no number is issued twice in a workspace and kind. */
  lemma IssuedBelowCounter(states: seq<System>, events: seq<Event>, i: nat, j: nat, c: CallId, key: Key, token: Token)
    requires Run(states, events) && i <= j < |states| && ServedAt(states[i], c, key, token)
    ensures token.kind == key.kind && 1 <= token.number < NextId(states[j].tables.counters, key.workspace, key.kind)
  {
    hide Run;
    ServedHolds(states, events, i, c, key, token);
    RunGrows(states, events, i, j);
    RunInv(states, events, j);
    assert TokenOk(states[j].tables, token);
  }

  // ----- Which calls fail -----------------------------------------------------------------------------

  /** A running statement reads the tables as they were when it started. */
  lemma {:induction false} SnapshotTaken(states: seq<System>, events: seq<Event>, i: nat, c: CallId) returns (j: nat)
    requires Run(states, events) && i < |states| && c in states[i].calls && states[i].calls[c].Running?
    ensures j < i && events[j] == Snapshot(c) && states[i].calls[c].snapshot == states[j].tables.tokens
    ensures c in states[j].calls && states[j].calls[c] == Missed(states[i].calls[c].key)
  {
    hide Execute, Find;
    assert 0 < i;
    assert Enabled(states[i - 1], events[i - 1]) && states[i - 1 + 1] == Next(states[i - 1], events[i - 1]);
    if events[i - 1] == Snapshot(c) {
      j := i - 1;
    } else {
      RunningStays(states[i - 1], events[i - 1], c);
      j := SnapshotTaken(states, events, i - 1, c);
    }
  }

  lemma RunningStays(s: System, e: Event, c: CallId)
    requires Enabled(s, e) && e != Snapshot(c) && c in Next(s, e).calls && Next(s, e).calls[c].Running?
    ensures c in s.calls && s.calls[c] == Next(s, e).calls[c]
  {
    hide Execute, Find;
  }

  /** Whether the statement serves its call. */
  lemma AnswerIff(t: Tables, snapshot: Tokens, key: Key)
    requires TablesInv(t) && Extends(snapshot, t.tokens)
    ensures Execute(t, snapshot, key).1.Returned?
       <==> Unclaimed(t.tokens, key) && (HasKey(t.tokens, key) ==> HasKey(snapshot, key))
  {
    UncontendedAnswer(t, key);
    if HasKey(t.tokens, key) {
      var held :| held in t.tokens && t.tokens[held] == key;
      hide TablesInv, Execute, HasKey;
      KnownKeyIsUnclaimed(t, held, key);
    }
  }

  lemma KnownKeyIsUnclaimed(t: Tables, held: Token, key: Key)
    requires TablesInv(t) && held in t.tokens && t.tokens[held] == key
    ensures Unclaimed(t.tokens, key)
  {
    assert TokenOk(t, held);
    hide TablesInv;
    forall other | other in t.tokens && other.kind == key.kind ensures t.tokens[other].workspace == key.workspace {
      OneWorkspacePerKind(t, other, held);
    }
  }

  /**
   * Exactly which delivered calls fail: at the commit another workspace holds the kind, or the key was
   * minted after the snapshot was taken at event `j` and before the commit.
   */
  lemma DeliveredCallFails(states: seq<System>, events: seq<Event>, i: nat, c: CallId) returns (j: nat)
    requires Run(states, events) && i < |events| && events[i] == Commit(c, true)
    ensures c in states[i].calls && c in states[i + 1].calls
    ensures j < i && events[j] == Snapshot(c)
    ensures var key, now := states[i].calls[c].key, states[i].tables.tokens;
      states[i + 1].calls[c].Failed?
      <==> !Unclaimed(now, key) || (HasKey(now, key) && !HasKey(states[j].tables.tokens, key))
  {
    assert Enabled(states[i], events[i]) && states[i + 1] == Next(states[i], events[i]);
    RunInv(states, events, i);
    j := SnapshotTaken(states, events, i, c);
    RunGrows(states, events, j, i);
    hide Run, TablesInv, Unclaimed, HasKey, Extends;
    AnswerIff(states[i].tables, states[i].calls[c].snapshot, states[i].calls[c].key);
  }

  // ----- One workspace per kind -------------------------------------------------------------------------

  /** Once a workspace holds a token of a kind, no call of another workspace for that kind is ever served. */
  lemma SecondWorkspaceNeverServed(states: seq<System>, events: seq<Event>, i: nat, j: nat,
                                   c: CallId, key: Key, t: Token, d: CallId, key': Key, t': Token)
    requires Run(states, events) && i < |states| && j < |states|
    requires ServedAt(states[i], c, key, t) && ServedAt(states[j], d, key', t')
    ensures key.kind == key'.kind ==> key.workspace == key'.workspace
  {
    hide Run;
    var last := |states| - 1;
    ServedHolds(states, events, i, c, key, t);
    ServedHolds(states, events, j, d, key', t');
    RunGrows(states, events, i, last);
    RunGrows(states, events, j, last);
    RunInv(states, events, last);
    assert TokenOk(states[last].tables, t) && TokenOk(states[last].tables, t');
    if key.kind == key'.kind {
      OneWorkspacePerKind(states[last].tables, t, t');
    }
  }

  /** The smallest run that shows it: one value in workspace `a`, then one of the same kind in workspace `b`, alone. */
  lemma SecondWorkspaceIsRefused(a: Workspace, b: Workspace, kind: EntityKind, h: Hash)
    requires a != b
    ensures var (first, answer) := Execute(Tables(map[], map[]), map[], Key(a, kind, h));
      && answer == Returned(Token(kind, 1))
      && Execute(first, first.tokens, Key(b, kind, h)) == (first, UniqueViolation)
  {
  }
}
