/** The hourly chunk budget: the counter table, one commit against it, and every interleaving of commits and prunes. */
module ChunkBudget {
  import opened Prelude

  // Instants are nanoseconds since the epoch.
  const SECOND: int := 1_000_000_000
  const HOUR: int := 3600 * SECOND
  const RETENTION: int := 24 * HOUR

  /** The primary key of the counter table: who, and the start of the hour. */
  datatype Window = Window(apiKey: string, start: int)

  function HourStart(now: int): int {
    now / HOUR * HOUR
  }

  /** The start of the clock hour that the instant lies in: a whole number of hours, at most an hour back. */
  lemma HourStartIsTheHour(now: int)
    ensures HourStart(now) % 3_600_000_000_000 == 0
    ensures HourStart(now) <= now < HourStart(now) + 3_600_000_000_000
  {
  }

  /** Two instants count against the same window exactly when they lie in the same clock hour. */
  lemma SameHour(now: int, hour: int)
    ensures HourStart(now) == hour * 3_600_000_000_000
       <==> hour * 3_600_000_000_000 <= now < (hour + 1) * 3_600_000_000_000
  {
  }

  type Counters = map<Window, nat>

  function Count(table: Counters, w: Window): nat {
    if w in table then table[w] else 0
  }

  // ----- One commit -----------------------------------------------------------------------------

  datatype Outcome = Committed | BudgetExceeded(retryAfterSeconds: int)

  /** Seconds until the next top of the hour, at least 1, and less than a second away from it. */
  method SecondsUntilNextHour(now: int) returns (r: int)
    ensures 1 <= r <= 3600
    ensures var left := 3_600_000_000_000 - now % 3_600_000_000_000;
      && -1_000_000_000 < r * 1_000_000_000 - left < 1_000_000_000
      && (left >= 1_000_000_000 ==> r * 1_000_000_000 <= left)
  {
    var nextHour := now / HOUR * HOUR + HOUR;
    var seconds := (nextHour - now) / SECOND;
    r := Max(1, seconds);
  }

  ghost predicate WithinCap(table: Counters, cap: int) {
    forall w :: w in table ==> table[w] <= cap
  }

  class ChunkBudgetEnforcer {
    const hourlyCap: int
    var table: Counters

    constructor (hourlyCap: int)
      ensures this.hourlyCap == hourlyCap && table == map[]
    {
      this.hourlyCap := hourlyCap;
      table := map[];
    }

    /**
     * Runs in its own transaction: the increment stays if and only if the new total is within the
     * cap; the exception of a refusal rolls it back.
     */
    method CommitChunks(apiKey: Option<string>, chunkCount: int, now: int) returns (outcome: Outcome)
      modifies this
      ensures apiKey.None? ==> outcome.BudgetExceeded? && table == old(table)
      ensures apiKey.Some? ==>
                var w := Window(apiKey.value, HourStart(now));
                var total := Count(old(table), w) + Max(0, chunkCount);
                if total <= hourlyCap then outcome.Committed? && table == old(table)[w := total]
                else outcome.BudgetExceeded? && table == old(table)
      ensures outcome.BudgetExceeded? ==> 1 <= outcome.retryAfterSeconds <= 3600
      ensures WithinCap(old(table), hourlyCap) ==> WithinCap(table, hourlyCap)
    {
      if apiKey.None? {
        var wait := SecondsUntilNextHour(now);
        return BudgetExceeded(wait);
      }
      var savepoint := table;
      var w := Window(apiKey.value, HourStart(now));
      var newTotal := Count(table, w) + Max(0, chunkCount);
      table := table[w := newTotal];
      if newTotal > hourlyCap {
        var retryAfter := SecondsUntilNextHour(now);
        table := savepoint;
        return BudgetExceeded(retryAfter);
      }
      outcome := Committed;
    }

    /** Deletes the rows whose window started more than a day ago, and so never the current window. */
    method PruneStaleWindows(now: int)
      modifies this
      ensures table == map w | w in old(table) && !(w.start < now - 86_400_000_000_000) :: old(table)[w]
      ensures forall key :: Count(table, Window(key, HourStart(now))) == Count(old(table), Window(key, HourStart(now)))
    {
      table := map w | w in table && !(w.start < now - RETENTION) :: table[w];
    }
  }

  // ----- Every interleaving -----------------------------------------------------------------------

  /** A call whose increment is committed: who made it, with what clock reading, for how many fragments. */
  datatype Grant = Grant(apiKey: string, now: int, delta: nat) {
    function Against(): Window {
      Window(apiKey, HourStart(now))
    }
  }

  /** A call whose increment is executed but not yet committed: it holds the row lock of its window. */
  datatype Pending = Pending(grant: Grant, newTotal: nat)

  /** The database, the calls in flight, and two ledgers kept for the proof. */
  datatype System = System(
    table: Counters,
    locked: map<Window, Pending>,
    granted: seq<Grant>,   // committed, and the fragments not yet out
    clock: int,            // the latest clock reading that has taken effect
    ledger: Counters,      // committed so far, never pruned
    released: seq<Grant>)  // fragments handed to callers so far

  /** A reading is taken before its statement runs, and the statement waits for the row: readings take effect in any order. */
  datatype Event =
    | Upsert(apiKey: string, chunkCount: int, now: int)
    | Decide(w: Window)
    | Abort(w: Window)          // the inner transaction dies before it commits
    | Release(call: nat)        // the tool returns its fragments
    | OuterRollback(call: nat)  // the tool's own transaction rolls back, nothing is returned
    | Prune(now: int)

  /** The table may hold anything, also counters above the cap, left by an earlier configuration. */
  function Initial(table: Counters, now: int): System {
    System(table, map[], [], now, table, [])
  }

  predicate Enabled(s: System, e: Event) {
    match e
    case Upsert(key, _, now) => Window(key, HourStart(now)) !in s.locked
    case Decide(w) => w in s.locked
    case Abort(w) => w in s.locked
    case Release(call) => call < |s.granted|
    case OuterRollback(call) => call < |s.granted|
    case Prune(_) => true
  }

  /** The window a call counts against began at most `lag` before the latest reading. */
  predicate Timely(s: System, e: Event, lag: int) {
    e.Upsert? ==> s.clock - HourStart(e.now) <= lag
  }

  function Add(m: Counters, w: Window, n: nat): Counters {
    m[w := Count(m, w) + n]
  }

  function Without(granted: seq<Grant>, i: nat): seq<Grant>
    requires i < |granted|
  {
    granted[..i] + granted[i + 1..]
  }

  function Next(s: System, e: Event, cap: int): System
    requires Enabled(s, e)
  {
    match e
    case Upsert(key, n, now) =>
      var w := Window(key, HourStart(now));
      var grant := Grant(key, now, Max(0, n));
      s.(clock := Max(s.clock, now), locked := s.locked[w := Pending(grant, Count(s.table, w) + grant.delta)])
    case Decide(w) =>
      var p := s.locked[w];
      if p.newTotal > cap then s.(locked := s.locked - {w})
      else s.(locked := s.locked - {w}, table := s.table[w := p.newTotal],
              granted := s.granted + [p.grant], ledger := Add(s.ledger, w, p.grant.delta))
    case Abort(w) => s.(locked := s.locked - {w})
    case Release(call) =>
      s.(granted := Without(s.granted, call), released := s.released + [s.granted[call]])
    case OuterRollback(call) => s.(granted := Without(s.granted, call))
    case Prune(now) =>
      // a delete waits for a locked row
      s.(clock := Max(s.clock, now),
         table := map w | w in s.table && !(w.start < now - RETENTION && w !in s.locked) :: s.table[w])
  }

  /** The two steps of a call do to the table what `CommitChunks` does to the field. */
  lemma UpsertThenDecideIsCommit(s: System, apiKey: string, chunkCount: int, now: int, cap: int)
    requires Enabled(s, Upsert(apiKey, chunkCount, now))
    ensures var w := Window(apiKey, HourStart(now));
      var total := Count(s.table, w) + Max(0, chunkCount);
      var open := Next(s, Upsert(apiKey, chunkCount, now), cap);
      && open.table == s.table && Enabled(open, Decide(w))
      && Next(open, Decide(w), cap).table == if total <= cap then s.table[w := total] else s.table
  {
  }

  /** The fragments of the calls that count against a window. */
  function Total(grants: seq<Grant>, w: Window): nat {
    if grants == [] then 0
    else Total(grants[1..], w) + (if grants[0].Against() == w then grants[0].delta else 0)
  }

  /** What a counter can reach: the cap, or what it already stood at. */
  function Ceiling(start: Counters, cap: int, w: Window): nat {
    Max(Max(cap, 0), Count(start, w))
  }

  /** What holds for one window. */
  ghost predicate WindowInv(s: System, start: Counters, cap: int, w: Window) {
    && (w in s.table ==> s.table[w] == Count(s.ledger, w))
    && Count(s.ledger, w) <= Ceiling(start, cap, w)
    && (w !in s.table && Count(s.ledger, w) > 0 ==> w.start < s.clock - RETENTION && w !in s.locked)
    && (w in s.locked ==>
          s.locked[w].newTotal == Count(s.table, w) + s.locked[w].grant.delta && s.locked[w].grant.Against() == w)
    && Count(start, w) + Total(s.released, w) + Total(s.granted, w) <= Count(s.ledger, w)
  }

  ghost predicate Inv(s: System, start: Counters, cap: int) {
    forall w :: WindowInv(s, start, cap, w)
  }

  lemma {:induction false} TotalWithout(granted: seq<Grant>, i: nat, w: Window)
    requires i < |granted|
    ensures Total(granted, w)
         == Total(Without(granted, i), w) + (if granted[i].Against() == w then granted[i].delta else 0)
  {
    if 0 < i {
      TotalWithout(granted[1..], i - 1, w);
      assert Without(granted, i) == [granted[0]] + Without(granted[1..], i - 1);
      assert Without(granted, i)[1..] == Without(granted[1..], i - 1);
    } else {
      assert Without(granted, i) == granted[1..];
    }
  }

  lemma {:induction false} TotalAppend(granted: seq<Grant>, g: Grant, w: Window)
    ensures Total(granted + [g], w) == Total(granted, w) + (if g.Against() == w then g.delta else 0)
  {
    if granted != [] {
      assert (granted + [g])[1..] == granted[1..] + [g];
      TotalAppend(granted[1..], g, w);
    }
  }

  lemma StepKeepsInv(s: System, e: Event, start: Counters, cap: int)
    requires Enabled(s, e) && Timely(s, e, RETENTION) && Inv(s, start, cap)
    ensures Inv(Next(s, e, cap), start, cap)
  {
    if e.Decide? {
      assert WindowInv(s, start, cap, e.w);
    }
    hide WindowInv;
    forall w ensures WindowInv(Next(s, e, cap), start, cap, w) {
      assert WindowInv(s, start, cap, w);
      StepKeepsWindow(s, e, start, cap, w);
    }
  }

  /** Only a decision and what follows it need the sums over the calls in flight. */
  lemma StepKeepsWindow(s: System, e: Event, start: Counters, cap: int, w: Window)
    requires Enabled(s, e) && Timely(s, e, RETENTION) && WindowInv(s, start, cap, w)
    requires e.Decide? ==> s.locked[e.w].grant.Against() == e.w
    ensures WindowInv(Next(s, e, cap), start, cap, w)
  {
    match e
    case Decide(_) => DecideKeepsWindow(s, e, start, cap, w);
    case Release(_) => LeaveKeepsWindow(s, e, start, cap, w);
    case OuterRollback(_) => LeaveKeepsWindow(s, e, start, cap, w);
    case Upsert(_, _, _) =>
    case Abort(_) =>
    case Prune(_) =>
  }

  lemma DecideKeepsWindow(s: System, e: Event, start: Counters, cap: int, w: Window)
    requires e.Decide? && Enabled(s, e) && WindowInv(s, start, cap, w) && s.locked[e.w].grant.Against() == e.w
    ensures WindowInv(Next(s, e, cap), start, cap, w)
  {
    hide Total;
    TotalAppend(s.granted, s.locked[e.w].grant, w);
  }

  lemma LeaveKeepsWindow(s: System, e: Event, start: Counters, cap: int, w: Window)
    requires (e.Release? || e.OuterRollback?) && Enabled(s, e) && WindowInv(s, start, cap, w)
    ensures WindowInv(Next(s, e, cap), start, cap, w)
  {
    hide Total, Without;
    TotalWithout(s.granted, e.call, w);
    TotalAppend(s.released, s.granted[e.call], w);
  }

  /** A run from any table, in which no call counts against a window that began more than `lag` before the latest reading. */
  ghost predicate Run(states: seq<System>, events: seq<Event>, start: Counters, cap: int, lag: int) {
    && |states| == |events| + 1
    && (exists now :: states[0] == Initial(start, now))
    && forall i :: 0 <= i < |events| ==>
         && Enabled(states[i], events[i]) && Timely(states[i], events[i], lag)
         && states[i + 1] == Next(states[i], events[i], cap)
  }

  /**
   * In every reachable state: the counter of a window that is not a day old equals what was ever committed
   * to it, no counter exceeds the cap unless it started above it, and no more fragments were released in a
   * window than its counter admits, and never more than the cap.
   */
  lemma {:induction false} BudgetConserved(states: seq<System>, events: seq<Event>, start: Counters, cap: int, lag: int,
                                           n: nat, w: Window)
    requires Run(states, events, start, cap, lag) && lag <= RETENTION && n < |states|
    ensures var s := states[n];
      && Inv(s, start, cap)
      && (w.start >= s.clock - RETENTION ==>
            Count(s.table, w) == Count(s.ledger, w) >= Count(start, w) + Total(s.released, w))
      && (w in s.table ==> s.table[w] <= Ceiling(start, cap, w))
      && Total(s.released, w) <= Max(cap, 0)
  {
    if 0 < n {
      BudgetConserved(states, events, start, cap, lag, n - 1, w);
      assert Enabled(states[n - 1], events[n - 1]) && states[n - 1 + 1] == Next(states[n - 1], events[n - 1], cap);
      StepKeepsInv(states[n - 1], events[n - 1], start, cap);
    } else {
      InitialInv(start, cap, states[0].clock);
    }
    assert WindowInv(states[n], start, cap, w);
  }

  lemma InitialInv(start: Counters, cap: int, now: int)
    ensures Inv(Initial(start, now), start, cap)
  {
  }

  // ----- How late a call may be -----------------------------------------------------------------------

  /** No run with this much lag releases more than the cap in one window. */
  ghost predicate CapHolds(cap: int, lag: int) {
    forall states: seq<System>, events, start, n: nat, w ::
      Run(states, events, start, cap, lag) && n < |states| ==> Total(states[n].released, w) <= Max(cap, 0)
  }

  lemma RunBegins(start: Counters, cap: int, lag: int, now: int)
    ensures Run([Initial(start, now)], [], start, cap, lag)
  {
  }

  lemma RunExtends(states: seq<System>, events: seq<Event>, e: Event, start: Counters, cap: int, lag: int)
    requires Run(states, events, start, cap, lag)
    requires Enabled(states[|events|], e) && Timely(states[|events|], e, lag)
    ensures Run(states + [Next(states[|events|], e, cap)], events + [e], start, cap, lag)
  {
    hide Next, Enabled, Timely;
  }

  /** No call is under way, and this window has no counter. */
  predicate Idle(s: System, w: Window) {
    s.locked == map[] && s.granted == [] && w !in s.table
  }

  /** One call through, with a clock reading of 0: upsert, decision, release. */
  lemma CallThrough(s: System, apiKey: string, n: nat, cap: int) returns (asked: System, committed: System, out: System)
    requires Idle(s, Window(apiKey, 0)) && s.clock >= 0 && n <= cap
    ensures Enabled(s, Upsert(apiKey, n, 0)) && asked == Next(s, Upsert(apiKey, n, 0), cap)
    ensures Enabled(asked, Decide(Window(apiKey, 0))) && committed == Next(asked, Decide(Window(apiKey, 0)), cap)
    ensures Enabled(committed, Release(0)) && out == Next(committed, Release(0), cap)
    ensures out.table == s.table[Window(apiKey, 0) := n] && out.locked == map[] && out.granted == [] && out.clock == s.clock
    ensures Total(out.released, Window(apiKey, 0)) == Total(s.released, Window(apiKey, 0)) + n
  {
    var w := Window(apiKey, 0);
    asked := Next(s, Upsert(apiKey, n, 0), cap);
    assert asked.locked == map[w := Pending(Grant(apiKey, 0, n), n)];
    committed := Next(asked, Decide(w), cap);
    assert committed.granted == [Grant(apiKey, 0, n)];
    out := Next(committed, Release(0), cap);
    TotalAppend(s.released, Grant(apiKey, 0, n), w);
  }

  lemma RunWithCall(states: seq<System>, events: seq<Event>, apiKey: string, n: nat, cap: int, lag: int)
    returns (longer: seq<System>, more: seq<Event>)
    requires Run(states, events, map[], cap, lag)
    requires var s := states[|events|]; Idle(s, Window(apiKey, 0)) && 0 <= s.clock <= lag && n <= cap
    ensures Run(longer, more, map[], cap, lag)
    ensures var s, out, w := states[|events|], longer[|more|], Window(apiKey, 0);
      && out.table == s.table[w := n] && out.locked == map[] && out.granted == [] && out.clock == s.clock
      && Total(out.released, w) == Total(s.released, w) + n
  {
    var w := Window(apiKey, 0);
    var asked, committed, out := CallThrough(states[|events|], apiKey, n, cap);
    assert Timely(states[|events|], Upsert(apiKey, n, 0), lag);
    hide Next, Enabled, Timely, Count;
    RunExtends(states, events, Upsert(apiKey, n, 0), map[], cap, lag);
    longer, more := states + [asked], events + [Upsert(apiKey, n, 0)];
    RunExtends(longer, more, Decide(w), map[], cap, lag);
    longer, more := longer + [committed], more + [Decide(w)];
    RunExtends(longer, more, Release(0), map[], cap, lag);
    longer, more := longer + [out], more + [Release(0)];
  }

  /**
   * A day and an instant late: the whole budget of a window is committed and released, the window is pruned,
   * and a call whose clock reading is that old finds no counter and is granted the whole budget again.
   */
  lemma LateCallDoublesTheBudget(apiKey: string, cap: nat, lag: int) returns (states: seq<System>, events: seq<Event>)
    requires lag > RETENTION
    ensures Run(states, events, map[], cap, lag)
    ensures Total(states[|events|].released, Window(apiKey, 0)) == 2 * cap
  {
    var w := Window(apiKey, 0);
    RunBegins(map[], cap, lag, 0);
    states, events := RunWithCall([Initial(map[], 0)], [], apiKey, cap, cap, lag);
    var s := states[|events|];
    assert s.table == map[w := cap];
    var pruned := Next(s, Prune(lag), cap);
    assert pruned.table == map[] && Enabled(s, Prune(lag)) && pruned.clock == lag;
    hide Next, Run;
    RunExtends(states, events, Prune(lag), map[], cap, lag);
    states, events := states + [pruned], events + [Prune(lag)];
    states, events := RunWithCall(states, events, apiKey, cap, cap, lag);
  }

  /** The exact bound: the cap holds over every run if and only if no call is a day late, or nothing is ever granted. */
  lemma CapHoldsIffTimely(cap: int, lag: int)
    ensures CapHolds(cap, lag) <==> lag <= 86_400_000_000_000 || cap <= 0
  {
    if lag <= RETENTION {
      forall states: seq<System>, events, start, n: nat, w | Run(states, events, start, cap, lag) && n < |states|
        ensures Total(states[n].released, w) <= Max(cap, 0)
      {
        BudgetConserved(states, events, start, cap, lag, n, w);
      }
    } else if cap <= 0 {
      forall states: seq<System>, events, start, n: nat, w | Run(states, events, start, cap, lag) && n < |states|
        ensures Total(states[n].released, w) <= Max(cap, 0)
      {
        NothingGranted(states, events, start, cap, lag, n);
        EmptyTotal(states[n].released, w);
      }
    } else {
      var states, events := LateCallDoublesTheBudget("", cap, lag);
      assert |events| < |states| && Total(states[|events|].released, Window("", 0)) > Max(cap, 0);
    }
  }

  ghost predicate AllEmpty(grants: seq<Grant>) {
    forall g :: g in grants ==> g.delta == 0
  }

  lemma {:induction false} EmptyTotal(grants: seq<Grant>, w: Window)
    requires AllEmpty(grants)
    ensures Total(grants, w) == 0
  {
    if grants != [] {
      assert grants[0] in grants;
      EmptyTotal(grants[1..], w);
    }
  }

  /** With a cap of 0 or less only calls without fragments are let through. */
  ghost predicate OnlyEmptyGrants(s: System) {
    && AllEmpty(s.released) && AllEmpty(s.granted)
    && (forall w :: w in s.locked ==> s.locked[w].newTotal >= s.locked[w].grant.delta)
  }

  lemma {:induction false} NothingGranted(states: seq<System>, events: seq<Event>, start: Counters, cap: int, lag: int, n: nat)
    requires Run(states, events, start, cap, lag) && cap <= 0 && n < |states|
    ensures OnlyEmptyGrants(states[n])
  {
    hide OnlyEmptyGrants, Next;
    if 0 < n {
      NothingGranted(states, events, start, cap, lag, n - 1);
      assert Enabled(states[n - 1], events[n - 1]) && states[n - 1 + 1] == Next(states[n - 1], events[n - 1], cap);
      StepGrantsNothing(states[n - 1], events[n - 1], cap);
    } else {
      NothingGrantedYet(start, states[0].clock);
    }
  }

  lemma NothingGrantedYet(start: Counters, now: int)
    ensures OnlyEmptyGrants(Initial(start, now))
  {
  }

  lemma StepGrantsNothing(s: System, e: Event, cap: int)
    requires OnlyEmptyGrants(s) && Enabled(s, e) && cap <= 0
    ensures OnlyEmptyGrants(Next(s, e, cap))
  {
    if e.Release? || e.OuterRollback? {
      assert s.granted[e.call] in s.granted;
      forall g | g in Without(s.granted, e.call) ensures g in s.granted {
      }
    }
  }

  // ----- By the clock -----------------------------------------------------------------------------------

  /** The fragments of the calls of one key whose clock readings lie in one hour of the clock. */
  function TotalInHour(grants: seq<Grant>, apiKey: string, hour: int): nat {
    if grants == [] then 0
    else
      TotalInHour(grants[1..], apiKey, hour)
      + (if grants[0].apiKey == apiKey && hour * 3_600_000_000_000 <= grants[0].now < (hour + 1) * 3_600_000_000_000
         then grants[0].delta else 0)
  }

  lemma {:induction false} HourIsWindow(grants: seq<Grant>, apiKey: string, hour: int)
    ensures TotalInHour(grants, apiKey, hour) == Total(grants, Window(apiKey, hour * 3_600_000_000_000))
  {
    if grants != [] {
      hide HourStart;
      HourIsWindow(grants[1..], apiKey, hour);
      SameHour(grants[0].now, hour);
    }
  }

  /** In no run in which calls are at most a day late does a key get more than the cap within one hour of the clock. */
  lemma ClockHourConserved(states: seq<System>, events: seq<Event>, start: Counters, cap: int, lag: int,
                           n: nat, apiKey: string, hour: int)
    requires Run(states, events, start, cap, lag) && lag <= 86_400_000_000_000 && n < |states|
    ensures TotalInHour(states[n].released, apiKey, hour) <= Max(cap, 0)
  {
    hide Run, Inv, Total, TotalInHour;
    BudgetConserved(states, events, start, cap, lag, n, Window(apiKey, hour * 3_600_000_000_000));
    HourIsWindow(states[n].released, apiKey, hour);
  }
}
