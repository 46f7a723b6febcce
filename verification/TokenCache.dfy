/** The OAuth token cache: a wait-free fast path, one gate, a second look under the gate, and the refresh. */
module TokenCache {
  import opened Prelude
  import opened Connector

  // Instants and durations are milliseconds.
  const SECOND := 1000
  const SAFETY_SECS: nat := 300

  datatype CachedToken = CachedToken(accessToken: string, expiresAt: int)

  // ----- The refresh response -----------------------------------------------------------------------

  datatype OAuthResponse =
    | NotSent
    | NotJson
    | Body(success: bool, error: Option<string>, accessToken: Option<string>, expiresIn: Option<nat>)

  /** What the response is worth at the instant it is read. The error field is looked at before the status. */
  function Accept(response: OAuthResponse, now: int): Result<CachedToken, ConnectorError> {
    match response
    case NotSent => Err(Other)
    case NotJson => Err(Auth)
    case Body(success, error, accessToken, expiresIn) =>
      if error.Some? || !success then Err(Auth)
      else if accessToken.None? then Err(Other)
      else Ok(CachedToken(accessToken.value, now + Max(expiresIn.GetOr(3600) - SAFETY_SECS, 0) * SECOND))
  }

  /** Which responses bring a token, until when, and which error each of the others is. */
  lemma AcceptIff(response: OAuthResponse, now: int, token: CachedToken)
    ensures Accept(response, now) == Ok(token)
       <==> response.Body? && response.success && response.error.None? && response.accessToken == Some(token.accessToken)
            && var lifetime := response.expiresIn.GetOr(3600);
               token.expiresAt == if lifetime >= 300 then now + (lifetime - 300) * 1000 else now
    ensures Accept(response, now) == Err(Auth)
       <==> response.NotJson? || (response.Body? && (response.error.Some? || !response.success))
    ensures Accept(response, now).Ok? || Accept(response, now) == Err(Auth) || Accept(response, now) == Err(Other)
  {
  }

  predicate Fresh(cached: Option<CachedToken>, now: int) {
    cached.Some? && cached.value.expiresAt > now + SAFETY_SECS * SECOND
  }

  /** The margin is taken off twice, so a token is ever fresh, at the time it arrives or later, iff it lasts more than ten minutes. */
  lemma FreshIffLongLived(response: OAuthResponse, arrived: int)
    requires Accept(response, arrived).Ok?
    ensures (exists now :: arrived <= now && Fresh(Some(Accept(response, arrived).value), now))
       <==> response.expiresIn.GetOr(3600) > 600
    ensures forall now :: arrived <= now ==>
              (Fresh(Some(Accept(response, arrived).value), now)
               <==> now + 600_000 < arrived + response.expiresIn.GetOr(3600) * 1000)
  {
    var token := Accept(response, arrived).value;
    if response.expiresIn.GetOr(3600) > 600 {
      assert Fresh(Some(token), arrived);
    }
  }

  class ZohoTokenCache {
    var cached: Option<CachedToken>

    constructor ()
      ensures cached == None
    {
      cached := None;
    }

    method FastPath(now: int) returns (token: Option<string>)
      ensures token == if Fresh(cached, now) then Some(cached.value.accessToken) else None
    {
      if Fresh(cached, now) {
        return Some(cached.value.accessToken);
      }
      token := None;
    }

    /** With the gate taken: look again, and only then ask the server. */
    method UnderGate(now: int, response: OAuthResponse, arrived: int) returns (r: Result<string, ConnectorError>)
      modifies this
      ensures Fresh(old(cached), now) ==> r == Ok(old(cached).value.accessToken) && cached == old(cached)
      ensures !Fresh(old(cached), now) ==>
                match Accept(response, arrived)
                case Ok(token) => r == Ok(token.accessToken) && cached == Some(token)
                case Err(error) => r == Err(error) && cached == old(cached)
    {
      if Fresh(cached, now) {
        return Ok(cached.value.accessToken);
      }
      var refreshed := Accept(response, arrived);
      if refreshed.Err? {
        return Err(refreshed.error);
      }
      cached := Some(refreshed.value);
      r := Ok(refreshed.value.accessToken);
    }

    /** One call with nobody else about; the clock is read for each look and when the response is in. */
    method RefreshIfNeeded(first: int, second: int, response: OAuthResponse, arrived: int)
      returns (r: Result<string, ConnectorError>)
      requires first <= second <= arrived
      modifies this
      ensures Fresh(old(cached), first) ==> r == Ok(old(cached).value.accessToken) && cached == old(cached)
      ensures !Fresh(old(cached), first) ==>
                match Accept(response, arrived)
                case Ok(token) => r == Ok(token.accessToken) && cached == Some(token)
                case Err(error) => r == Err(error) && cached == old(cached)
    {
      var fast := FastPath(first);
      if fast.Some? {
        return Ok(fast.value);
      }
      r := UnderGate(second, response, arrived);
    }
  }

  // ----- Any number of tasks ------------------------------------------------------------------------

  type TaskId = nat

  datatype Phase =
    | Started
    | FastLoaded(seen: Option<CachedToken>)
    | Waiting
    | Holding
    | HeldLoaded(seen: Option<CachedToken>)
    | Refreshing
    | Finished(token: Option<string>)

  datatype System = System(clock: int, cached: Option<CachedToken>, gate: Option<TaskId>, tasks: map<TaskId, Phase>)

  /** Loading the cache and reading the clock are separate steps: other tasks may act in between. */
  datatype Event =
    | Start(task: TaskId)
    | LoadFast(task: TaskId)
    | CheckFast(task: TaskId, now: int)
    | Acquire(task: TaskId)
    | LoadHeld(task: TaskId)
    | CheckHeld(task: TaskId, now: int)
    | Finish(task: TaskId, response: OAuthResponse, now: int)
    | Cancel(task: TaskId)

  predicate HoldsGate(p: Phase) {
    p.Holding? || p.HeldLoaded? || p.Refreshing?
  }

  predicate Enabled(s: System, e: Event) {
    if e.Start? then e.task !in s.tasks
    else
      && e.task in s.tasks
      && var p := s.tasks[e.task];
         match e
         case LoadFast(_) => p.Started?
         case CheckFast(_, now) => p.FastLoaded? && s.clock <= now
         case Acquire(_) => p.Waiting? && s.gate.None?
         case LoadHeld(_) => p.Holding?
         case CheckHeld(_, now) => p.HeldLoaded? && s.clock <= now
         case Finish(_, _, now) => p.Refreshing? && s.clock <= now
         case Cancel(_) => !p.Finished?
  }

  function Next(s: System, e: Event): System
    requires Enabled(s, e)
  {
    match e
    case Start(t) => s.(tasks := s.tasks[t := Started])
    case LoadFast(t) => s.(tasks := s.tasks[t := FastLoaded(s.cached)])
    case CheckFast(t, now) =>
      var seen := s.tasks[t].seen;
      s.(clock := now, tasks := s.tasks[t := if Fresh(seen, now) then Finished(Some(seen.value.accessToken)) else Waiting])
    case Acquire(t) => s.(gate := Some(t), tasks := s.tasks[t := Holding])
    case LoadHeld(t) => s.(tasks := s.tasks[t := HeldLoaded(s.cached)])
    case CheckHeld(t, now) =>
      var seen := s.tasks[t].seen;
      if Fresh(seen, now) then
        s.(clock := now, gate := None, tasks := s.tasks[t := Finished(Some(seen.value.accessToken))])
      else s.(clock := now, tasks := s.tasks[t := Refreshing])
    case Finish(t, response, now) =>
      (match Accept(response, now)
       case Ok(token) => System(now, Some(token), None, s.tasks[t := Finished(Some(token.accessToken))])
       case Err(_) => s.(clock := now, gate := None, tasks := s.tasks[t := Finished(None)]))
    case Cancel(t) =>
      s.(gate := if HoldsGate(s.tasks[t]) then None else s.gate, tasks := s.tasks[t := Finished(None)])
  }

  /** The steps of one task past the gate do to the cache what `UnderGate` does to the field. */
  lemma HeldStepsAreUnderGate(s: System, t: TaskId, now: int, response: OAuthResponse, arrived: int)
    requires t in s.tasks && s.tasks[t].Holding? && s.clock <= now <= arrived
    ensures var looked := Next(Next(s, LoadHeld(t)), CheckHeld(t, now));
      if Fresh(s.cached, now) then
        looked.cached == s.cached && looked.gate == None && looked.tasks[t] == Finished(Some(s.cached.value.accessToken))
      else
        Enabled(looked, Finish(t, response, arrived))
        && var after := Next(looked, Finish(t, response, arrived));
           after.gate == None
           && match Accept(response, arrived)
              case Ok(token) => after.cached == Some(token) && after.tasks[t] == Finished(Some(token.accessToken))
              case Err(_) => after.cached == s.cached && after.tasks[t] == Finished(None)
  {
  }

  /** The steps of one task before the gate serve what `FastPath` serves, and leave the rest to the gate. */
  lemma FastStepsAreFastPath(s: System, t: TaskId, now: int)
    requires t in s.tasks && s.tasks[t].Started? && s.clock <= now
    ensures var looked := Next(Next(s, LoadFast(t)), CheckFast(t, now));
      && looked.cached == s.cached && looked.gate == s.gate
      && looked.tasks[t] == if Fresh(s.cached, now) then Finished(Some(s.cached.value.accessToken)) else Waiting
  {
  }

  /** The gate is held by exactly the task that is past it, and what that task has loaded is still what the cache holds. */
  ghost predicate Inv(s: System) {
    && (forall t :: t in s.tasks ==> (HoldsGate(s.tasks[t]) <==> s.gate == Some(t)))
    && (forall t :: t in s.tasks && s.tasks[t].HeldLoaded? ==> s.tasks[t].seen == s.cached)
    && (s.gate.Some? ==> s.gate.value in s.tasks)
  }

  lemma StepKeepsInv(s: System, e: Event)
    requires Enabled(s, e) && Inv(s)
    ensures Inv(Next(s, e)) && s.clock <= Next(s, e).clock
  {
    hide Accept, Fresh;
  }

  ghost predicate Run(states: seq<System>, events: seq<Event>) {
    && |states| == |events| + 1
    && states[0].cached == None && states[0].gate == None && states[0].tasks == map[]
    && forall i :: 0 <= i < |events| ==> Enabled(states[i], events[i]) && states[i + 1] == Next(states[i], events[i])
  }

  lemma {:induction false} RunInv(states: seq<System>, events: seq<Event>, i: nat)
    requires Run(states, events) && i < |states|
    ensures Inv(states[i])
  {
    hide Enabled, Next, Inv;
    if i == 0 {
      EmptyInv(states[0]);
    } else {
      RunInv(states, events, i - 1);
      assert states[i - 1 + 1] == Next(states[i - 1], events[i - 1]);
      StepKeepsInv(states[i - 1], events[i - 1]);
    }
  }

  lemma EmptyInv(s: System)
    requires s.gate == None && s.tasks == map[]
    ensures Inv(s)
  {
  }

  lemma {:induction false} ClockNeverGoesBack(states: seq<System>, events: seq<Event>, i: nat, j: nat)
    requires Run(states, events) && i <= j < |states|
    ensures states[i].clock <= states[j].clock
  {
    hide Enabled, Next, Inv;
    if i < j {
      ClockNeverGoesBack(states, events, i, j - 1);
      RunInv(states, events, j - 1);
      assert states[j - 1 + 1] == Next(states[j - 1], events[j - 1]);
      StepKeepsInv(states[j - 1], events[j - 1]);
    }
  }

  /** At most one refresh is in flight. */
  lemma SingleFlight(states: seq<System>, events: seq<Event>, i: nat, t: TaskId, u: TaskId)
    requires Run(states, events) && i < |states|
    requires t in states[i].tasks && states[i].tasks[t].Refreshing?
    requires u in states[i].tasks && states[i].tasks[u].Refreshing?
    ensures t == u
  {
    hide Run;
    RunInv(states, events, i);
  }

  /** The event stores a new token. */
  predicate Stores(e: Event) {
    e.Finish? && Accept(e.response, e.now).Ok?
  }

  /** The event is the look under the gate that found nothing fresh. */
  predicate FailedCheck(s: System, e: Event, t: TaskId) {
    e.CheckHeld? && e.task == t && !Fresh(s.cached, e.now)
  }

  lemma OnlyStoresChangeTheCache(s: System, e: Event)
    requires Enabled(s, e) && !Stores(e)
    ensures Next(s, e).cached == s.cached
  {
    hide Fresh;
  }

  /** While one task refreshes, no other event can be a store. */
  lemma RefreshingExcludesStores(s: System, e: Event, t: TaskId)
    requires Enabled(s, e) && Inv(s) && t in Next(s, e).tasks && Next(s, e).tasks[t].Refreshing?
    ensures !Stores(e) && (FailedCheck(s, e, t) || (t in s.tasks && s.tasks[t].Refreshing?))
  {
    hide Accept;
    if e.Finish? && t in s.tasks && s.tasks[t].Refreshing? {
      assert s.gate == Some(t) && s.gate == Some(e.task);
    }
  }

  ghost predicate QuietSince(states: seq<System>, events: seq<Event>, k: nat, j: nat, t: TaskId)
    requires |states| == |events| + 1
  {
    && k < j <= |events| && FailedCheck(states[k], events[k], t)
    && forall m :: k <= m < j ==> !Stores(events[m])
  }

  /** A task that refreshes did look under the gate, found nothing fresh, and nothing was stored since. */
  lemma {:induction false} RefreshWasNeeded(states: seq<System>, events: seq<Event>, j: nat, t: TaskId) returns (k: nat)
    requires Run(states, events) && j < |states| && t in states[j].tasks && states[j].tasks[t].Refreshing?
    ensures QuietSince(states, events, k, j, t)
  {
    hide Enabled, Next, Inv, Fresh, Accept;
    assert 0 < j;
    RunInv(states, events, j - 1);
    assert Enabled(states[j - 1], events[j - 1]) && states[j - 1 + 1] == Next(states[j - 1], events[j - 1]);
    RefreshingExcludesStores(states[j - 1], events[j - 1], t);
    if FailedCheck(states[j - 1], events[j - 1], t) {
      k := j - 1;
    } else {
      k := RefreshWasNeeded(states, events, j - 1, t);
    }
  }

  lemma {:induction false} CacheSteady(states: seq<System>, events: seq<Event>, i: nat, j: nat)
    requires Run(states, events) && i <= j < |states|
    requires forall m :: i <= m < j ==> !Stores(events[m])
    ensures states[j].cached == states[i].cached
  {
    hide Enabled, Next, Stores;
    if i < j {
      CacheSteady(states, events, i, j - 1);
      assert Enabled(states[j - 1], events[j - 1]) && states[j - 1 + 1] == Next(states[j - 1], events[j - 1]);
      OnlyStoresChangeTheCache(states[j - 1], events[j - 1]);
    }
  }

  /**
   * Between two successful refreshes there is an instant at which the token stored by the first (or by a
   * later one before the second) failed the freshness test: after `k`, the cache did not change until the second.
   */
  lemma StoresAreSeparated(states: seq<System>, events: seq<Event>, i: nat, j: nat) returns (k: nat)
    requires Run(states, events) && i < j < |events| && Stores(events[i]) && Stores(events[j])
    ensures i < k < j && FailedCheck(states[k], events[k], events[j].task)
    ensures states[j].cached == states[k].cached
  {
    hide Next, Fresh, Accept, FailedCheck;
    assert Enabled(states[j], events[j]);
    k := RefreshWasNeeded(states, events, j, events[j].task);
    CacheSteady(states, events, k, j);
  }

  /** A token that is still fresh when the run ends was never replaced. */
  lemma {:induction false} FreshTokenIsKept(states: seq<System>, events: seq<Event>, i: nat, j: nat)
    requires Run(states, events) && i < j <= |events| && Stores(events[i])
    requires Fresh(states[i + 1].cached, states[|events|].clock)
    ensures forall m :: i < m < j ==> !Stores(events[m])
  {
    assert |states| == |events| + 1;
    hide Next, Accept, Run;
    if i + 1 < j {
      FreshTokenIsKept(states, events, i, j - 1);
      if Stores(events[j - 1]) {
        var k := StoresAreSeparated(states, events, i, j - 1);
        CacheSteady(states, events, i + 1, k);
        EventTime(states, events, k);
        assert false;
      }
    }
  }

  lemma EventTime(states: seq<System>, events: seq<Event>, k: nat)
    requires Run(states, events) && k < |events| && events[k].CheckHeld?
    ensures events[k].now <= states[|events|].clock
  {
    hide Fresh, Accept;
    assert states[k + 1] == Next(states[k], events[k]);
    ClockNeverGoesBack(states, events, k + 1, |events|);
  }

  ghost function StoreCount(events: seq<Event>, n: nat): nat
    requires n <= |events|
  {
    if n == 0 then 0 else StoreCount(events, n - 1) + (if Stores(events[n - 1]) then 1 else 0)
  }

  /** The first token, if it stays fresh for the whole run, costs exactly one successful call. */
  lemma {:induction false} OneCallSuffices(states: seq<System>, events: seq<Event>, i: nat, n: nat)
    requires Run(states, events) && i < n <= |events| && Stores(events[i]) && StoreCount(events, i) == 0
    requires Fresh(states[i + 1].cached, states[|events|].clock)
    ensures StoreCount(events, n) == 1
  {
    hide Run, Fresh, Stores;
    if i + 1 < n {
      OneCallSuffices(states, events, i, n - 1);
      FreshTokenIsKept(states, events, i, n);
    }
  }

  // ----- What the cache serves ------------------------------------------------------------------------

  /** The token came with the response of event `j`. */
  predicate CameWith(events: seq<Event>, j: nat, token: CachedToken)
    requires j < |events|
  {
    Stores(events[j]) && Accept(events[j].response, events[j].now) == Ok(token)
  }

  ghost predicate StoredBefore(events: seq<Event>, i: nat, seen: Option<CachedToken>)
    requires i <= |events|
  {
    seen.Some? ==> exists j: nat :: j < i && CameWith(events, j, seen.value)
  }

  ghost predicate SeenStored(s: System, events: seq<Event>, i: nat, t: TaskId)
    requires i <= |events|
  {
    t in s.tasks && (s.tasks[t].FastLoaded? || s.tasks[t].HeldLoaded?) ==> StoredBefore(events, i, s.tasks[t].seen)
  }

  lemma StillStored(events: seq<Event>, i: nat, seen: Option<CachedToken>)
    requires i < |events| && StoredBefore(events, i, seen)
    ensures StoredBefore(events, i + 1, seen)
  {
    hide CameWith;
  }

  /** Whatever is cached, and whatever a task has loaded, came with an earlier response. */
  lemma {:induction false} CachedWasStored(states: seq<System>, events: seq<Event>, i: nat, t: TaskId)
    requires Run(states, events) && i < |states|
    ensures StoredBefore(events, i, states[i].cached) && SeenStored(states[i], events, i, t)
  {
    hide StoredBefore, Accept, Fresh, CameWith;
    if i == 0 {
      NothingStored(events);
    } else {
      var s, e := states[i - 1], events[i - 1];
      assert Enabled(s, e) && states[i - 1 + 1] == Next(s, e);
      CachedWasStored(states, events, i - 1, t);
      StillStored(events, i - 1, s.cached);
      if t in s.tasks && (s.tasks[t].FastLoaded? || s.tasks[t].HeldLoaded?) {
        StillStored(events, i - 1, s.tasks[t].seen);
      }
      if Stores(e) {
        JustStored(events, i - 1);
      }
    }
  }

  lemma NothingStored(events: seq<Event>)
    ensures StoredBefore(events, 0, None)
  {
  }

  lemma JustStored(events: seq<Event>, i: nat)
    requires i < |events| && Stores(events[i])
    ensures StoredBefore(events, i + 1, Some(Accept(events[i].response, events[i].now).value))
  {
    assert CameWith(events, i, Accept(events[i].response, events[i].now).value);
  }

  /**
   * A task that is served without a refresh, on the fast path or under the gate, gets a token that an earlier
   * response brought and that has more than ten minutes of its own lifetime left.
   */
  lemma ServedTokenIsValid(states: seq<System>, events: seq<Event>, i: nat, token: string) returns (j: nat)
    requires Run(states, events) && i < |events| && (events[i].CheckFast? || events[i].CheckHeld?)
    requires events[i].task in states[i + 1].tasks && states[i + 1].tasks[events[i].task] == Finished(Some(token))
    ensures j < i && Stores(events[j])
    ensures events[j].response.accessToken == Some(token)
    ensures events[i].now + 600_000 < events[j].now + events[j].response.expiresIn.GetOr(3600) * 1000
  {
    var s, t, now := states[i], events[i].task, events[i].now;
    assert Enabled(s, events[i]) && states[i + 1] == Next(s, events[i]);
    var seen := s.tasks[t].seen;
    assert Fresh(seen, now) && seen.value.accessToken == token;
    CachedWasStored(states, events, i, t);
    j :| 0 <= j < i && CameWith(events, j, seen.value);
    StoreTime(states, events, j, i);
    FreshIffLongLived(events[j].response, events[j].now);
  }

  lemma StoreTime(states: seq<System>, events: seq<Event>, j: nat, i: nat)
    requires Run(states, events) && j < i < |events| && Stores(events[j]) && (events[i].CheckFast? || events[i].CheckHeld?)
    ensures events[j].now <= events[i].now
  {
    hide Fresh;
    assert Enabled(states[i], events[i]);
    assert states[j + 1] == Next(states[j], events[j]);
    ClockNeverGoesBack(states, events, j + 1, i);
  }
}
