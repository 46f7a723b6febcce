/** The life of the connector over any number of runs: query windows leave no gap. */
module CrawlWindows {
  import opened Prelude
  import opened FolderCrawl

  /** One poll at a clock reading: it fails, or it succeeds against whatever the remote side holds at that moment. */
  datatype Event = Failure(clockMs: int) | Success(clockMs: int, listing: Listing)

  function Step(st: ZohoCursor, e: Event): ZohoCursor {
    match e
    case Failure(_) => st
    case Success(clockMs, listing) => Poll(listing, st, clockMs).nextCursor
  }

  /** The saved cursor after the first `n` events of a life that began at `t0`. */
  function After(root: FolderId, t0: int, events: seq<Event>, n: nat): ZohoCursor
    requires n <= |events|
  {
    if n == 0 then Bootstrap(root, t0) else Step(After(root, t0, events, n - 1), events[n - 1])
  }

  function ClockAt(t0: int, events: seq<Event>, n: nat): int
    requires n <= |events|
  {
    if n == 0 then t0 else events[n - 1].clockMs
  }

  /** The clock starts at or after the epoch and never goes back. */
  ghost predicate MonotoneClock(t0: int, events: seq<Event>) {
    && 0 <= t0
    && forall n :: 0 <= n < |events| ==> ClockAt(t0, events, n) <= ClockAt(t0, events, n + 1)
  }

  /** Event `n` finds the queue empty and starts the next run. */
  predicate Restarts(root: FolderId, t0: int, events: seq<Event>, n: nat)
    requires n < |events|
  {
    events[n].Success? && After(root, t0, events, n).queue == []
  }

  lemma StepTimes(st: ZohoCursor, e: Event)
    ensures var st' := Step(st, e);
      if e.Success? && st.queue == []
      then st'.watermarkMs == st.runStartedMs && st'.runStartedMs == e.clockMs
      else st'.watermarkMs == st.watermarkMs && st'.runStartedMs == st.runStartedMs
  {
  }

  /** The watermark is never ahead of the run's start, and that never ahead of the clock. */
  lemma {:induction false} TimesOrdered(root: FolderId, t0: int, events: seq<Event>, n: nat)
    requires MonotoneClock(t0, events) && n <= |events|
    ensures var st := After(root, t0, events, n);
            0 <= st.watermarkMs <= st.runStartedMs <= ClockAt(t0, events, n)
  {
    if 0 < n {
      TimesOrdered(root, t0, events, n - 1);
      assert ClockAt(t0, events, n - 1) <= ClockAt(t0, events, n - 1 + 1);
      StepTimes(After(root, t0, events, n - 1), events[n - 1]);
    }
  }

  lemma {:induction false} WatermarkNeverDecreases(root: FolderId, t0: int, events: seq<Event>, m: nat, n: nat)
    requires MonotoneClock(t0, events) && m <= n <= |events|
    ensures After(root, t0, events, m).watermarkMs <= After(root, t0, events, n).watermarkMs
    ensures After(root, t0, events, m).runStartedMs <= After(root, t0, events, n).runStartedMs
    decreases n
  {
    if m < n {
      WatermarkNeverDecreases(root, t0, events, m, n - 1);
      TimesOrdered(root, t0, events, n - 1);
      assert ClockAt(t0, events, n - 1) <= ClockAt(t0, events, n - 1 + 1);
      StepTimes(After(root, t0, events, n - 1), events[n - 1]);
    }
  }

  lemma {:induction false} WindowFixedWithinRun(root: FolderId, t0: int, events: seq<Event>, m: nat, n: nat)
    requires m <= n <= |events|
    requires forall k :: m <= k < n ==> !Restarts(root, t0, events, k)
    ensures FromMs(After(root, t0, events, n)) == FromMs(After(root, t0, events, m))
    decreases n
  {
    if m < n {
      WindowFixedWithinRun(root, t0, events, m, n - 1);
      assert !Restarts(root, t0, events, n - 1);
      StepTimes(After(root, t0, events, n - 1), events[n - 1]);
    }
  }

  /** State `m` is the first one whose run started at or after `time`. */
  ghost predicate FirstRunSince(root: FolderId, t0: int, events: seq<Event>, m: nat, time: int) {
    && m <= |events|
    && time <= After(root, t0, events, m).runStartedMs
    && forall k :: 0 <= k < m ==> After(root, t0, events, k).runStartedMs < time
  }

  /**
   * A modification made at `time`, and stamped anywhere from 60 000 ms early on, lies inside every
   * query window of the first run that starts at or after it.
   */
  lemma NoGapBetweenRuns(root: FolderId, t0: int, events: seq<Event>, time: int, stamp: int, m: nat, n: nat)
    requires MonotoneClock(t0, events)
    requires 0 <= stamp && time - 60_000 <= stamp
    requires FirstRunSince(root, t0, events, m, time)
    requires m <= n <= |events| && forall k :: m <= k < n ==> !Restarts(root, t0, events, k)
    ensures FromMs(After(root, t0, events, n)) <= stamp
  {
    WindowFixedWithinRun(root, t0, events, m, n);
    if 0 < m {
      assert After(root, t0, events, m - 1).runStartedMs < time;
      StepTimes(After(root, t0, events, m - 1), events[m - 1]);
    }
  }
}
