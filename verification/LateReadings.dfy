/** How far out of order the clock readings of one address may reach its lock: not at all, unless the limit is one. */
module LateReadings {
  import opened Prelude
  import opened RateLimiter

  /** One address: its deque, and every request it was ever granted. */
  datatype Address = Address(deque: seq<int>, log: seq<int>)

  /** What `DoFilter` does to its address. */
  function Serve(a: Address, now: int, max: int): Address {
    var times := Trim(a.deque, now - WINDOW_MILLIS);
    if |times| < max then Address(times + [now], a.log + [now]) else Address(times, a.log)
  }

  function ServeAll(readings: seq<int>, max: int): Address {
    if readings == [] then Address([], [])
    else Serve(ServeAll(readings[..|readings| - 1], max), readings[|readings| - 1], max)
  }

  lemma ServeOneMore(readings: seq<int>, now: int, max: int)
    ensures ServeAll(readings + [now], max) == Serve(ServeAll(readings, max), now, max)
  {
    assert (readings + [now])[..|readings|] == readings;
  }

  /** Every reading is at most `lag` behind any earlier one. */
  ghost predicate Late(readings: seq<int>, lag: nat) {
    forall i, j :: 0 <= i < j < |readings| ==> readings[i] - lag <= readings[j]
  }

  ghost predicate BoundHolds(max: int, lag: nat) {
    forall readings :: Late(readings, lag) ==> WindowBounded(ServeAll(readings, max).log, max)
  }

  // ----- In order -------------------------------------------------------------------------------------

  lemma ServeInOrder(a: Address, now: int, max: int)
    requires Summary(a.deque, a.log, now, now) && WindowBounded(a.log, max)
    ensures var b := Serve(a, now, max); Summary(b.deque, b.log, now, now) && WindowBounded(b.log, max)
  {
    var times := Trim(a.deque, now - WINDOW_MILLIS);
    hide Summary, WindowBounded, Trim;
    TrimSummary(a.deque, a.log, now);
    LogBefore(times, a.log, now);
    if |times| < max {
      AcceptKeepsBound(a.log, now, max);
      Record(times, a.log, now);
    }
  }

  lemma NothingServed(now: int, max: int)
    ensures Summary([], [], now, now) && WindowBounded([], max)
  {
  }

  lemma {:induction false} InOrderIsBounded(readings: seq<int>, max: int, now: int)
    requires Late(readings, 0) && (readings != [] ==> readings[|readings| - 1] <= now)
    ensures var a := ServeAll(readings, max); Summary(a.deque, a.log, now, now) && WindowBounded(a.log, max)
  {
    if readings == [] {
      NothingServed(now, max);
    } else {
      hide Summary, WindowBounded, Serve;
      var front, last := readings[..|readings| - 1], readings[|readings| - 1];
      InOrderIsBounded(front, max, last);
      ServeInOrder(ServeAll(front, max), last, max);
      var a := ServeAll(readings, max);
      TimePasses(a.deque, a.log, last, last, now);
    }
  }

  // ----- A limit of one -------------------------------------------------------------------------------

  /** Each entry is more than a window after the one before. */
  ghost predicate Spaced(log: seq<int>) {
    forall i, j :: 0 <= i < j < |log| ==> log[i] + WINDOW_MILLIS < log[j]
  }

  lemma {:induction false} NoneBefore(log: seq<int>, lo: int, hi: int)
    requires forall i :: 0 <= i < |log| ==> log[i] < lo
    ensures CountIn(log, lo, hi) == 0
  {
    if log != [] {
      NoneBefore(log[..|log| - 1], lo, hi);
    }
  }

  lemma {:induction false} SpacedIsBounded(log: seq<int>, lo: int, hi: int)
    requires Spaced(log) && hi <= lo + WINDOW_MILLIS
    ensures CountIn(log, lo, hi) <= 1
  {
    if log != [] {
      var front, last := log[..|log| - 1], log[|log| - 1];
      SpacedIsBounded(front, lo, hi);
      if lo <= last <= hi {
        forall i | 0 <= i < |front| ensures front[i] < lo {
          assert log[i] + WINDOW_MILLIS < log[|log| - 1];
        }
        NoneBefore(front, lo, hi);
      }
    }
  }

  /** The deque is the last granted request, and the grants are spaced. */
  ghost predicate LastOnly(a: Address, max: int) {
    && Spaced(a.log) && (max <= 0 ==> a.log == [])
    && a.deque == (if a.log == [] then [] else [a.log[|a.log| - 1]])
  }

  lemma SpacedSnoc(log: seq<int>, now: int)
    requires Spaced(log) && (log != [] ==> log[|log| - 1] + WINDOW_MILLIS < now)
    ensures Spaced(log + [now])
  {
    forall i | 0 <= i < |log| ensures log[i] + WINDOW_MILLIS < now {
      assert i < |log| - 1 ==> log[i] + WINDOW_MILLIS < log[|log| - 1];
    }
  }

  lemma ServeLastOnly(a: Address, now: int, max: int)
    requires LastOnly(a, max) && max <= 1
    ensures LastOnly(Serve(a, now, max), max)
  {
    if a.log == [] || a.log[|a.log| - 1] < now - WINDOW_MILLIS {
      assert Trim(a.deque, now - WINDOW_MILLIS) == [];
      SpacedSnoc(a.log, now);
    } else {
      assert Trim(a.deque, now - WINDOW_MILLIS) == a.deque;
    }
  }

  lemma {:induction false} LimitOfOne(readings: seq<int>, max: int)
    requires max <= 1
    ensures LastOnly(ServeAll(readings, max), max)
  {
    hide Serve, Spaced;
    if readings == [] {
      SpacedNothing();
    } else {
      LimitOfOne(readings[..|readings| - 1], max);
      ServeLastOnly(ServeAll(readings[..|readings| - 1], max), readings[|readings| - 1], max);
    }
  }

  lemma SpacedNothing()
    ensures Spaced([])
  {
  }

  lemma LimitOfOneIsBounded(readings: seq<int>, max: int)
    requires max <= 1
    ensures WindowBounded(ServeAll(readings, max).log, max)
  {
    LimitOfOne(readings, max);
    var log := ServeAll(readings, max).log;
    hide ServeAll, Spaced;
    forall lo, hi | hi <= lo + WINDOW_MILLIS ensures CountIn(log, lo, hi) <= Max(max, 0) {
      SpacedIsBounded(log, lo, hi);
    }
  }

  // ----- One millisecond late -------------------------------------------------------------------------

  function Zeros(n: nat): (s: seq<int>)
    ensures |s| == n && forall i :: 0 <= i < n ==> s[i] == 0
  {
    seq(n, _ => 0)
  }

  lemma {:induction false} CountZeros(n: nat)
    ensures CountIn(Zeros(n), 0, WINDOW_MILLIS) == n
  {
    if 0 < n {
      CountZeros(n - 1);
      assert Zeros(n)[..n - 1] == Zeros(n - 1);
    }
  }

  lemma {:induction false} TrimZeros(n: nat, cutoff: int)
    ensures Trim(Zeros(n), cutoff) == if 0 < cutoff then [] else Zeros(n)
  {
    if 0 < n {
      TrimZeros(n - 1, cutoff);
      assert Zeros(n)[1..] == Zeros(n - 1);
    }
  }

  lemma {:induction false} ServeZeros(n: nat, max: int)
    requires n <= max
    ensures ServeAll(Zeros(n), max) == Address(Zeros(n), Zeros(n))
  {
    if 0 < n {
      ServeZeros(n - 1, max);
      TrimZeros(n - 1, -WINDOW_MILLIS);
      assert Zeros(n)[..n - 1] == Zeros(n - 1) && Zeros(n - 1) + [0] == Zeros(n);
    }
  }

  /**
   * One reading a millisecond late is enough: the limit is used up at 0, a request at 60 001 clears the
   * deque, and one that read 60 000 finds room in the window from 0 to 60 000.
   */
  lemma LateReadingOverfills(max: int) returns (readings: seq<int>)
    requires max >= 2
    ensures Late(readings, 1) && !WindowBounded(ServeAll(readings, max).log, max)
  {
    var early, next, late := Zeros(max), WINDOW_MILLIS + 1, WINDOW_MILLIS;
    readings := early + [next] + [late];
    OneLate(early, next, late);
    ServedLog(max);
    hide ServeAll, CountIn, Late, WindowBounded;
    CountZeros(max);
    CountOneMore(early, next, 0, WINDOW_MILLIS);
    CountOneMore(early + [next], late, 0, WINDOW_MILLIS);
    Overfull(readings, 0, WINDOW_MILLIS, max);
  }

  lemma OneLate(early: seq<int>, next: int, late: int)
    requires (forall i :: 0 <= i < |early| ==> early[i] == 0) && 0 <= late && next == late + 1
    ensures Late(early + [next] + [late], 1)
  {
  }

  lemma Overfull(log: seq<int>, lo: int, hi: int, max: int)
    requires hi <= lo + WINDOW_MILLIS && CountIn(log, lo, hi) > Max(max, 0)
    ensures !WindowBounded(log, max)
  {
    hide CountIn;
  }

  lemma CountOneMore(log: seq<int>, t: int, lo: int, hi: int)
    ensures CountIn(log + [t], lo, hi) == CountIn(log, lo, hi) + (if lo <= t <= hi then 1 else 0)
  {
    assert (log + [t])[..|log|] == log;
  }

  /** All of these requests are granted. */
  lemma ServedLog(max: nat)
    requires max >= 2
    ensures var readings := Zeros(max) + [WINDOW_MILLIS + 1] + [WINDOW_MILLIS]; ServeAll(readings, max).log == readings
  {
    var early, next, late := Zeros(max), WINDOW_MILLIS + 1, WINDOW_MILLIS;
    ServeZeros(max, max);
    TrimZeros(max, 1);
    ServeOneMore(early, next, max);
    ServeOneMore(early + [next], late, max);
    TrimStep([next], 0);
    hide ServeAll, Trim;
    assert ServeAll(early + [next], max) == Address([] + [next], early + [next]);
  }

  /** The exact condition under which no closed window ever holds more than the limit. */
  lemma BoundHoldsIffInOrder(max: int, lag: nat)
    ensures BoundHolds(max, lag) <==> lag == 0 || max <= 1
  {
    if max <= 1 {
      forall readings ensures WindowBounded(ServeAll(readings, max).log, max) {
        LimitOfOneIsBounded(readings, max);
      }
    } else if lag == 0 {
      forall readings | Late(readings, lag) ensures WindowBounded(ServeAll(readings, max).log, max) {
        InOrderIsBounded(readings, max, if readings == [] then 0 else readings[|readings| - 1]);
      }
    } else {
      var readings := LateReadingOverfills(max);
      assert Late(readings, lag);
    }
  }
}
