/** The crawl runs inside the connector's life: a modification is reported by the first run that starts after it. */
module CrawlLife {
  import opened Prelude
  import opened Connector
  import opened FolderCrawl
  import opened CrawlRuns
  import opened CrawlWindows

  /** The life between state `m`, where a run begins, and state `n`, with what the run has listed and emitted so far. */
  ghost function History(root: FolderId, t0: int, events: seq<Event>, m: nat, n: nat): (s: CrawlState)
    requires m <= n <= |events| && Running(root, t0, events, m, n)
    ensures s.cursor == After(root, t0, events, n)
    decreases n
  {
    if n == m then CrawlState(After(root, t0, events, m), [], [])
    else
      var s := History(root, t0, events, m, n - 1);
      match events[n - 1]
      case Failure(_) => s
      case Success(_, listing) => CrawlCall(listing, s)
  }

  /** From state `m` up to `n` there is always a folder left to list. */
  ghost predicate Running(root: FolderId, t0: int, events: seq<Event>, m: nat, n: nat)
    requires m <= n <= |events|
  {
    forall k :: m <= k < n ==> After(root, t0, events, k).queue != []
  }

  /** Meanwhile the remote side does not change. */
  ghost predicate Steady(events: seq<Event>, m: nat, n: nat, g: Listing)
    requires m <= n <= |events|
  {
    forall k :: m <= k < n && events[k].Success? ==> events[k].listing == g
  }

  lemma {:induction false} RootIsKept(root: FolderId, t0: int, events: seq<Event>, n: nat)
    requires n <= |events|
    ensures After(root, t0, events, n).rootId == root
  {
    if 0 < n {
      RootIsKept(root, t0, events, n - 1);
    }
  }

  /** The first run that starts at or after an instant starts from nothing but the root. */
  lemma FirstRunBegins(root: FolderId, t0: int, events: seq<Event>, m: nat, time: int)
    requires FirstRunSince(root, t0, events, m, time)
    ensures var st := After(root, t0, events, m); BeginsRun(FromMs(st), root, CrawlState(st, [], []))
  {
    if 0 < m {
      var before := After(root, t0, events, m - 1);
      RootIsKept(root, t0, events, m - 1);
      assert before.runStartedMs < time;
      StepTimes(before, events[m - 1]);
    }
  }

  /** The states of the run, in a row. */
  ghost function Histories(root: FolderId, t0: int, events: seq<Event>, m: nat, n: nat): (states: seq<CrawlState>)
    requires m <= n <= |events| && Running(root, t0, events, m, n)
    ensures |states| == n - m + 1
    ensures forall i :: 0 <= i < |states| ==> states[i] == History(root, t0, events, m, m + i)
  {
    seq(n - m + 1, i requires 0 <= i < n - m + 1 => History(root, t0, events, m, m + i))
  }

  lemma HistoryIsRun(root: FolderId, t0: int, events: seq<Event>, m: nat, n: nat, g: Listing)
    requires m <= n <= |events| && Running(root, t0, events, m, n) && Steady(events, m, n, g)
    requires var st := After(root, t0, events, m); BeginsRun(FromMs(st), root, CrawlState(st, [], []))
    ensures CrawlRun(g, FromMs(After(root, t0, events, m)), root, Histories(root, t0, events, m, n))
  {
    var states := Histories(root, t0, events, m, n);
    forall i | 0 <= i < |states| - 1 ensures CrawlNext(g, states[i], states[i + 1]) {
      HistoryMoves(root, t0, events, m, m + i, n, g);
    }
  }

  lemma HistoryMoves(root: FolderId, t0: int, events: seq<Event>, m: nat, k: nat, n: nat, g: Listing)
    requires m <= k < n <= |events| && Running(root, t0, events, m, n) && Steady(events, m, n, g)
    ensures CrawlNext(g, History(root, t0, events, m, k), History(root, t0, events, m, k + 1))
  {
    hide Poll;
    var s := History(root, t0, events, m, k);
    assert After(root, t0, events, k).queue != [];
    assert Restamp(s, s.cursor.runStartedMs) == s;
  }

  /**
   * A file modified at `time`, even if stamped up to 60 000 ms early, is reported by the first run that
   * starts at or after it: the window of that run shows it, in a folder that the window lets the crawl reach.
   */
  lemma ModificationIsEmitted(root: FolderId, t0: int, events: seq<Event>, m: nat, n: nat, g: Listing,
                              time: int, stamp: int, f: FolderId, e: Entry)
    requires MonotoneClock(t0, events) && 0 <= stamp && time - 60_000 <= stamp
    requires FirstRunSince(root, t0, events, m, time)
    requires m <= n <= |events| && Running(root, t0, events, m, n) && After(root, t0, events, n).queue == []
    requires Steady(events, m, n, g)
    requires e.kind != Some("folder") && forall window :: window <= stamp ==> e in g(f, window)
    requires Reachable(g, FromMs(After(root, t0, events, m)), root, f)
    ensures exists c :: c in History(root, t0, events, m, n).emitted && Reports(c, e, f)
  {
    hide Reachable, After, CrawlRun;
    var from := FromMs(After(root, t0, events, m));
    FirstRunBegins(root, t0, events, m, time);
    HistoryIsRun(root, t0, events, m, n, g);
    NoGapBetweenRuns(root, t0, events, time, stamp, m, m);
    assert FileIn(g, from, root, f, e);
    var c := ChangeItem(e.id, Some(f), e.name.GetOr(""), e.status == Some("deleted"));
    assert Reports(c, e, f);
    EmittedIffFile(g, from, root, Histories(root, t0, events, m, n), c);
  }

  /** The entries of this id are shown only by windows that open at the stamp or before. */
  ghost predicate ShownUntil(g: Listing, id: string, stamp: int) {
    forall f, window, e :: e in g(f, window) && e.id == id ==> window <= stamp
  }

  /**
   * The window does not open earlier than it must: a file last stamped more than 60 000 ms before the
   * watermark of a run is not reported again by that run, at any point of it.
   */
  lemma OldFileIsNotEmittedAgain(root: FolderId, t0: int, events: seq<Event>, m: nat, n: nat, g: Listing, id: string,
                                 stamp: int, c: ChangeItem)
    requires m <= n <= |events| && Running(root, t0, events, m, n) && Steady(events, m, n, g)
    requires var st := After(root, t0, events, m);
      BeginsRun(FromMs(st), root, CrawlState(st, [], [])) && stamp < st.watermarkMs - 60_000
    requires ShownUntil(g, id, stamp)
    ensures c in History(root, t0, events, m, n).emitted ==> c.remoteId != id
  {
    var st := After(root, t0, events, m);
    var from := FromMs(st);
    assert stamp < from;
    HistoryIsRun(root, t0, events, m, n, g);
    hide After, CrawlRun, Reachable, FromMs;
    if c in History(root, t0, events, m, n).emitted {
      var f, e := EmittedIsFile(g, from, root, Histories(root, t0, events, m, n), c);
      assert e in g(f, from);
    }
  }
}
