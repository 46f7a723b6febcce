/** Overlapping character windows: how a document text is cut into chunks. */
module Chunker {
  import opened Prelude

  const CHUNK_CHARS: nat := 2048
  const OVERLAP_CHARS: nat := 200
  const STRIDE_CHARS: nat := CHUNK_CHARS - OVERLAP_CHARS

  /** How many windows a text of `n` characters has: one, plus one for each stride past the first window. */
  function WindowCount(n: nat): (m: nat)
    ensures 1 <= m
  {
    if n <= CHUNK_CHARS then 1 else 1 + (n - CHUNK_CHARS + STRIDE_CHARS - 1) / STRIDE_CHARS
  }

  function WindowStart(k: nat): nat {
    STRIDE_CHARS * k
  }

  function WindowEnd(n: nat, k: nat): int {
    Min(STRIDE_CHARS * k + CHUNK_CHARS, n)
  }

  lemma WindowInRange(n: nat, k: nat)
    requires k < WindowCount(n)
    ensures WindowStart(k) <= WindowEnd(n, k) <= n
    ensures WindowEnd(n, k) == n <==> k == WindowCount(n) - 1
  {
  }

  function Window(text: string, k: nat): string
    requires k < WindowCount(|text|)
  {
    WindowInRange(|text|, k);
    text[WindowStart(k)..WindowEnd(|text|, k)]
  }

  /** The first `m` windows, without the blank ones. */
  function Chunks(text: string, m: nat): seq<string>
    requires m <= WindowCount(|text|)
  {
    if m == 0 then []
    else if Blank(Window(text, m - 1)) then Chunks(text, m - 1)
    else Chunks(text, m - 1) + [Window(text, m - 1)]
  }

  method ChunkByChars(text: string) returns (chunks: seq<string>)
    ensures chunks == Chunks(text, WindowCount(|text|))
  {
    chunks := [];
    var start := 0;
    ghost var k := 0;
    while true
      invariant k < WindowCount(|text|) && start == WindowStart(k)
      invariant chunks == Chunks(text, k)
      decreases WindowCount(|text|) - k
    {
      WindowInRange(|text|, k);
      var end := Min(start + CHUNK_CHARS, |text|);
      var s := text[start..end];
      assert s == Window(text, k);
      if !Blank(s) {
        chunks := chunks + [s];
      }
      if end == |text| {
        break;
      }
      start := start + STRIDE_CHARS;
      k := k + 1;
    }
  }

  method Chunk(text: string) returns (chunks: seq<string>)
    ensures chunks == Chunks(text, WindowCount(|text|))
    ensures chunks == [] <==> Blank(text)
  {
    if Blank(text) {
      BlankTextNoChunks(text, WindowCount(|text|));
      return [];
    }
    var p :| 0 <= p < |text| && !IsWhitespace(text[p]);
    chunks := ChunkByChars(text);
    var k := CharacterCovered(text, p);
  }

  lemma {:induction false} BlankTextNoChunks(text: string, m: nat)
    requires Blank(text) && m <= WindowCount(|text|)
    ensures Chunks(text, m) == []
  {
    if 0 < m {
      BlankTextNoChunks(text, m - 1);
      WindowInRange(|text|, m - 1);
    }
  }

  /** Every window but the first carries more than the overlap, so it brings new text. */
  lemma LaterWindowsAreLong(text: string, k: nat)
    requires 1 <= k < WindowCount(|text|)
    ensures |Window(text, k)| > OVERLAP_CHARS
  {
    WindowInRange(|text|, k - 1);
    WindowInRange(|text|, k);
  }

  /** The first window, joined with each later one minus the overlap. */
  ghost function Joined(text: string, m: nat): string
    requires 1 <= m <= WindowCount(|text|)
  {
    if m == 1 then Window(text, 0)
    else
      LaterWindowsAreLong(text, m - 1);
      Joined(text, m - 1) + Window(text, m - 1)[OVERLAP_CHARS..]
  }

  lemma {:induction false} JoinedPrefix(text: string, m: nat)
    requires 1 <= m <= WindowCount(|text|)
    ensures 0 <= WindowEnd(|text|, m - 1) <= |text|
    ensures Joined(text, m) == text[..WindowEnd(|text|, m - 1)]
  {
    WindowInRange(|text|, m - 1);
    if 1 < m {
      JoinedPrefix(text, m - 1);
      WindowInRange(|text|, m - 2);
      LaterWindowsAreLong(text, m - 1);
      var cut := WindowEnd(|text|, m - 2);
      assert cut == WindowStart(m - 1) + OVERLAP_CHARS;
      assert Window(text, m - 1)[OVERLAP_CHARS..] == text[cut..WindowEnd(|text|, m - 1)];
    }
  }

  /** Nothing is lost and nothing is repeated beyond the overlap. */
  lemma WindowsReconstructText(text: string)
    ensures Joined(text, WindowCount(|text|)) == text
  {
    hide WindowCount, WindowEnd, Joined;
    var m := WindowCount(|text|);
    WindowInRange(|text|, m - 1);
    JoinedPrefix(text, m);
    assert text[..|text|] == text;
  }

  lemma {:induction false} NonBlankWindowKept(text: string, m: nat, k: nat)
    requires k < m <= WindowCount(|text|) && !Blank(Window(text, k))
    ensures Window(text, k) in Chunks(text, m)
  {
    if k < m - 1 {
      NonBlankWindowKept(text, m - 1, k);
    }
  }

  /** Where the windows lie: 2048 characters every 1848, until the end of the text is reached. */
  lemma WindowsAre(text: string, k: nat)
    ensures k < WindowCount(|text|) <==> k == 0 || 1848 * (k - 1) + 2048 < |text|
    ensures k < WindowCount(|text|) ==>
              var end := if 1848 * k + 2048 <= |text| then 1848 * k + 2048 else |text|;
              1848 * k <= end && Window(text, k) == text[1848 * k..end]
  {
    CountIs(|text|, k);
    hide WindowCount;
    if k < WindowCount(|text|) {
      WindowInRange(|text|, k);
    }
  }

  lemma CountIs(n: nat, k: nat)
    ensures k < WindowCount(n) <==> k == 0 || 1848 * (k - 1) + 2048 < n
  {
    if n > 2048 && k > 0 {
      QuotientAtLeast(n - 2048 + 1847, k);
    }
  }

  lemma QuotientAtLeast(a: nat, k: nat)
    ensures k <= a / 1848 <==> 1848 * k <= a
  {
    assert a == 1848 * (a / 1848) + a % 1848;
  }

  /** The `k`-th window, unless it is blank, is the chunk behind those of the windows before it. */
  lemma {:induction false} ChunkAt(text: string, m: nat, k: nat)
    requires k < m <= WindowCount(|text|) && !Blank(Window(text, k))
    ensures var before := set j: nat | j < k && !Blank(Window(text, j));
      |before| < |Chunks(text, m)| && Chunks(text, m)[|before|] == Window(text, k)
  {
    CountChunks(text, k);
    if k < m - 1 {
      ChunkAt(text, m - 1, k);
    }
  }

  lemma {:induction false} CountChunks(text: string, m: nat)
    requires m <= WindowCount(|text|)
    ensures |Chunks(text, m)| == |set j: nat | j < m && !Blank(Window(text, j))|
  {
    hide Window;
    var kept := set j: nat | j < m && !Blank(Window(text, j));
    if 0 < m {
      CountChunks(text, m - 1);
      var before := set j: nat | j < m - 1 && !Blank(Window(text, j));
      assert kept == before + (if Blank(Window(text, m - 1)) then {} else {m - 1});
    }
  }

  /** Dropping blank windows loses no character that matters. */
  lemma CharacterCovered(text: string, p: nat) returns (k: nat)
    requires p < |text| && !IsWhitespace(text[p])
    ensures k < WindowCount(|text|) && WindowStart(k) <= p < WindowEnd(|text|, k)
    ensures Window(text, k) in Chunks(text, WindowCount(|text|))
  {
    var last := WindowCount(|text|) - 1;
    k := if p / STRIDE_CHARS <= last then p / STRIDE_CHARS else last;
    WindowInRange(|text|, last);
    WindowInRange(|text|, k);
    assert Window(text, k)[p - WindowStart(k)] == text[p];
    NonBlankWindowKept(text, WindowCount(|text|), k);
  }
}
