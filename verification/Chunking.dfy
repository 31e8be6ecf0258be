/** Splitting long content into overlapping windows (`src/indexer/writer_pgvector.py` and
    `src/indexer/parser_css.py`). */
module Chunking {

  const WINDOW: nat := 2048
  const OVERLAP: nat := 256
  const STRIDE: nat := WINDOW - OVERLAP

  /** The window from `start` on. */
  function Window(raw: string, start: nat): string
    requires start <= |raw|
  {
    if start + WINDOW < |raw| then raw[start..start + WINDOW] else raw[start..]
  }

  /** How many windows cover content that is longer than one: the least number whose last
      window reaches the end. */
  function Count(n: nat): nat {
    if n <= WINDOW then 1 else (n - OVERLAP + STRIDE - 1) / STRIDE
  }

  /** All windows, a stride apart. */
  function Windows(raw: string): (r: seq<string>)
    ensures |r| == Count(|raw|)
  {
    seq(Count(|raw|), k requires 0 <= k < Count(|raw|) => (StartsInside(|raw|, k); Window(raw, k * STRIDE)))
  }

  /** Window `k` exists exactly while the one before it has not reached the end. */
  lemma StartsInside(n: nat, k: nat)
    ensures k < Count(n) <==> k == 0 || (k - 1) * STRIDE + WINDOW < n
  {
  }

  datatype Chunk = Chunk(idx: nat, content: string)

  function Numbered(windows: seq<string>): seq<Chunk> {
    seq(|windows|, k requires 0 <= k < |windows| => Chunk(k, windows[k]))
  }

  // ----- The loops -----

  /** The window loop that `_sliding` and `_sliding_chunks` share; no content, no chunk. */
  method SlidingChunks(content: string) returns (chunks: seq<Chunk>)
    ensures chunks == if content == "" then [] else Numbered(Windows(content))
  {
    chunks := [];
    var start, idx := 0, 0;
    while start < |content|
      invariant start == idx * STRIDE
      invariant idx == 0 || start + OVERLAP < |content|
      invariant idx < Count(|content|) && |chunks| == idx
      invariant forall k :: 0 <= k < idx ==> chunks[k] == Numbered(Windows(content))[k]
      decreases |content| - start
    {
      var end := if start + WINDOW <= |content| then start + WINDOW else |content|;
      chunks := chunks + [Chunk(idx, content[start..end])];
      StartsInside(|content|, idx + 1);
      if end == |content| {
        assert content[start..end] == content[start..];
        assert Window(content, start) == content[start..];
        assert Count(|content|) == idx + 1;
        break;
      }
      start := end - OVERLAP;
      idx := idx + 1;
    }
  }

  /** `_sliding` and `_emit`: content that fits one window is one chunk, even when empty. */
  method Sliding(raw: string) returns (chunks: seq<Chunk>)
    ensures chunks == Numbered(Windows(raw))
  {
    if |raw| <= WINDOW {
      assert Window(raw, 0) == raw;
      return [Chunk(0, raw)];
    }
    chunks := SlidingChunks(raw);
  }

  // ----- What the windows keep -----

  /** The first window followed by each later one without the overlap. */
  function Glue(windows: seq<string>): string {
    if windows == [] then ""
    else if |windows| == 1 then windows[0]
    else
      var last := windows[|windows| - 1];
      Glue(windows[..|windows| - 1]) + if |last| >= OVERLAP then last[OVERLAP..] else ""
  }

  lemma {:induction false} GlueReaches(raw: string, k: nat)
    requires 1 <= k <= Count(|raw|)
    ensures (k - 1) * STRIDE <= |raw|
    ensures Glue(Windows(raw)[..k]) ==
              raw[..if (k - 1) * STRIDE + WINDOW < |raw| then (k - 1) * STRIDE + WINDOW else |raw|]
  {
    var ws := Windows(raw);
    StartsInside(|raw|, k - 1);
    if k == 1 {
      assert ws[..1] == [Window(raw, 0)];
    } else {
      var start, reached := (k - 1) * STRIDE, (k - 2) * STRIDE + WINDOW;
      GlueReaches(raw, k - 1);
      assert ws[..k][..k - 1] == ws[..k - 1];
      assert ws[..k][k - 1] == Window(raw, start);
      assert reached == start + OVERLAP < |raw|;
    }
  }

  /** Main result on contents. The windows, glued at their overlaps, are the content. */
  lemma GlueRebuilds(raw: string)
    ensures Glue(Windows(raw)) == raw
  {
    var n := Count(|raw|);
    GlueReaches(raw, n);
    StartsInside(|raw|, n);
    assert Windows(raw)[..n] == Windows(raw);
    assert raw[..|raw|] == raw;
  }

  /** Window `k` holds the span from `a` to `b` of the content. */
  predicate Holds(n: nat, k: nat, a: nat, b: nat) {
    k < Count(n) && k * STRIDE <= a && b <= k * STRIDE + WINDOW
  }

  lemma HoldsMeans(raw: string, k: nat, a: nat, b: nat)
    requires a <= b <= |raw| && Holds(|raw|, k, a, b)
    ensures var w := Windows(raw)[k];
            && b - k * STRIDE <= |w| && w[a - k * STRIDE..b - k * STRIDE] == raw[a..b]
  {
  }

  /** Main result on spans. Every span of at most 257 characters lies whole in a window. */
  lemma ShortSpansHeld(n: nat, a: nat, b: nat)
    requires a <= b <= n && b - a <= OVERLAP + 1
    ensures exists k :: Holds(n, k, a, b)
  {
    var k := a / STRIDE;
    if k < Count(n) {
      assert Holds(n, k, a, b);
    } else {
      // the span starts behind the last stride: the last window reaches the end
      var last := Count(n) - 1;
      StartsInside(n, last + 1);
      assert Holds(n, last, a, b);
    }
  }

  /** 257 is the most: a longer span can fall between two windows. */
  lemma LongerSpanMissed(n: nat, k: nat)
    ensures !Holds(n, k, STRIDE - 1, STRIDE - 1 + OVERLAP + 2)
  {
  }

  /** The number of windows of content longer than one. */
  lemma CountIsCeiling(n: nat)
    requires n > WINDOW
    ensures (Count(n) - 1) * 1792 < n - 256 <= Count(n) * 1792
  {
  }

  /** What the chunks are: numbered from 0, each at most 2048 characters long and standing at
      1792 times its number, and all but the last full. */
  lemma ChunkOutcome(raw: string, k: nat)
    requires k < |Numbered(Windows(raw))|
    ensures var c := Numbered(Windows(raw))[k];
            && c.idx == k && |c.content| <= 2048 && (k + 1 < |Numbered(Windows(raw))| ==> |c.content| == 2048)
            && k * 1792 + |c.content| <= |raw| && c.content == raw[k * 1792..k * 1792 + |c.content|]
  {
    StartsInside(|raw|, k);
    StartsInside(|raw|, k + 1);
  }
}
