/**
 * The text chunker of the vector store: line breaks are replaced by spaces and the
 * cleaned text is cut into fixed-size windows at a fixed stride; windows of at most
 * MIN_CHUNK_LENGTH characters are dropped.
 */
module TextChunker {
  import opened Wrappers
  import opened Arithmetic

  /** The defaults of `process_text`, which its only caller uses. */
  const DEFAULT_CHUNK_SIZE: int := 1000
  const DEFAULT_CHUNK_OVERLAP: int := 200
  /** A window is kept only when it is strictly longer than this. */
  const MIN_CHUNK_LENGTH: nat := 50

  /** Python's `range` refuses a zero step: the only error the chunker can raise. */
  datatype ChunkError = RangeStepZero

  // ---------------------------------------------------------------------------
  // Cleaning
  // ---------------------------------------------------------------------------

  predicate IsLineBreak(c: char) {
    c == '\n' || c == '\r'
  }

  /** `s.replace(from, to)` for a single-character pattern. */
  function ReplaceChar(s: string, from: char, to: char): (r: string)
    ensures |r| == |s|
    ensures forall k :: 0 <= k < |s| ==> r[k] == (if s[k] == from then to else s[k])
  {
    if s == [] then [] else [if s[0] == from then to else s[0]] + ReplaceChar(s[1..], from, to)
  }

  /** The cleaning step: every newline and every carriage return becomes one space. */
  function Clean(s: string): (r: string)
    ensures |r| == |s|
    ensures forall k :: 0 <= k < |s| ==> r[k] == (if IsLineBreak(s[k]) then ' ' else s[k])
    ensures forall k :: 0 <= k < |r| ==> !IsLineBreak(r[k])
  {
    ReplaceChar(ReplaceChar(s, '\n', ' '), '\r', ' ')
  }

  // ---------------------------------------------------------------------------
  // Python slicing
  // ---------------------------------------------------------------------------

  function Min(a: int, b: int): int { if a <= b then a else b }

  /** The position where Python's `s[i:j]` stops, for a sequence of length `n`:
      a negative `j` counts from the end, and the bound is clipped to `0..n`. */
  function SliceEnd(n: nat, j: int): (e: nat)
    ensures e <= n
  {
    if j < 0 then (if n + j < 0 then 0 else n + j) else Min(j, n)
  }

  /** Length of Python's `s[i:j]` when `|s| == n` and `0 <= i <= n`. */
  function SliceLen(n: nat, i: nat, j: int): nat {
    var e := SliceEnd(n, j);
    if i < e then e - i else 0
  }

  /** Python's `s[i:j]` for a start `i` inside the sequence (the only starts the chunker uses). */
  function PySlice<T>(s: seq<T>, i: nat, j: int): (r: seq<T>)
    requires i <= |s|
    ensures |r| == SliceLen(|s|, i, j)
  {
    var e := SliceEnd(|s|, j);
    if i < e then s[i..e] else []
  }

  /** With a non-negative bound, Python's slice is the plain subsequence clipped to the end. */
  lemma PySliceIsSubsequence<T>(s: seq<T>, i: nat, j: int)
    requires i <= |s| && i <= j
    ensures PySlice(s, i, j) == s[i..Min(j, |s|)]
  {
  }

  /** Python's `s[i:j]` is the contiguous piece of `s` that starts at `i`, whatever the
      sign of `j`. */
  lemma PySliceIsPiece<T>(s: seq<T>, i: nat, j: int)
    requires i <= |s|
    ensures var r := PySlice(s, i, j); i + |r| <= |s| && r == s[i..i + |r|]
  {
  }

  /** With a negative bound, Python's slice stops that many elements before the end,
      and is empty once that position is not past the start. */
  lemma PySliceNegativeEnd<T>(s: seq<T>, i: nat, j: int)
    requires i <= |s| && j < 0
    ensures i <= |s| + j ==> PySlice(s, i, j) == s[i..|s| + j]
    ensures |s| + j <= i ==> PySlice(s, i, j) == []
  {
  }

  /** Length of the window `s[i:i+chunkSize]` of a text of length `n`. */
  function WindowLen(n: nat, chunkSize: int, i: nat): nat {
    SliceLen(n, i, i + chunkSize)
  }

  /** Windows only get shorter as the start moves right, whatever the sign of `chunkSize`. */
  lemma WindowLenMonotone(n: nat, chunkSize: int, i: nat, i': nat)
    requires i <= i'
    ensures WindowLen(n, chunkSize, i') <= WindowLen(n, chunkSize, i)
  {
  }

  // ---------------------------------------------------------------------------
  // Specification of the loop
  // ---------------------------------------------------------------------------

  /** The offsets at which the loop `for i in range(start, n, step)` keeps a chunk: the
      starts `start, start + step, ...` below `n` whose window is longer than
      MIN_CHUNK_LENGTH, in the order the loop visits them. */
  function KeptStarts(n: nat, chunkSize: int, step: nat, start: nat): (ks: seq<nat>)
    requires step > 0
    ensures forall k :: 0 <= k < |ks| ==> start <= ks[k] < n
    decreases n - start
  {
    if start >= n then []
    else
      (if WindowLen(n, chunkSize, start) > MIN_CHUNK_LENGTH then [start] else [])
      + KeptStarts(n, chunkSize, step, start + step)
  }

  /** The windows `s[i:i+chunkSize]` at the given offsets, in the same order. */
  function WindowsAt(s: string, chunkSize: int, starts: seq<nat>): (ws: seq<string>)
    requires forall k :: 0 <= k < |starts| ==> starts[k] <= |s|
    ensures |ws| == |starts|
  {
    seq(|starts|, j requires 0 <= j < |starts| => PySlice(s, starts[j], starts[j] + chunkSize))
  }

  /** A loop step that keeps the window at `i`: the offsets seen so far grow by `i`, and
      the chunk list by that window. */
  lemma KeepStep(s: string, chunkSize: int, step: nat, starts: seq<nat>, i: nat)
    requires step > 0 && i < |s|
    requires WindowLen(|s|, chunkSize, i) > MIN_CHUNK_LENGTH
    requires starts + KeptStarts(|s|, chunkSize, step, i) == KeptStarts(|s|, chunkSize, step, 0)
    requires forall k :: 0 <= k < |starts| ==> starts[k] < |s|
    ensures (starts + [i]) + KeptStarts(|s|, chunkSize, step, i + step) == KeptStarts(|s|, chunkSize, step, 0)
    ensures forall k :: 0 <= k < |starts + [i]| ==> (starts + [i])[k] < |s|
    ensures WindowsAt(s, chunkSize, starts + [i]) == WindowsAt(s, chunkSize, starts) + [PySlice(s, i, i + chunkSize)]
  {
    var rest := KeptStarts(|s|, chunkSize, step, i + step);
    assert KeptStarts(|s|, chunkSize, step, i) == [i] + rest;
    assert starts + ([i] + rest) == (starts + [i]) + rest;
  }

  /** A loop step that drops the window at `i`: the offsets seen so far stay as they are. */
  lemma DropStep(n: nat, chunkSize: int, step: nat, starts: seq<nat>, i: nat)
    requires step > 0 && i < n
    requires WindowLen(n, chunkSize, i) <= MIN_CHUNK_LENGTH
    requires starts + KeptStarts(n, chunkSize, step, i) == KeptStarts(n, chunkSize, step, 0)
    ensures starts + KeptStarts(n, chunkSize, step, i + step) == KeptStarts(n, chunkSize, step, 0)
  {
  }

  /** The chunk list of a cleaned text: the window at every kept offset of the loop
      that starts at 0. */
  function Chunks(s: string, chunkSize: int, step: nat): seq<string>
    requires step > 0
  {
    WindowsAt(s, chunkSize, KeptStarts(|s|, chunkSize, step, 0))
  }

  /** The `q`-th start offset of the loop that begins at `start`. */
  function StartAt(start: nat, step: nat, q: nat): (i: nat)
    ensures start <= i
    decreases q
  {
    if q == 0 then start else StartAt(start, step, q - 1) + step
  }

  /** `ceil(x / d)`. */
  function CeilDiv(x: nat, d: nat): nat
    requires d > 0
  {
    (x + d - 1) / d
  }

  // ---------------------------------------------------------------------------
  // The chunker
  // ---------------------------------------------------------------------------

  /** `process_text(text, chunk_size, chunk_overlap)`: empty or absent text gives no
      chunks; otherwise the text is cleaned and, for a positive stride, cut into the
      kept windows; a zero stride is refused by `range`, a negative one visits no offset. */
  method ProcessText(text: Option<string>, chunkSize: int, chunkOverlap: int)
    returns (r: Result<seq<string>, ChunkError>)
    ensures text == None || text == Some([]) ==> r == Ok([])
    ensures text != None && text != Some([]) && chunkSize - chunkOverlap == 0 ==> r == Err(RangeStepZero)
    ensures text != None && text != Some([]) && chunkSize - chunkOverlap < 0 ==> r == Ok([])
    ensures text != None && text != Some([]) && chunkSize - chunkOverlap > 0 ==>
              r == Ok(Chunks(Clean(text.value), chunkSize, chunkSize - chunkOverlap))
  {
    if text.None? || text.value == [] {
      return Ok([]);
    }
    var cleaned := Clean(text.value);
    var step := chunkSize - chunkOverlap;
    if step == 0 {
      return Err(RangeStepZero);
    }
    var chunks: seq<string> := [];
    if step > 0 {
      chunks := CutWindows(cleaned, chunkSize, step);
    }
    return Ok(chunks);
  }

  /** The loop of `process_text` over a cleaned text, for a positive stride: the window
      at every offset of `range(0, len(text), step)` that is longer than
      MIN_CHUNK_LENGTH, in order. */
  method CutWindows(cleaned: string, chunkSize: int, step: nat) returns (chunks: seq<string>)
    requires step > 0
    ensures chunks == Chunks(cleaned, chunkSize, step)
  {
    chunks := [];
    var n := |cleaned|;
    ghost var starts: seq<nat> := [];
    var i: nat := 0;
    while i < n
      invariant starts + KeptStarts(n, chunkSize, step, i) == KeptStarts(n, chunkSize, step, 0)
      invariant forall k :: 0 <= k < |starts| ==> starts[k] < n
      invariant chunks == WindowsAt(cleaned, chunkSize, starts)
      decreases n - i
    {
      var chunk := PySlice(cleaned, i, i + chunkSize);
      if |chunk| > MIN_CHUNK_LENGTH {
        KeepStep(cleaned, chunkSize, step, starts, i);
        starts := starts + [i];
        chunks := chunks + [chunk];
      } else {
        DropStep(|cleaned|, chunkSize, step, starts, i);
      }
      i := i + step;
    }
    assert starts == KeptStarts(n, chunkSize, step, 0);
  }

  // ---------------------------------------------------------------------------
  // Properties of the specification
  // ---------------------------------------------------------------------------

  /** Starting one stride later shifts the loop's offsets by one position. */
  lemma {:induction false} StartAtShift(start: nat, step: nat, q: nat)
    ensures StartAt(start + step, step, q) == StartAt(start, step, q + 1)
    decreases q
  {
    if q > 0 {
      StartAtShift(start, step, q - 1);
    }
  }

  /** The `q`-th offset is `start + q * step`. */
  lemma {:induction false} StartAtProduct(start: nat, step: nat, q: nat)
    ensures StartAt(start, step, q) == start + q * step
    decreases q
  {
    if q > 0 {
      StartAtProduct(start, step, q - 1);
      assert (q - 1) * step + step == q * step;
    }
  }

  /** Every kept offset has a window longer than MIN_CHUNK_LENGTH. */
  lemma {:induction false} KeptStartsLong(n: nat, chunkSize: int, step: nat, start: nat)
    requires step > 0
    ensures forall k :: 0 <= k < |KeptStarts(n, chunkSize, step, start)| ==>
              WindowLen(n, chunkSize, KeptStarts(n, chunkSize, step, start)[k]) > MIN_CHUNK_LENGTH
    decreases n - start
  {
    if start < n {
      KeptStartsLong(n, chunkSize, step, start + step);
    }
  }

  /** Once a window is dropped, no later window is kept. */
  lemma {:induction false} KeptStartsEmpty(n: nat, chunkSize: int, step: nat, start: nat)
    requires step > 0
    requires WindowLen(n, chunkSize, start) <= MIN_CHUNK_LENGTH
    ensures KeptStarts(n, chunkSize, step, start) == []
    decreases n - start
  {
    if start < n {
      WindowLenMonotone(n, chunkSize, start, start + step);
      KeptStartsEmpty(n, chunkSize, step, start + step);
    }
  }

  /** The kept starts are `start, start + step, start + 2*step, ...` with no gap: the
      `j`-th kept start is the `j`-th start of the loop, so consecutive kept chunks are
      always exactly one stride apart. */
  lemma {:induction false} KeptStartsAt(n: nat, chunkSize: int, step: nat, start: nat)
    requires step > 0
    ensures var ks := KeptStarts(n, chunkSize, step, start);
      forall j :: 0 <= j < |ks| ==> ks[j] == StartAt(start, step, j)
    decreases n - start
  {
    if start < n {
      var ks, rest := KeptStarts(n, chunkSize, step, start), KeptStarts(n, chunkSize, step, start + step);
      if WindowLen(n, chunkSize, start) <= MIN_CHUNK_LENGTH {
        KeptStartsEmpty(n, chunkSize, step, start);
      } else {
        KeptStartsAt(n, chunkSize, step, start + step);
        assert ks == [start] + rest;
        forall j | 0 < j < |ks|
          ensures ks[j] == StartAt(start, step, j)
        {
          assert ks[j] == rest[j - 1] == StartAt(start + step, step, j - 1);
          StartAtShift(start, step, j - 1);
        }
      }
    }
  }

  /** Consecutive kept offsets are exactly one stride apart. */
  lemma KeptStartsNext(n: nat, chunkSize: int, step: nat, start: nat, j: nat)
    requires step > 0
    requires j + 1 < |KeptStarts(n, chunkSize, step, start)|
    ensures var ks := KeptStarts(n, chunkSize, step, start); ks[j + 1] == ks[j] + step
  {
    KeptStartsAt(n, chunkSize, step, start);
    assert StartAt(start, step, j + 1) == StartAt(start, step, j) + step;
  }

  /** No start of the loop whose window is long enough is missed. */
  lemma {:induction false} KeptStartsComplete(n: nat, chunkSize: int, step: nat, start: nat, q: nat)
    requires step > 0
    requires StartAt(start, step, q) < n
    requires WindowLen(n, chunkSize, StartAt(start, step, q)) > MIN_CHUNK_LENGTH
    ensures q < |KeptStarts(n, chunkSize, step, start)|
    decreases q
  {
    WindowLenMonotone(n, chunkSize, start, StartAt(start, step, q));
    if q > 0 {
      StartAtShift(start, step, q - 1);
      KeptStartsComplete(n, chunkSize, step, start + step, q - 1);
    }
  }

  /** The loop keeps at most one chunk per start offset, so at most `ceil((n - start) / step)`. */
  lemma {:induction false} KeptStartsCount(n: nat, chunkSize: int, step: nat, start: nat)
    requires step > 0
    requires start <= n
    ensures |KeptStarts(n, chunkSize, step, start)| <= CeilDiv(n - start, step)
    decreases n - start
  {
    if start < n {
      var x: nat := n - start;
      DivAtLeastOne(x + step - 1, step);
      if start + step <= n {
        KeptStartsCount(n, chunkSize, step, start + step);
        DivStep(x - 1, step);
        assert CeilDiv(x - step, step) + 1 == CeilDiv(x, step);
      }
    }
  }

  /** Every chunk is longer than MIN_CHUNK_LENGTH, never longer than the text and, for
      a non-negative chunk size, never longer than the chunk size. */
  lemma ChunkBounds(s: string, chunkSize: int, step: nat)
    requires step > 0
    ensures var cs := Chunks(s, chunkSize, step);
      forall j :: 0 <= j < |cs| ==>
        MIN_CHUNK_LENGTH < |cs[j]| <= |s| && (chunkSize >= 0 ==> |cs[j]| <= chunkSize)
  {
    KeptStartsLong(|s|, chunkSize, step, 0);
  }

  /** The offsets of the loop from 0 are the multiples of the stride, in increasing order. */
  lemma StartAtMultiple(step: nat, q: nat)
    requires step > 0
    ensures StartAt(0, step, q) % step == 0
    ensures StartAt(0, step, q) < StartAt(0, step, q + 1)
  {
    StartAtProduct(0, step, q);
    MulMod(q, step);
  }

  /** Chunk `j` of `s` is the window `s[i:i+chunkSize]` at the `j`-th offset `i` of the
      loop, which lies inside the text; for a non-negative chunk size it is the plain
      substring `s[i .. min(i + chunkSize, |s|)]`. */
  lemma ChunkAt(s: string, chunkSize: int, step: nat, j: nat)
    requires step > 0
    requires j < |Chunks(s, chunkSize, step)|
    ensures var i := StartAt(0, step, j);
      i < |s| && Chunks(s, chunkSize, step)[j] == PySlice(s, i, i + chunkSize) &&
      (chunkSize >= 0 ==> Chunks(s, chunkSize, step)[j] == s[i..Min(i + chunkSize, |s|)])
  {
    var ks := KeptStarts(|s|, chunkSize, step, 0);
    var i := ks[j];
    assert Chunks(s, chunkSize, step)[j] == PySlice(s, i, i + chunkSize);
    KeptStartsAt(|s|, chunkSize, step, 0);
    assert i == StartAt(0, step, j);
    if chunkSize >= 0 {
      PySliceIsSubsequence(s, i, i + chunkSize);
    }
  }

  /** Every offset of the loop whose window is longer than MIN_CHUNK_LENGTH yields a chunk. */
  lemma ChunksComplete(s: string, chunkSize: int, step: nat, q: nat)
    requires step > 0
    requires StartAt(0, step, q) < |s|
    requires WindowLen(|s|, chunkSize, StartAt(0, step, q)) > MIN_CHUNK_LENGTH
    ensures q < |Chunks(s, chunkSize, step)|
  {
    KeptStartsComplete(|s|, chunkSize, step, 0, q);
  }

  /** At most `ceil(|s| / step)` chunks, and none exactly when the first window is
      not longer than MIN_CHUNK_LENGTH, in particular whenever the text is not. */
  lemma ChunkCount(s: string, chunkSize: int, step: nat)
    requires step > 0
    ensures |Chunks(s, chunkSize, step)| <= CeilDiv(|s|, step)
    ensures Chunks(s, chunkSize, step) == [] <==> WindowLen(|s|, chunkSize, 0) <= MIN_CHUNK_LENGTH
    ensures |s| <= MIN_CHUNK_LENGTH ==> Chunks(s, chunkSize, step) == []
  {
    KeptStartsCount(|s|, chunkSize, step, 0);
    if WindowLen(|s|, chunkSize, 0) <= MIN_CHUNK_LENGTH {
      KeptStartsEmpty(|s|, chunkSize, step, 0);
    } else {
      assert StartAt(0, step, 0) == 0;
      KeptStartsComplete(|s|, chunkSize, step, 0, 0);
    }
  }

  /** The window at `b`, one stride after `a`, starts with what is left of the window
      at `a` after the stride; when the window at `a` has the full chunk size, that is its last
      `chunkSize - step` characters. */
  lemma WindowsOverlap(s: string, chunkSize: int, step: nat, a: nat, b: nat)
    requires 0 < step <= chunkSize
    requires b == a + step < |s|
    ensures var first, second := PySlice(s, a, a + chunkSize), PySlice(s, b, b + chunkSize);
      step <= |first| && first[step..] <= second &&
      (|first| == chunkSize ==> first[step..] == second[..chunkSize - step])
  {
    var e, e' := Min(a + chunkSize, |s|), Min(b + chunkSize, |s|);
    PySliceIsSubsequence(s, a, a + chunkSize);
    PySliceIsSubsequence(s, b, b + chunkSize);
    assert s[a..e][step..] == s[b..e];
    assert s[b..e'][..e - b] == s[b..e];
  }

  /** Two consecutive chunks overlap: the first one past the stride is a prefix of the
      second; when the first has the full chunk size, its last `chunkOverlap`
      characters are the first `chunkOverlap` characters of the second. */
  lemma ChunkOverlap(s: string, chunkSize: int, chunkOverlap: int, j: nat)
    requires 0 <= chunkOverlap < chunkSize
    requires j + 1 < |Chunks(s, chunkSize, chunkSize - chunkOverlap)|
    ensures var cs, step := Chunks(s, chunkSize, chunkSize - chunkOverlap), chunkSize - chunkOverlap;
      step <= |cs[j]| && cs[j][step..] <= cs[j + 1] &&
      (|cs[j]| == chunkSize ==> cs[j][chunkSize - chunkOverlap..] == cs[j + 1][..chunkOverlap])
  {
    var step: nat := chunkSize - chunkOverlap;
    var ks := KeptStarts(|s|, chunkSize, step, 0);
    var cs := Chunks(s, chunkSize, step);
    assert j + 1 < |ks|;
    var a, b := ks[j], ks[j + 1];
    assert cs[j] == PySlice(s, a, a + chunkSize);
    assert cs[j + 1] == PySlice(s, b, b + chunkSize);
    KeptStartsNext(|s|, chunkSize, step, 0, j);
    WindowsOverlap(s, chunkSize, step, a, b);
  }

  /** With the default arguments the stride is 800: chunk `j` is the substring of at
      most 1000 characters at offset `800 * j`, longer than MIN_CHUNK_LENGTH; a chunk
      that is not the last has at least 800 characters, its part past the first 800 is
      a prefix of the next chunk, and a full chunk shares its last 200 characters with
      the next one. */
  lemma DefaultChunks(s: string, j: nat)
    requires j < |Chunks(s, DEFAULT_CHUNK_SIZE, DEFAULT_CHUNK_SIZE - DEFAULT_CHUNK_OVERLAP)|
    ensures var cs, i := Chunks(s, DEFAULT_CHUNK_SIZE, DEFAULT_CHUNK_SIZE - DEFAULT_CHUNK_OVERLAP), 800 * j;
      i < |s| && MIN_CHUNK_LENGTH < |cs[j]| <= DEFAULT_CHUNK_SIZE &&
      cs[j] == s[i..Min(i + DEFAULT_CHUNK_SIZE, |s|)] &&
      (j + 1 < |cs| ==>
        DEFAULT_CHUNK_SIZE - DEFAULT_CHUNK_OVERLAP <= |cs[j]| &&
        cs[j][DEFAULT_CHUNK_SIZE - DEFAULT_CHUNK_OVERLAP..] <= cs[j + 1] &&
        (|cs[j]| == DEFAULT_CHUNK_SIZE ==>
          cs[j][DEFAULT_CHUNK_SIZE - DEFAULT_CHUNK_OVERLAP..] == cs[j + 1][..DEFAULT_CHUNK_OVERLAP]))
  {
    var step: nat := DEFAULT_CHUNK_SIZE - DEFAULT_CHUNK_OVERLAP;
    ChunkBounds(s, DEFAULT_CHUNK_SIZE, step);
    ChunkAt(s, DEFAULT_CHUNK_SIZE, step, j);
    StartAtProduct(0, step, j);
    if j + 1 < |Chunks(s, DEFAULT_CHUNK_SIZE, step)| {
      ChunkOverlap(s, DEFAULT_CHUNK_SIZE, DEFAULT_CHUNK_OVERLAP, j);
    }
  }
}
