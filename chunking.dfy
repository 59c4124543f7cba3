/** The window arithmetic of the chunk loop in backend/Program.cs (lines
    106-120, repeated at 161-175): windows of `chunkSize` characters that
    start `max(1, chunkSize - overlap)` characters apart, the last one cut at
    the end of the text. */
module Chunking {
  import opened Sanitize

  /** `text.Substring(start, len)`. */
  datatype Window = Window(start: nat, len: nat)

  function Min(a: int, b: int): int {
    if a < b then a else b
  }

  /** `Math.Max(1, chunkSize - overlap)`. */
  function Step(chunkSize: int, overlap: int): (step: nat)
    ensures step >= 1
    ensures chunkSize - overlap >= 1 ==> step == chunkSize - overlap
    ensures chunkSize - overlap < 1 ==> step == 1
  {
    if chunkSize - overlap > 1 then chunkSize - overlap else 1
  }

  /** The windows the loop visits from `start` on, for a text of length `n`,
      a non-negative window size and a step of at least one. The loop leaves
      through its condition when `start` passes the end, or through the
      `break` once a window reaches the end. */
  function Windows(n: nat, size: nat, step: nat, start: nat): (ws: seq<Window>)
    requires step >= 1
    ensures forall k :: 0 <= k < |ws| ==> start <= ws[k].start < n && ws[k].start + ws[k].len <= n
    decreases n - start
  {
    if start >= n then []
    else
      var len := Min(size, n - start);
      [Window(start, len)] + (if start + len >= n then [] else Windows(n, size, step, start + step))
  }

  /** The windows of a whole text. */
  function TextWindows(n: nat, chunkSize: nat, overlap: int): seq<Window> {
    Windows(n, chunkSize, Step(chunkSize, overlap), 0)
  }

  /** Window k starts k steps in and is cut at the end of the text. */
  lemma {:induction false} WindowAt(n: nat, size: nat, step: nat, start: nat, k: nat)
    requires step >= 1 && k < |Windows(n, size, step, start)|
    ensures var w := Windows(n, size, step, start)[k];
      w.start == start + k * step && w.len == Min(size, n - w.start)
    decreases n - start
  {
    var ws := Windows(n, size, step, start);
    if k > 0 {
      var len := Min(size, n - start);
      assert start + len < n;
      var rest := Windows(n, size, step, start + step);
      assert ws[k] == rest[k - 1];
      WindowAt(n, size, step, start + step, k - 1);
      assert (k - 1) * step + step == k * step;
    } else {
      assert ws[0] == Window(start, Min(size, n - start));
    }
  }

  /** With a positive size every window is non-empty and at most `size` long. */
  lemma WindowBounds(n: nat, size: nat, step: nat, start: nat)
    requires step >= 1 && size > 0
    ensures forall w :: w in Windows(n, size, step, start) ==> 0 < w.len <= size
  {
    var ws := Windows(n, size, step, start);
    forall w | w in ws ensures 0 < w.len <= size {
      var k :| 0 <= k < |ws| && ws[k] == w;
      WindowAt(n, size, step, start, k);
    }
  }

  /** No text, no window. */
  lemma NoTextNoWindows(size: nat, step: nat)
    requires step >= 1
    ensures Windows(0, size, step, 0) == []
  {
  }

  /** A text no longer than the window size is a single window. */
  lemma ShortTextOneWindow(n: nat, size: nat, step: nat)
    requires step >= 1 && 0 < n <= size
    ensures Windows(n, size, step, 0) == [Window(0, n)]
  {
  }

  /** When the step does not exceed the size (overlap >= 0), each window
      reaches at least to where the next one starts, and the last window ends
      exactly at the end of the text. */
  lemma {:induction false} WindowsContiguous(n: nat, size: nat, step: nat, start: nat)
    requires 1 <= step <= size && start < n
    ensures var ws := Windows(n, size, step, start);
      && |ws| > 0
      && ws[0].start == start
      && ws[|ws| - 1].start + ws[|ws| - 1].len == n
      && forall k :: 0 <= k < |ws| - 1 ==> ws[k + 1].start <= ws[k].start + ws[k].len
    decreases n - start
  {
    var len := Min(size, n - start);
    if start + len < n {
      WindowsContiguous(n, size, step, start + step);
    }
  }

  /** Some window holds character `p`. */
  predicate Covered(ws: seq<Window>, p: nat) {
    exists k :: 0 <= k < |ws| && ws[k].start <= p < ws[k].start + ws[k].len
  }

  /** Under the same condition every character lies in some window. */
  lemma {:induction false} WindowsCover(n: nat, size: nat, step: nat, start: nat, p: nat)
    requires 1 <= step <= size && start <= p < n
    ensures Covered(Windows(n, size, step, start), p)
    decreases n - start
  {
    var ws := Windows(n, size, step, start);
    var len := Min(size, n - start);
    if p < start + len {
      assert ws[0] == Window(start, len);
    } else {
      WindowsCover(n, size, step, start + step, p);
      var rest := Windows(n, size, step, start + step);
      var k :| 0 <= k < |rest| && rest[k].start <= p < rest[k].start + rest[k].len;
      assert ws[k + 1] == rest[k];
    }
  }

  /** A step longer than the window (negative overlap) skips characters: the
      one just after the first window is in no window at all. */
  lemma StepBeyondSizeLeavesGap(n: nat, size: nat, step: nat)
    requires size < step && size < n
    ensures !Covered(Windows(n, size, step, 0), size)
  {
    var ws := Windows(n, size, step, 0);
    forall k | 0 <= k < |ws| ensures !(ws[k].start <= size < ws[k].start + ws[k].len) {
      WindowAt(n, size, step, 0, k);
      if k > 0 {
        assert k * step >= step;
      }
    }
  }

  /** The defaults CHUNK_TOKENS = 800 and CHUNK_OVERLAP = 120 give 3200
      characters every 2720: a 5000-character text is cut into [0, 3200) and
      [2720, 5000). */
  lemma DefaultWindowsExample()
    ensures TextWindows(5000, 800 * 4, 120 * 4) == [Window(0, 3200), Window(2720, 2280)]
  {
    assert Step(3200, 480) == 2720;
    assert Windows(5000, 3200, 2720, 5440) == [];
    assert Windows(5000, 3200, 2720, 2720) == [Window(2720, 2280)];
  }

  /** Size 2 with overlap -2 steps by 4 over 7 characters: characters 2, 3
      and 6 end up in no chunk. */
  lemma NegativeOverlapExample()
    ensures TextWindows(7, 2, -2) == [Window(0, 2), Window(4, 2)]
    ensures var ws := TextWindows(7, 2, -2); !Covered(ws, 2) && !Covered(ws, 3) && !Covered(ws, 6)
  {
    assert Step(2, -2) == 4;
    assert Windows(7, 2, 4, 8) == [];
    assert Windows(7, 2, 4, 4) == [Window(4, 2)];
  }

  /** What the loop stores from `start` on, window by window, for a given
      cleaning function: `clean(text.Substring(start, len))` for each window. */
  function PiecesFrom(text: string, size: nat, step: nat, start: nat, clean: string -> string): seq<string>
    requires step >= 1
    decreases |text| - start
  {
    if start >= |text| then []
    else
      var len := Min(size, |text| - start);
      [clean(text[start..start + len])]
        + (if start + len >= |text| then [] else PiecesFrom(text, size, step, start + step, clean))
  }

  /** The cleaned chunk texts from `start` on: the loop stores
      `Clean(text.Substring(start, len))` for each window. */
  function ChunksFrom(text: string, size: nat, step: nat, start: nat): seq<string>
    requires step >= 1
  {
    PiecesFrom(text, size, step, start, Stripped)
  }

  /** One turn of the loop: the first chunk is the cleaned first window. */
  lemma ChunksFromStep(text: string, size: nat, step: nat, start: nat)
    requires step >= 1 && start < |text|
    ensures var len := Min(size, |text| - start);
      ChunksFrom(text, size, step, start)
        == [Stripped(text[start..start + len])]
           + (if start + len >= |text| then [] else ChunksFrom(text, size, step, start + step))
  {
  }

  /** The chunk texts of a document, for a non-negative size (a negative size
      makes the first Substring throw, for a non-empty text). */
  function ChunkTexts(text: string, chunkSize: int, overlap: int): seq<string> {
    if chunkSize < 0 then []
    else ChunksFrom(text, chunkSize, Step(chunkSize, overlap), 0)
  }

  /** The text under a window; empty for a window that does not fit. */
  function Slice(text: string, w: Window): string {
    if w.start + w.len <= |text| then text[w.start..w.start + w.len] else []
  }

  /** A function applied to the text under each of a list of windows. */
  function Cut(text: string, ws: seq<Window>, clean: string -> string): (cs: seq<string>)
    ensures |cs| == |ws|
  {
    if ws == [] then [] else [clean(Slice(text, ws[0]))] + Cut(text, ws[1..], clean)
  }

  lemma {:induction false} CutAt(text: string, ws: seq<Window>, clean: string -> string, k: nat)
    requires k < |ws|
    ensures Cut(text, ws, clean)[k] == clean(Slice(text, ws[k]))
  {
    if k > 0 {
      CutAt(text, ws[1..], clean, k - 1);
      assert ws[1..][k - 1] == ws[k];
    }
  }

  /** The loop's pieces are the function applied to its windows. */
  lemma {:induction false} PiecesAreCut(text: string, size: nat, step: nat, start: nat, clean: string -> string)
    requires step >= 1
    ensures PiecesFrom(text, size, step, start, clean) == Cut(text, Windows(|text|, size, step, start), clean)
    decreases |text| - start
  {
    if start < |text| {
      var ws := Windows(|text|, size, step, start);
      var len := Min(size, |text| - start);
      var head := clean(text[start..start + len]);
      assert ws[0] == Window(start, len);
      assert Cut(text, ws, clean) == [head] + Cut(text, ws[1..], clean);
      if start + len < |text| {
        var next := start + step;
        PiecesAreCut(text, size, step, next, clean);
        assert ws[1..] == Windows(|text|, size, step, next);
        assert PiecesFrom(text, size, step, start, clean) == [head] + PiecesFrom(text, size, step, next, clean);
      } else {
        assert ws[1..] == [];
        assert PiecesFrom(text, size, step, start, clean) == [head];
      }
    }
  }

  /** Piece k is the function applied to the text of window k. */
  lemma {:induction false} CutAll(text: string, ws: seq<Window>, clean: string -> string)
    ensures forall k :: 0 <= k < |ws| ==> Cut(text, ws, clean)[k] == clean(Slice(text, ws[k]))
  {
    forall k | 0 <= k < |ws|
      ensures Cut(text, ws, clean)[k] == clean(Slice(text, ws[k]))
    {
      CutAt(text, ws, clean, k);
    }
  }

  /** Piece k is the function applied to the text of window k. */
  lemma {:induction false} PiecesAreWindows(text: string, size: nat, step: nat, start: nat, clean: string -> string)
    requires step >= 1
    ensures var ws := Windows(|text|, size, step, start);
      var ps := PiecesFrom(text, size, step, start, clean);
      |ps| == |ws| && forall k :: 0 <= k < |ws| ==> ps[k] == clean(text[ws[k].start..ws[k].start + ws[k].len])
  {
    var ws := Windows(|text|, size, step, start);
    PiecesAreCut(text, size, step, start, clean);
    CutAll(text, ws, clean);
    forall k | 0 <= k < |ws|
      ensures Slice(text, ws[k]) == text[ws[k].start..ws[k].start + ws[k].len]
    {
    }
  }

  /** There are as many chunks as windows. */
  lemma ChunksCount(text: string, size: nat, step: nat, start: nat)
    requires step >= 1
    ensures |ChunksFrom(text, size, step, start)| == |Windows(|text|, size, step, start)|
  {
    PiecesAreCut(text, size, step, start, Stripped);
  }

  /** The chunks are the cleaned texts of the windows, one for one. */
  lemma {:induction false} ChunksAreWindows(text: string, size: nat, step: nat, start: nat)
    requires step >= 1
    ensures var ws := Windows(|text|, size, step, start);
      var cs := ChunksFrom(text, size, step, start);
      |cs| == |ws| && forall k :: 0 <= k < |ws| ==> cs[k] == Stripped(text[ws[k].start..ws[k].start + ws[k].len])
  {
    PiecesAreWindows(text, size, step, start, Stripped);
  }

  /** A text that fits in one window gives one chunk: the cleaned text. */
  lemma ShortTextOneChunk(text: string, chunkSize: int, overlap: int)
    requires 0 < |text| <= chunkSize
    ensures ChunkTexts(text, chunkSize, overlap) == [Stripped(text)]
  {
    assert text[0..|text|] == text;
  }
}
