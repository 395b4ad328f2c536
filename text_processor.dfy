/**
 * The text chunker (`chunk_text` in src/utils/text_processor.py).
 *
 * A cursor `start` walks over the text. Each step proposes the window
 * `[start, start + chunk_size)`, pulls its end back to the last space inside
 * the window when the window ends inside the text, emits the window's slice
 * stripped of surrounding whitespace when that is non-empty, and moves the
 * cursor to `end - overlap` (to `end` when the overlap is not positive).
 *
 * The cursor is a Python integer: it can become negative, and Python then
 * reads slice and `rfind` bounds as offsets from the end of the text.
 * `Clamp` models that rule. The loop need not terminate, so the loop and the
 * function that specifies it take an iteration budget `fuel`, and `None`
 * means "still running after `fuel` iterations".
 */
module TextProcessor {
  import opened Wrappers

  /** The defaults of `chunk_size` and `overlap` (line 5). */
  const DefaultChunkSize := 500
  const DefaultOverlap := 100

  // ---------------------------------------------------------------------
  // Python string primitives used by the chunker
  // ---------------------------------------------------------------------

  /** Python's `str.isspace` on one character: what `str.strip()` removes. */
  predicate IsSpace(c: char) {
    var n := c as int;
    (0x09 <= n <= 0x0D) || (0x1C <= n <= 0x20) || n == 0x85 || n == 0xA0 || n == 0x1680
    || (0x2000 <= n <= 0x200A) || n == 0x2028 || n == 0x2029 || n == 0x202F
    || n == 0x205F || n == 0x3000
  }

  /** No leading and no trailing whitespace. */
  predicate IsTrimmed(s: string) {
    s == [] || (!IsSpace(s[0]) && !IsSpace(s[|s| - 1]))
  }

  predicate AllSpace(s: string) {
    forall k :: 0 <= k < |s| ==> IsSpace(s[k])
  }

  ghost predicate IsSubstring(part: string, whole: string) {
    exists i, j :: 0 <= i <= j <= |whole| && part == whole[i..j]
  }

  lemma SliceOfSlice(s: string, lo: nat, hi: nat, a: nat, b: nat)
    requires lo <= hi <= |s| && a <= b <= hi - lo
    ensures s[lo..hi][a..b] == s[lo + a..lo + b]
  {
    assert forall k :: 0 <= k < b - a ==> s[lo..hi][a..b][k] == s[lo + a + k];
  }

  lemma SubstringOfSubstring(a: string, b: string, c: string)
    requires IsSubstring(a, b) && IsSubstring(b, c)
    ensures IsSubstring(a, c)
  {
    var i, j :| 0 <= i <= j <= |b| && a == b[i..j];
    var k, l :| 0 <= k <= l <= |c| && b == c[k..l];
    SliceOfSlice(c, k, l, i, j);
  }

  /** How Python reads a slice or search bound `i` against a string of length `n`:
      a negative bound counts from the end, and the result is cut to `[0, n]`. */
  function Clamp(i: int, n: nat): (k: nat)
    ensures k <= n
    ensures 0 <= i <= n ==> k == i
    ensures i > n ==> k == n
    ensures i < 0 ==> k == if i + n < 0 then 0 else i + n
  {
    if i < 0 then (if i + n < 0 then 0 else i + n)
    else if i > n then n
    else i
  }

  /** Python's `s[i:j]`. */
  function Slice(s: string, i: int, j: int): (r: string)
    ensures Clamp(i, |s|) <= Clamp(j, |s|) ==> r == s[Clamp(i, |s|)..Clamp(j, |s|)]
    ensures Clamp(i, |s|) > Clamp(j, |s|) ==> r == []
  {
    var a, b := Clamp(i, |s|), Clamp(j, |s|);
    if a <= b then s[a..b] else []
  }

  predicate NoSpaceCharIn(s: string, lo: nat, hi: nat)
    requires hi <= |s|
  {
    forall q :: lo <= q < hi ==> s[q] != ' '
  }

  /** Position of the last `c` in `s[lo..hi]`, or -1. */
  function LastIndexOf(s: string, c: char, lo: nat, hi: nat): (p: int)
    requires hi <= |s|
    ensures p == -1 <==> forall q :: lo <= q < hi ==> s[q] != c
    ensures p != -1 ==> lo <= p < hi && s[p] == c && forall q :: p < q < hi ==> s[q] != c
    decreases hi
  {
    if hi <= lo then -1
    else if s[hi - 1] == c then hi - 1
    else LastIndexOf(s, c, lo, hi - 1)
  }

  /** Python's `s.rfind(c, i, j)` for a one-character `c`. */
  function RFind(s: string, c: char, i: int, j: int): (p: int)
    ensures p == -1 <==> forall q :: Clamp(i, |s|) <= q < Clamp(j, |s|) ==> s[q] != c
    ensures p != -1 ==>
      Clamp(i, |s|) <= p < Clamp(j, |s|) && s[p] == c
      && forall q :: p < q < Clamp(j, |s|) ==> s[q] != c
  {
    LastIndexOf(s, c, Clamp(i, |s|), Clamp(j, |s|))
  }

  /** The first position in `s[lo..hi]` that is not whitespace, or `hi`. */
  function TrimStart(s: string, lo: nat, hi: nat): (i: nat)
    requires lo <= hi <= |s|
    ensures lo <= i <= hi
    ensures forall k :: lo <= k < i ==> IsSpace(s[k])
    ensures i < hi ==> !IsSpace(s[i])
    decreases hi - lo
  {
    if lo < hi && IsSpace(s[lo]) then TrimStart(s, lo + 1, hi) else lo
  }

  /** One past the last position in `s[lo..hi]` that is not whitespace, or `lo`. */
  function TrimEnd(s: string, lo: nat, hi: nat): (j: nat)
    requires lo <= hi <= |s|
    ensures lo <= j <= hi
    ensures forall k :: j <= k < hi ==> IsSpace(s[k])
    ensures j > lo ==> !IsSpace(s[j - 1])
    decreases hi
  {
    if lo < hi && IsSpace(s[hi - 1]) then TrimEnd(s, lo, hi - 1) else hi
  }

  /** Python's `s.strip()`: `s` without its leading and trailing whitespace. */
  function Strip(s: string): string {
    var i := TrimStart(s, 0, |s|);
    s[i..TrimEnd(s, i, |s|)]
  }

  /** `strip` removes a whitespace prefix and a whitespace suffix and keeps
      everything between them, which neither starts nor ends with whitespace; the
      result is empty exactly when `s` is all whitespace. */
  lemma StripSpec(s: string)
    ensures exists i, j ::
      (0 <= i <= j <= |s| && Strip(s) == s[i..j] && AllSpace(s[..i]) && AllSpace(s[j..]))
    ensures IsTrimmed(Strip(s))
    ensures Strip(s) == [] <==> AllSpace(s)
    ensures IsSubstring(Strip(s), s)
  {
    var i := TrimStart(s, 0, |s|);
    var j := TrimEnd(s, i, |s|);
    assert i < |s| ==> i < j;
    assert AllSpace(s[..i]) by {
      forall k | 0 <= k < i ensures IsSpace(s[..i][k]) {
        assert s[..i][k] == s[k];
      }
    }
    assert AllSpace(s[j..]) by {
      forall k | 0 <= k < |s| - j ensures IsSpace(s[j..][k]) {
        assert s[j..][k] == s[j + k];
      }
    }
    if Strip(s) == [] {
      assert i == |s|;
    }
  }

  // ---------------------------------------------------------------------
  // The loop body (src/utils/text_processor.py:22-41)
  // ---------------------------------------------------------------------

  /** The end of the window that starts at `start` (lines 22-29). */
  function WindowEnd(text: string, start: int, chunkSize: int): int {
    var end := start + chunkSize;
    if end < |text| then
      var lastSpace := RFind(text, ' ', start, end);
      if lastSpace != -1 then lastSpace else end
    else end
  }

  /** The window end is `start + chunkSize`, pulled back to the last space in
      `text[start:start + chunkSize]` when the window ends inside the text and
      holds a space. */
  lemma WindowEndSpec(text: string, start: int, chunkSize: int)
    ensures var end := WindowEnd(text, start, chunkSize);
      && (start + chunkSize >= |text| ==> end == start + chunkSize)
      && (start + chunkSize < |text| ==>
            var lo, hi := Clamp(start, |text|), Clamp(start + chunkSize, |text|);
            if NoSpaceCharIn(text, lo, hi) then end == start + chunkSize
            else lo <= end < hi && text[end] == ' ' && NoSpaceCharIn(text, end + 1, hi))
  {
  }

  /** The next cursor (lines 37-41): `end - overlap`, or `end` itself when that
      would not lie before `end`, i.e. when the overlap is not positive. */
  function NextStart(end: int, overlap: int): (start: int)
    ensures start <= end
    ensures overlap <= 0 ==> start == end
    ensures overlap > 0 ==> start == end - overlap
  {
    var start := end - overlap;
    if start >= end then end else start
  }

  /** `text[start:end].strip()` for the window at `start` (line 32). */
  function ChunkAt(text: string, start: int, chunkSize: int): string {
    Strip(Slice(text, start, WindowEnd(text, start, chunkSize)))
  }

  /** A chunk has no surrounding whitespace, is a substring of the text, and is
      empty exactly when its window holds only whitespace. */
  lemma ChunkAtSpec(text: string, start: int, chunkSize: int)
    ensures IsTrimmed(ChunkAt(text, start, chunkSize))
    ensures IsSubstring(ChunkAt(text, start, chunkSize), text)
    ensures ChunkAt(text, start, chunkSize) == [] <==> AllSpace(Slice(text, start, WindowEnd(text, start, chunkSize)))
  {
    var w := Slice(text, start, WindowEnd(text, start, chunkSize));
    StripSpec(w);
    assert IsSubstring(w, text) by {
      var lo, hi := Clamp(start, |text|), Clamp(WindowEnd(text, start, chunkSize), |text|);
      if lo > hi {
        assert w == text[0..0];
      }
    }
    SubstringOfSubstring(ChunkAt(text, start, chunkSize), w, text);
  }

  /** What one pass of the loop body yields: the chunk it emits (empty when it
      emits nothing), the window end, and the next cursor. */
  datatype StepOut = StepOut(chunk: string, end: int, next: int)

  /** One pass of the loop body at cursor `start`. */
  function Step(text: string, chunkSize: int, overlap: int, start: int): StepOut {
    var end := WindowEnd(text, start, chunkSize);
    StepOut(ChunkAt(text, start, chunkSize), end, NextStart(end, overlap))
  }

  function StepFn(text: string, chunkSize: int, overlap: int): int -> StepOut {
    s => Step(text, chunkSize, overlap, s)
  }

  // ---------------------------------------------------------------------
  // The loop `while start < text_len` (lines 17-41), over any body
  // ---------------------------------------------------------------------

  /** `[chunk]` when the chunk is non-empty (line 33), else nothing. */
  function Emit(chunk: string): seq<string> {
    if chunk != [] then [chunk] else []
  }

  function Prepend(chunks: seq<string>, rest: Option<seq<string>>): Option<seq<string>> {
    match rest
    case None => None
    case Some(r) => Some(chunks + r)
  }

  /** The chunks the loop with body `step` appends from cursor `start` on, or None
      when it is still running after `fuel` more passes. */
  function Walk(step: int -> StepOut, textLen: nat, start: int, fuel: nat): Option<seq<string>>
    decreases fuel
  {
    if start >= textLen then Some([])
    else if fuel == 0 then None
    else Prepend(Emit(step(start).chunk), Walk(step, textLen, step(start).next, fuel - 1))
  }

  /** The cursors the loop visits from `start` on, within `fuel` passes. */
  function Trace(step: int -> StepOut, textLen: nat, start: int, fuel: nat): (cursors: seq<int>)
    ensures |cursors| <= fuel
    ensures forall k :: 0 <= k < |cursors| ==> cursors[k] < textLen
    decreases fuel
  {
    if start >= textLen || fuel == 0 then []
    else [start] + Trace(step, textLen, step(start).next, fuel - 1)
  }

  /** The non-empty chunks of the given cursors, in cursor order. */
  function Emitted(step: int -> StepOut, cursors: seq<int>): (chunks: seq<string>)
    ensures |chunks| <= |cursors|
  {
    if cursors == [] then []
    else Emit(step(cursors[0]).chunk) + Emitted(step, cursors[1..])
  }

  /** Emission follows the cursor order: the chunks of two runs of cursors, one
      after the other, are the chunks of the first followed by those of the second. */
  lemma {:induction false} EmittedAppend(step: int -> StepOut, a: seq<int>, b: seq<int>)
    ensures Emitted(step, a + b) == Emitted(step, a) + Emitted(step, b)
    decreases |a|
  {
    if a == [] {
      assert a + b == b;
    } else {
      assert (a + b)[0] == a[0];
      assert (a + b)[1..] == a[1..] + b;
      EmittedAppend(step, a[1..], b);
      var e := Emit(step(a[0]).chunk);
      assert Emitted(step, a + b) == e + Emitted(step, a[1..] + b);
      assert e + (Emitted(step, a[1..]) + Emitted(step, b)) == (e + Emitted(step, a[1..])) + Emitted(step, b);
    }
  }

  /** Every emitted chunk is non-empty and is the chunk of one of the cursors. */
  lemma {:induction false} EmittedFromCursors(step: int -> StepOut, cursors: seq<int>)
    ensures forall c :: c in Emitted(step, cursors) ==>
      c != [] && exists k :: 0 <= k < |cursors| && c == step(cursors[k]).chunk
    decreases |cursors|
  {
    if cursors != [] {
      EmittedFromCursors(step, cursors[1..]);
      forall c | c in Emitted(step, cursors)
        ensures c != [] && exists k :: 0 <= k < |cursors| && c == step(cursors[k]).chunk
      {
        if c in Emit(step(cursors[0]).chunk) {
          assert c == step(cursors[0]).chunk;
        } else {
          var k :| 0 <= k < |cursors[1..]| && c == step(cursors[1..][k]).chunk;
          assert c == step(cursors[k + 1]).chunk;
        }
      }
    }
  }

  /** When the loop finishes, it has appended exactly the non-empty chunks of the
      cursors it visited, in the order it visited them. */
  lemma {:induction false} WalkEmitsAlongTrace(step: int -> StepOut, textLen: nat, start: int, fuel: nat)
    requires Walk(step, textLen, start, fuel).Some?
    ensures Walk(step, textLen, start, fuel).value == Emitted(step, Trace(step, textLen, start, fuel))
    decreases fuel
  {
    if start < textLen {
      var next := step(start).next;
      WalkEmitsAlongTrace(step, textLen, next, fuel - 1);
      assert Trace(step, textLen, start, fuel)[1..] == Trace(step, textLen, next, fuel - 1);
    }
  }

  /** Every chunk a finished loop appends is the non-empty chunk of some cursor. */
  lemma WalkChunksAreStepChunks(step: int -> StepOut, textLen: nat, start: int, fuel: nat)
    requires Walk(step, textLen, start, fuel).Some?
    ensures forall c :: c in Walk(step, textLen, start, fuel).value ==>
      c != [] && exists s :: c == step(s).chunk
  {
    var cursors := Trace(step, textLen, start, fuel);
    WalkEmitsAlongTrace(step, textLen, start, fuel);
    EmittedFromCursors(step, cursors);
    forall c | c in Walk(step, textLen, start, fuel).value
      ensures c != [] && exists s :: c == step(s).chunk
    {
      var k :| 0 <= k < |cursors| && c == step(cursors[k]).chunk;
    }
  }

  /** A larger budget does not change a finished loop. */
  lemma {:induction false} WalkFuelMonotone(step: int -> StepOut, textLen: nat, start: int, fuel: nat, more: nat)
    requires fuel <= more
    requires Walk(step, textLen, start, fuel).Some?
    ensures Walk(step, textLen, start, more) == Walk(step, textLen, start, fuel)
    decreases fuel
  {
    if start < textLen {
      WalkFuelMonotone(step, textLen, step(start).next, fuel - 1, more - 1);
    }
  }

  /** A cursor inside the text that the body maps back to itself is visited
      forever: the loop never finishes, whatever the budget. */
  lemma {:induction false} WalkStallsAtFixedPoint(step: int -> StepOut, textLen: nat, start: int, fuel: nat)
    requires start < textLen
    requires step(start).next == start
    ensures Walk(step, textLen, start, fuel) == None
    decreases fuel
  {
    if fuel > 0 {
      WalkStallsAtFixedPoint(step, textLen, start, fuel - 1);
    }
  }

  /** Two cursors inside the text that the body maps to each other are visited
      in turn forever: the loop never finishes, whatever the budget. */
  lemma {:induction false} WalkCyclesBetweenTwo(step: int -> StepOut, textLen: nat, a: int, fuel: nat)
    requires a < textLen && step(a).next < textLen
    requires step(step(a).next).next == a
    ensures Walk(step, textLen, a, fuel) == None
    ensures Walk(step, textLen, step(a).next, fuel) == None
    decreases fuel
  {
    if fuel > 0 {
      WalkCyclesBetweenTwo(step, textLen, a, fuel - 1);
    }
  }

  /** The number of strides of length `stride` that cover `remaining` characters. */
  function StepsToEnd(remaining: int, stride: int): nat
    requires stride > 0
    decreases remaining
  {
    if remaining <= 0 then 0 else 1 + StepsToEnd(remaining - stride, stride)
  }

  /** `StepsToEnd` is ceil(remaining / stride): the least n with n * stride >= remaining. */
  lemma {:induction false} StepsToEndIsCeiling(remaining: int, stride: int)
    requires stride > 0 && remaining > 0
    ensures var n := StepsToEnd(remaining, stride);
      (n - 1) * stride < remaining <= n * stride
    decreases remaining
  {
    var n := StepsToEnd(remaining, stride);
    if remaining > stride {
      StepsToEndIsCeiling(remaining - stride, stride);
      assert (n - 1) * stride == (n - 2) * stride + stride;
      assert n * stride == (n - 1) * stride + stride;
    }
  }

  /** A body that always moves the cursor forward by the same stride: the loop
      visits `start, start + stride, ...` below `textLen` and finishes within
      `StepsToEnd(textLen - start, stride)` passes. */
  lemma {:induction false} WalkConstantStride(step: int -> StepOut, textLen: nat, stride: int, start: int, fuel: nat)
    requires stride > 0
    requires forall s :: start <= s < textLen ==> step(s).next == s + stride
    requires fuel >= StepsToEnd(textLen - start, stride)
    ensures var n := StepsToEnd(textLen - start, stride);
      && Walk(step, textLen, start, fuel).Some?
      && |Trace(step, textLen, start, fuel)| == n
      && forall k :: 0 <= k < n ==> Trace(step, textLen, start, fuel)[k] == start + k * stride
    decreases fuel
  {
    if start < textLen {
      var next := start + stride;
      WalkConstantStride(step, textLen, stride, next, fuel - 1);
      var n := StepsToEnd(textLen - start, stride);
      var cs := Trace(step, textLen, start, fuel);
      var rest := Trace(step, textLen, next, fuel - 1);
      assert cs == [start] + rest;
      forall k | 0 <= k < n ensures cs[k] == start + k * stride {
        if k > 0 {
          assert cs[k] == rest[k - 1] == next + (k - 1) * stride;
        }
      }
    }
  }

  /** Cursors whose chunks are all non-empty emit one chunk each. */
  lemma {:induction false} EmittedOnePerCursor(step: int -> StepOut, cursors: seq<int>)
    requires forall k :: 0 <= k < |cursors| ==> step(cursors[k]).chunk != []
    ensures |Emitted(step, cursors)| == |cursors|
    decreases |cursors|
  {
    if cursors != [] {
      assert step(cursors[0]).chunk != [];
      EmittedOnePerCursor(step, cursors[1..]);
    }
  }

  // ---------------------------------------------------------------------
  // chunk_text as written
  // ---------------------------------------------------------------------

  /** `chunk_text(text, chunk_size, overlap)` allowed `fuel` passes of its loop:
      the chunks, or None when the loop is still running after `fuel` passes. */
  function Chunks(text: string, chunkSize: int, overlap: int, fuel: nat): Option<seq<string>> {
    if text == [] then Some([]) else Walk(StepFn(text, chunkSize, overlap), |text|, 0, fuel)
  }

  /** The budget only decides whether a run finishes, never what a finished run
      returns. */
  lemma ChunksFuelMonotone(text: string, chunkSize: int, overlap: int, fuel: nat, more: nat)
    requires fuel <= more
    requires Chunks(text, chunkSize, overlap, fuel).Some?
    ensures Chunks(text, chunkSize, overlap, more) == Chunks(text, chunkSize, overlap, fuel)
  {
    if text != [] {
      WalkFuelMonotone(StepFn(text, chunkSize, overlap), |text|, 0, fuel, more);
    }
  }

  /** Every chunk of a finished run is non-empty, has no surrounding whitespace,
      and is a substring of the text; it is `text[s:end].strip()` for a cursor `s`
      the loop visited, in visiting order. */
  lemma ChunksWellFormed(text: string, chunkSize: int, overlap: int, fuel: nat)
    requires Chunks(text, chunkSize, overlap, fuel).Some?
    ensures text != [] ==>
      (Chunks(text, chunkSize, overlap, fuel).value
        == Emitted(StepFn(text, chunkSize, overlap), Trace(StepFn(text, chunkSize, overlap), |text|, 0, fuel)))
    ensures forall c :: c in Chunks(text, chunkSize, overlap, fuel).value ==>
      c != [] && IsTrimmed(c) && IsSubstring(c, text)
  {
    if text != [] {
      var step := StepFn(text, chunkSize, overlap);
      var chunks := Walk(step, |text|, 0, fuel).value;
      WalkEmitsAlongTrace(step, |text|, 0, fuel);
      WalkChunksAreStepChunks(step, |text|, 0, fuel);
      forall c | c in chunks
        ensures c != [] && IsTrimmed(c) && IsSubstring(c, text)
      {
        var s :| c == step(s).chunk;
        assert c == ChunkAt(text, s, chunkSize);
        ChunkAtSpec(text, s, chunkSize);
      }
    }
  }

  /** Appending a chunk when it is non-empty is appending what it emits. */
  lemma AppendEmit(chunks: seq<string>, chunk: string)
    ensures chunks + Emit(chunk) == if chunk != [] then chunks + [chunk] else chunks
  {
    if chunk == [] {
      assert chunks + [] == chunks;
    }
  }

  lemma ConcatAssoc(a: seq<string>, b: seq<string>, c: seq<string>)
    ensures a + (b + c) == (a + b) + c
  {
  }

  lemma PrependTwice(a: seq<string>, b: seq<string>, rest: Option<seq<string>>)
    ensures Prepend(a, Prepend(b, rest)) == Prepend(a + b, rest)
  {
    if rest.Some? {
      assert a + (b + rest.value) == (a + b) + rest.value;
    }
  }

  /** One pass of the loop body (lines 22-41) at cursor `start`: the window's
      stripped slice, the window's end, and the next cursor. */
  method Pass(text: string, chunkSize: int, overlap: int, start: int) returns (chunk: string, end: int, next: int)
    ensures StepOut(chunk, end, next) == Step(text, chunkSize, overlap, start)
  {
    end := start + chunkSize;
    if end < |text| {
      var lastSpace := RFind(text, ' ', start, end);
      if lastSpace != -1 {
        end := lastSpace;
      }
    }
    assert end == WindowEnd(text, start, chunkSize);
    chunk := Strip(Slice(text, start, end));
    assert chunk == ChunkAt(text, start, chunkSize);
    next := end - overlap;
    if next >= end {
      next := end;
    }
    assert next == NextStart(end, overlap);
  }

  /** `chunk_text`, allowed at most `fuel` passes of its loop. */
  method ChunkText(text: string, chunkSize: int, overlap: int, fuel: nat) returns (r: Option<seq<string>>)
    ensures r == Chunks(text, chunkSize, overlap, fuel)
    ensures text == [] ==> r == Some([])
    ensures r.Some? ==> forall c :: c in r.value ==> c != [] && IsTrimmed(c) && IsSubstring(c, text)
  {
    if |text| == 0 {
      return Some([]);
    }
    ghost var step := StepFn(text, chunkSize, overlap);
    var chunks: seq<string> := [];
    var start := 0;
    var textLen := |text|;
    var steps := 0;
    assert Prepend([], Walk(step, textLen, 0, fuel)) == Walk(step, textLen, 0, fuel) by {
      if Walk(step, textLen, 0, fuel).Some? {
        assert [] + Walk(step, textLen, 0, fuel).value == Walk(step, textLen, 0, fuel).value;
      }
    }
    while start < textLen && steps < fuel
      invariant 0 <= steps <= fuel
      invariant Walk(step, textLen, 0, fuel) == Prepend(chunks, Walk(step, textLen, start, fuel - steps))
      decreases fuel - steps
    {
      var chunk, end, next := Pass(text, chunkSize, overlap, start);
      assert step(start) == StepOut(chunk, end, next);
      ghost var rest := Walk(step, textLen, next, fuel - steps - 1);
      PrependTwice(chunks, Emit(chunk), rest);
      AppendEmit(chunks, chunk);
      if chunk != [] {
        chunks := chunks + [chunk];
      }
      start := next;
      steps := steps + 1;
    }
    if start < textLen {
      r := None;
    } else {
      r := Some(chunks);
      assert chunks + [] == chunks;
      ChunksWellFormed(text, chunkSize, overlap, fuel);
    }
  }

  // ---------------------------------------------------------------------
  // Text without whitespace, and the test case at tests/stress_test.py:44-47
  // ---------------------------------------------------------------------

  predicate NoWhitespace(text: string) {
    forall i :: 0 <= i < |text| ==> !IsSpace(text[i])
  }

  /** Without spaces and with `0 <= overlap < chunkSize`, each window keeps its
      proposed end and the cursor moves forward by exactly `chunkSize - overlap`. */
  lemma SpaceFreeStep(text: string, chunkSize: int, overlap: int, start: nat)
    requires NoSpaceCharIn(text, 0, |text|)
    requires 0 <= overlap < chunkSize
    ensures Step(text, chunkSize, overlap, start).end == start + chunkSize
    ensures Step(text, chunkSize, overlap, start).next == start + chunkSize - overlap
  {
    WindowEndSpec(text, start, chunkSize);
    if start + chunkSize < |text| {
      assert NoSpaceCharIn(text, start, start + chunkSize);
    }
  }

  /** Without spaces and with `0 <= overlap < chunkSize`, `chunk_text` visits the
      cursors `0, stride, 2 * stride, ...` below `|text|`, where
      `stride = chunkSize - overlap`, and finishes after ceil(|text| / stride) passes. */
  lemma SpaceFreeCursors(text: string, chunkSize: int, overlap: int, fuel: nat)
    requires NoSpaceCharIn(text, 0, |text|)
    requires 0 <= overlap < chunkSize
    requires fuel >= StepsToEnd(|text|, chunkSize - overlap)
    ensures var n := StepsToEnd(|text|, chunkSize - overlap);
      && Chunks(text, chunkSize, overlap, fuel).Some?
      && |Trace(StepFn(text, chunkSize, overlap), |text|, 0, fuel)| == n
      && forall k :: 0 <= k < n ==>
           Trace(StepFn(text, chunkSize, overlap), |text|, 0, fuel)[k] == k * (chunkSize - overlap)
  {
    var step := StepFn(text, chunkSize, overlap);
    SpaceFreeStride(text, chunkSize, overlap);
    ConstantStrideFromZero(step, |text|, chunkSize - overlap, fuel);
    if text != [] {
      assert Chunks(text, chunkSize, overlap, fuel) == Walk(step, |text|, 0, fuel);
    }
  }

  lemma SpaceFreeStride(text: string, chunkSize: int, overlap: int)
    requires NoSpaceCharIn(text, 0, |text|)
    requires 0 <= overlap < chunkSize
    ensures forall s :: 0 <= s < |text| ==>
      StepFn(text, chunkSize, overlap)(s).next == s + (chunkSize - overlap)
  {
    forall s | 0 <= s < |text|
      ensures StepFn(text, chunkSize, overlap)(s).next == s + (chunkSize - overlap)
    {
      SpaceFreeStep(text, chunkSize, overlap, s);
    }
  }

  /** `WalkConstantStride` from the cursor 0. */
  lemma ConstantStrideFromZero(step: int -> StepOut, textLen: nat, stride: int, fuel: nat)
    requires stride > 0
    requires forall s :: 0 <= s < textLen ==> step(s).next == s + stride
    requires fuel >= StepsToEnd(textLen, stride)
    ensures Walk(step, textLen, 0, fuel).Some?
    ensures |Trace(step, textLen, 0, fuel)| == StepsToEnd(textLen, stride)
    ensures forall k :: 0 <= k < StepsToEnd(textLen, stride) ==> Trace(step, textLen, 0, fuel)[k] == k * stride
  {
    WalkConstantStride(step, textLen, stride, 0, fuel);
    assert textLen - 0 == textLen;
    var cursors := Trace(step, textLen, 0, fuel);
    forall k | 0 <= k < |cursors| ensures cursors[k] == k * stride {
      assert cursors[k] == 0 + k * stride;
    }
  }


  lemma NonNegativeProduct(a: nat, b: nat)
    ensures a * b >= 0
  {
  }

  /** Without whitespace, every window inside the text has a non-empty chunk. */
  lemma WhitespaceFreeChunkAt(text: string, chunkSize: int, start: nat)
    requires NoWhitespace(text)
    requires 0 < chunkSize
    requires start < |text|
    ensures ChunkAt(text, start, chunkSize) != []
  {
    assert NoSpaceCharIn(text, 0, |text|) by {
      forall q | 0 <= q < |text| ensures text[q] != ' ' {
        assert !IsSpace(text[q]);
      }
    }
    SpaceFreeStep(text, chunkSize, 0, start);
    ChunkAtSpec(text, start, chunkSize);
    assert Slice(text, start, start + chunkSize)[0] == text[start];
  }

  /** Without whitespace and with `0 <= overlap < chunkSize`, `chunk_text` returns
      one chunk per cursor: ceil(|text| / (chunkSize - overlap)) chunks. */
  lemma WhitespaceFreeChunks(text: string, chunkSize: int, overlap: int, fuel: nat)
    requires NoWhitespace(text)
    requires 0 <= overlap < chunkSize
    requires fuel >= StepsToEnd(|text|, chunkSize - overlap)
    ensures Chunks(text, chunkSize, overlap, fuel).Some?
    ensures |Chunks(text, chunkSize, overlap, fuel).value| == StepsToEnd(|text|, chunkSize - overlap)
  {
    assert NoSpaceCharIn(text, 0, |text|) by {
      forall q | 0 <= q < |text| ensures text[q] != ' ' {
        assert !IsSpace(text[q]);
      }
    }
    SpaceFreeCursors(text, chunkSize, overlap, fuel);
    if text != [] {
      var step := StepFn(text, chunkSize, overlap);
      var cursors := Trace(step, |text|, 0, fuel);
      forall k | 0 <= k < |cursors| ensures step(cursors[k]).chunk != [] {
        NonNegativeProduct(k, chunkSize - overlap);
        WhitespaceFreeChunkAt(text, chunkSize, cursors[k]);
      }
      EmittedOnePerCursor(step, cursors);
      WalkEmitsAlongTrace(step, |text|, 0, fuel);
      assert Chunks(text, chunkSize, overlap, fuel).value == Emitted(step, cursors);
    }
  }

  /** `chunk_text("A" * 1200, chunk_size=500, overlap=100)` visits the cursors
      0, 400 and 800 and returns exactly three chunks. */
  lemma ThreeChunksFor1200As()
    ensures var r := Chunks(seq(1200, _ => 'A'), 500, 100, 3);
      r.Some? && |r.value| == 3
    ensures Trace(StepFn(seq(1200, _ => 'A'), 500, 100), 1200, 0, 3) == [0, 400, 800]
  {
    var text := seq(1200, _ => 'A');
    assert NoWhitespace(text);
    assert StepsToEnd(1200, 400) == 3;
    WhitespaceFreeChunks(text, 500, 100, 3);
    SpaceFreeCursors(text, 500, 100, 3);
  }

  /** A text without whitespace is its own strip. */
  lemma StripWhitespaceFree(s: string)
    requires NoWhitespace(s)
    ensures Strip(s) == s
  {
    var i := TrimStart(s, 0, |s|);
    assert i == 0;
    var j := TrimEnd(s, 0, |s|);
    assert j == |s|;
    assert s[0..|s|] == s;
  }


  /** A text no longer than `chunkSize` does not come back as a single chunk when
      it is longer than the stride `chunkSize - overlap`: the first chunk is the
      whole text, and the cursor `chunkSize - overlap` still lies inside it, so at
      least one more, contained chunk follows. */
  lemma ShortTextNotOneChunk(text: string, chunkSize: int, overlap: int, fuel: nat)
    requires NoWhitespace(text)
    requires 0 <= overlap < chunkSize
    requires chunkSize - overlap < |text| <= chunkSize
    requires fuel >= StepsToEnd(|text|, chunkSize - overlap)
    ensures Chunks(text, chunkSize, overlap, fuel).Some?
    ensures |Chunks(text, chunkSize, overlap, fuel).value| >= 2
    ensures Chunks(text, chunkSize, overlap, fuel).value[0] == text
  {
    var stride := chunkSize - overlap;
    assert StepsToEnd(|text|, stride) == 1 + StepsToEnd(|text| - stride, stride);
    assert StepsToEnd(|text| - stride, stride) >= 1;
    WhitespaceFreeChunks(text, chunkSize, overlap, fuel);
    var step := StepFn(text, chunkSize, overlap);
    WindowEndSpec(text, 0, chunkSize);
    assert Slice(text, 0, chunkSize) == text[0..|text|] == text;
    StripWhitespaceFree(text);
    assert step(0).chunk == text;
    assert Chunks(text, chunkSize, overlap, fuel)
        == Prepend([text], Walk(step, |text|, step(0).next, fuel - 1));
  }

  /** `chunk_text("abcdefgh", chunk_size=10, overlap=3)` returns the whole text and
      then its last character again. */
  lemma ShortTextExample()
    ensures Chunks("abcdefgh", 10, 3, 2) == Some(["abcdefgh", "h"])
  {
    var text := "abcdefgh";
    var step := StepFn(text, 10, 3);
    ShortTextSteps();
    assert |text| == 8;
    assert Walk(step, 8, 14, 0) == Some([]);
    assert Emit("h") == ["h"] && ["h"] + [] == ["h"];
    assert Walk(step, 8, 7, 1) == Prepend(["h"], Some([])) == Some(["h"]);
    assert Emit(text) == [text];
    assert [text] + ["h"] == [text, "h"];
    assert Walk(step, 8, 0, 2) == Prepend([text], Some(["h"])) == Some([text, "h"]);
  }

  lemma ShortTextSteps()
    ensures Step("abcdefgh", 10, 3, 0) == StepOut("abcdefgh", 10, 7)
    ensures Step("abcdefgh", 10, 3, 7) == StepOut("h", 17, 14)
  {
    var text := "abcdefgh";
    assert NoWhitespace(text);
    StripWhitespaceFree(text);
    assert Slice(text, 0, 10) == text;
    assert Slice(text, 7, 17) == "h";
    StripWhitespaceFree("h");
  }

  // ---------------------------------------------------------------------
  // The guard at lines 39-41 does not ensure progress
  // ---------------------------------------------------------------------

  /** When the last space of the first window sits exactly at index `overlap`, the
      cursor goes from 0 to that space and back to 0, so `chunk_text` never
      returns, whatever the budget. With the defaults (500, 100): a text longer
      than 500 characters with a space at index 100 and none at 101..499. */
  lemma NeverFinishesWhenSpaceAtOverlap(text: string, chunkSize: int, overlap: int)
    requires 0 < overlap < chunkSize < |text|
    requires text[overlap] == ' '
    requires NoSpaceCharIn(text, overlap + 1, chunkSize)
    ensures forall fuel: nat :: Chunks(text, chunkSize, overlap, fuel) == None
  {
    WindowEndSpec(text, 0, chunkSize);
    assert !NoSpaceCharIn(text, 0, chunkSize);
    assert WindowEnd(text, 0, chunkSize) == overlap;
    var step := StepFn(text, chunkSize, overlap);
    assert step(0).next == 0;
    forall fuel: nat ensures Chunks(text, chunkSize, overlap, fuel) == None {
      WalkStallsAtFixedPoint(step, |text|, 0, fuel);
    }
  }

  /** With the default arguments, a text longer than 500 characters whose first
      window has its last space at index 100 makes `chunk_text` run forever. */
  lemma DefaultsStall(text: string)
    requires |text| > DefaultChunkSize
    requires text[DefaultOverlap] == ' '
    requires NoSpaceCharIn(text, DefaultOverlap + 1, DefaultChunkSize)
    ensures forall fuel: nat :: Chunks(text, DefaultChunkSize, DefaultOverlap, fuel) == None
  {
    NeverFinishesWhenSpaceAtOverlap(text, DefaultChunkSize, DefaultOverlap);
  }

  /** `chunk_text("a bcd", chunk_size=3, overlap=1)` never returns: the first
      window ends at the space at index 1 and the cursor goes back to 0. */
  lemma StallExample()
    ensures forall fuel: nat :: Chunks("a bcd", 3, 1, fuel) == None
  {
    assert "a bcd"[1] == ' ' && "a bcd"[2] != ' ';
    NeverFinishesWhenSpaceAtOverlap("a bcd", 3, 1);
  }

  /** The first window of "ab cdefg" with (4, 3) ends at the space at index 2 and
      the cursor moves to -1, which Python reads as the last character: the next
      window `text[-1:3]` is empty. */
  lemma CursorGoesNegative()
    ensures Step("ab cdefg", 4, 3, 0).next == -1
    ensures Slice("ab cdefg", -1, WindowEnd("ab cdefg", -1, 4)) == []
  {
    WindowEndSpec("ab cdefg", 0, 4);
    assert !NoSpaceCharIn("ab cdefg", 0, 4) by { assert "ab cdefg"[2] == ' '; }
    assert WindowEnd("ab cdefg", 0, 4) == 2;
  }

  /** On the same input the window at -1 is `[-1, 3)`: `rfind` over the adjusted
      range `[7, 3)` finds nothing, so the window keeps its end 3 and the cursor
      goes back to 3 - 3 = 0. The cursor cycles 0, -1, 0, ... and
      `chunk_text("ab cdefg", 4, 3)` never returns. */
  lemma NegativeCursorCycles()
    ensures Step("ab cdefg", 4, 3, -1).next == 0
    ensures forall fuel: nat :: Chunks("ab cdefg", 4, 3, fuel) == None
  {
    CursorGoesNegative();
    WindowEndSpec("ab cdefg", -1, 4);
    assert RFind("ab cdefg", ' ', -1, 3) == -1;
    assert WindowEnd("ab cdefg", -1, 4) == 3;
    var step := StepFn("ab cdefg", 4, 3);
    assert step(0).next == -1 && step(-1).next == 0;
    forall fuel: nat ensures Chunks("ab cdefg", 4, 3, fuel) == None {
      WalkCyclesBetweenTwo(step, 8, 0, fuel);
    }
  }

  // ---------------------------------------------------------------------
  // The loop with a guard that does ensure progress
  // ---------------------------------------------------------------------

  /** The next cursor with the intended guard: when `end - overlap` does not lie
      past the current cursor, continue from `end`, or from one past the cursor
      when `end` has not moved past it either. */
  function FixedNext(out: StepOut, start: int): (next: int)
    ensures next > start
    ensures out.next > start ==> next == out.next
  {
    if out.next > start then out.next
    else if out.end > start then out.end
    else start + 1
  }

  /** The chunks the corrected loop appends from cursor `start` on: the loop
      always finishes, after at most one pass per character left. */
  function WalkFixed(step: int -> StepOut, textLen: nat, start: int): (chunks: seq<string>)
    ensures |chunks| <= if start < textLen then textLen - start else 0
    ensures forall c :: c in chunks ==> c != [] && exists s :: start <= s < textLen && c == step(s).chunk
    decreases textLen - start
  {
    if start >= textLen then []
    else
      var rest := WalkFixed(step, textLen, FixedNext(step(start), start));
      Emit(step(start).chunk) + rest
  }

  function ChunksFixed(text: string, chunkSize: int, overlap: int): seq<string> {
    if text == [] then [] else WalkFixed(StepFn(text, chunkSize, overlap), |text|, 0)
  }

  /** `chunk_text` with the progress guard corrected: it always returns, with at
      most one chunk per character, each non-empty, trimmed and a substring. */
  method ChunkTextFixed(text: string, chunkSize: int, overlap: int) returns (chunks: seq<string>)
    ensures chunks == ChunksFixed(text, chunkSize, overlap)
    ensures |chunks| <= |text|
    ensures forall c :: c in chunks ==> c != [] && IsTrimmed(c) && IsSubstring(c, text)
  {
    chunks := [];
    if |text| == 0 {
      return;
    }
    ghost var step := StepFn(text, chunkSize, overlap);
    var start := 0;
    var textLen := |text|;
    while start < textLen
      invariant 0 <= start
      invariant ChunksFixed(text, chunkSize, overlap) == chunks + WalkFixed(step, textLen, start)
      decreases textLen - start
    {
      var chunk, end, next := Pass(text, chunkSize, overlap, start);
      assert step(start) == StepOut(chunk, end, next);
      if next <= start {
        next := if end > start then end else start + 1;
      }
      ghost var rest := WalkFixed(step, textLen, next);
      assert WalkFixed(step, textLen, start) == Emit(chunk) + rest;
      AppendEmit(chunks, chunk);
      ConcatAssoc(chunks, Emit(chunk), rest);
      if chunk != [] {
        chunks := chunks + [chunk];
      }
      start := next;
    }
    ghost var all := ChunksFixed(text, chunkSize, overlap);
    forall c | c in all ensures c != [] && IsTrimmed(c) && IsSubstring(c, text) {
      var s :| 0 <= s < textLen && c == step(s).chunk;
      assert c == ChunkAt(text, s, chunkSize);
      ChunkAtSpec(text, s, chunkSize);
    }
  }

  /** Where every pass of the loop as written moves the cursor forward, it
      finishes within `textLen - start` passes and appends exactly what the
      corrected loop appends. */
  lemma {:induction false} WalkAgreesWhenAdvancing(step: int -> StepOut, textLen: nat, start: int, fuel: nat)
    requires forall s :: start <= s < textLen ==> step(s).next > s
    requires fuel >= textLen - start
    ensures Walk(step, textLen, start, fuel) == Some(WalkFixed(step, textLen, start))
    decreases textLen - start
  {
    if start < textLen {
      var next := step(start).next;
      assert next > start;
      WalkAgreesWhenAdvancing(step, textLen, next, fuel - 1);
    }
  }

  /** On text without spaces, with `0 <= overlap < chunkSize`, `chunk_text` as
      written finishes within `|text|` passes and agrees with the corrected loop. */
  lemma SpaceFreeAgrees(text: string, chunkSize: int, overlap: int)
    requires NoSpaceCharIn(text, 0, |text|)
    requires 0 <= overlap < chunkSize
    ensures Chunks(text, chunkSize, overlap, |text|) == Some(ChunksFixed(text, chunkSize, overlap))
  {
    if text != [] {
      var step := StepFn(text, chunkSize, overlap);
      forall s | 0 <= s < |text| ensures step(s).next > s {
        SpaceFreeStep(text, chunkSize, overlap, s);
      }
      WalkAgreesWhenAdvancing(step, |text|, 0, |text|);
    }
  }
}
