/** chunkText: the text's words are cut into windows of at most `size`
    words; window k starts at word k * step, and the first window that
    reaches the last word is the last one. */
module Chunker {
  import opened Text

  /** Go's int(x) of a non-integral quotient: division truncating toward zero. */
  function TruncDiv(a: int, b: int): (q: int)
    requires b > 0
    ensures a >= 0 ==> 0 <= q && q * b <= a < q * b + b
    ensures a < 0 ==> q <= 0 && q * b - b < a <= q * b
  {
    if a >= 0 then
      DivFacts(a, b);
      a / b
    else
      DivFacts(-a, b);
      NegMul((-a) / b, b);
      -((-a) / b)
  }

  /** int(float64(size) * (1 - overlap)) for the overlap num/den, computed
      exactly on rationals. */
  function RawStep(size: int, overlapNum: int, overlapDen: int): int
    requires overlapDen > 0
  {
    TruncDiv(size * (overlapDen - overlapNum), overlapDen)
  }

  /** The degenerate-step guard: a step that is not positive becomes `size`. */
  function Stride(size: int, rawStep: int): (step: int)
    ensures size >= 1 ==> step >= 1
    ensures rawStep >= 1 ==> step == rawStep
  {
    if rawStep <= 0 then size else rawStep
  }

  /** With an overlap between 0 and 1 the step is at least 1 and at most the
      window size. */
  lemma StrideWithinWindow(size: int, overlapNum: int, overlapDen: int)
    requires size >= 1 && overlapDen > 0 && 0 <= overlapNum <= overlapDen
    ensures 1 <= Stride(size, RawStep(size, overlapNum, overlapDen)) <= size
  {
    var p := size * (overlapDen - overlapNum);
    assert 0 <= p <= size * overlapDen by {
      MulMonotone(overlapDen - overlapNum, overlapDen, size);
    }
    DivFacts(p, overlapDen);
    var q := p / overlapDen;
    if q > size {
      MulMonotone(size + 1, q, overlapDen);
      MulSucc(size, overlapDen);
    }
  }

  lemma NegMul(x: int, y: int)
    ensures (-x) * y == -(x * y)
  {
  }

  lemma DivFacts(a: nat, b: nat)
    requires b > 0
    ensures 0 <= a / b && (a / b) * b <= a < (a / b) * b + b
  {
  }

  /** Window k is emitted: it starts before the last word, and no earlier
      window already reached the last word. */
  predicate Emitted(n: nat, size: nat, step: nat, k: nat) {
    k * step < n && (k == 0 || (k - 1) * step + size < n)
  }

  lemma EmittedDownward(n: nat, size: nat, step: nat, j: nat, k: nat)
    requires j <= k && Emitted(n, size, step, k)
    ensures Emitted(n, size, step, j)
  {
    assert j * step <= k * step by { MulMonotone(j, k, step); }
    if j > 0 {
      assert (j - 1) * step <= (k - 1) * step by { MulMonotone(j - 1, k - 1, step); }
    }
  }

  lemma MulSucc(a: nat, c: nat)
    ensures (a + 1) * c == a * c + c
  {
  }

  lemma MulMonotone(a: nat, b: nat, c: nat)
    requires a <= b
    ensures a * c <= b * c
  {
  }

  /** The first window index at or after k that is not emitted. */
  function CountFrom(n: nat, size: nat, step: nat, k: nat): nat
    requires step >= 1
    decreases n - k * step
  {
    if Emitted(n, size, step, k) then
      assert (k + 1) * step == k * step + step;
      CountFrom(n, size, step, k + 1)
    else k
  }

  /** The number of windows. */
  function Count(n: nat, size: nat, step: nat): nat
    requires step >= 1
  {
    CountFrom(n, size, step, 0)
  }

  lemma {:induction false} CountFromSpec(n: nat, size: nat, step: nat, k: nat)
    requires step >= 1
    ensures k <= CountFrom(n, size, step, k)
    ensures forall j :: k <= j < CountFrom(n, size, step, k) ==> Emitted(n, size, step, j)
    ensures !Emitted(n, size, step, CountFrom(n, size, step, k))
    decreases n - k * step
  {
    if Emitted(n, size, step, k) {
      assert (k + 1) * step == k * step + step;
      CountFromSpec(n, size, step, k + 1);
    }
  }

  /** A window is emitted exactly when its index is below the count. */
  lemma CountExact(n: nat, size: nat, step: nat)
    requires step >= 1
    ensures forall k: nat {:trigger Emitted(n, size, step, k)} ::
              k < Count(n, size, step) <==> Emitted(n, size, step, k)
  {
    var c := Count(n, size, step);
    CountFromSpec(n, size, step, 0);
    forall k: nat | c <= k ensures !Emitted(n, size, step, k) {
      if Emitted(n, size, step, k) { EmittedDownward(n, size, step, c, k); }
    }
  }

  /** End of the window that starts at `start`: start + size, clamped to n. */
  function WindowEnd(start: nat, size: nat, n: nat): nat {
    if start + size > n then n else start + size
  }

  /** The windows joined by single spaces: the specification of chunkText. */
  function Chunks(words: seq<string>, size: nat, step: nat): (cs: seq<string>)
    requires step >= 1
  {
    seq(Count(|words|, size, step), k requires 0 <= k => Window(words, size, step, k))
  }

  /** Window k joined by single spaces; a start past the last word gives an
      empty window. */
  function Window(words: seq<string>, size: nat, step: nat, k: nat): string {
    var n := |words|;
    var start := if k * step < n then k * step else n;
    Join(words[start..WindowEnd(start, size, n)], " ")
  }

  /** chunkText(text, size, overlap), where `rawStep` is the step computed
      from the overlap, RawStep(size, overlapNum, overlapDen), before the
      guard. */
  method ChunkText(text: string, size: int, rawStep: int) returns (chunks: seq<string>)
    requires size >= 1
    ensures chunks == Chunks(Fields(text), size, Stride(size, rawStep))
  {
    var words := Fields(text);
    var step := rawStep;
    if step <= 0 {
      step := size;
    }
    chunks := CutWindows(words, size, step);
  }

  /** The loop of chunkText: window after window, advancing by `step`, until
      a window reaches the last word or the next one would start past it. */
  method CutWindows(words: seq<string>, size: nat, step: nat) returns (chunks: seq<string>)
    requires size >= 1 && step >= 1
    ensures chunks == Chunks(words, size, step)
  {
    ghost var n := |words|;
    ghost var spec := Chunks(words, size, step);
    chunks := [];
    var i := 0;
    while i < |words|
      invariant |chunks| <= |spec| && chunks == spec[..|chunks|]
      invariant i == |chunks| * step
      invariant chunks == [] || (|chunks| - 1) * step + size < n
    {
      var end := i + size;
      if end > |words| {
        end := |words|;
      }
      ghost var k := |chunks|;
      ChunkAt(words, size, step, k);
      assert end == WindowEnd(k * step, size, n);
      PrefixGrows(spec, k);
      chunks := chunks + [Join(words[i..end], " ")];
      if end == |words| {
        ChunkAfterLast(words, size, step, k);
        break;
      }
      MulSucc(k, step);
      i := i + step;
    }
    ChunkAfterLast(words, size, step, |chunks| - 1);
    assert chunks == spec;
  }

  lemma PrefixGrows(s: seq<string>, k: nat)
    requires k < |s|
    ensures s[..k] + [s[k]] == s[..k + 1]
  {
  }

  /** Window k, when emitted, is chunk k. */
  lemma ChunkAt(words: seq<string>, size: nat, step: nat, k: nat)
    requires step >= 1
    requires k * step < |words| && (k == 0 || (k - 1) * step + size < |words|)
    ensures k < |Chunks(words, size, step)|
    ensures Chunks(words, size, step)[k] == Join(words[k * step..WindowEnd(k * step, size, |words|)], " ")
  {
    CountExact(|words|, size, step);
    assert Emitted(|words|, size, step, k);
  }

  /** After a window that reaches the last word, or when the next start lies
      past it, there are no more chunks. */
  lemma ChunkAfterLast(words: seq<string>, size: nat, step: nat, k: int)
    requires step >= 1 && -1 <= k
    requires k + 1 <= |Chunks(words, size, step)|
    requires (k + 1) * step >= |words| || (k >= 0 && k * step + size >= |words|)
    ensures |Chunks(words, size, step)| == k + 1
  {
    CountExact(|words|, size, step);
    assert !Emitted(|words|, size, step, k + 1);
  }

  /** Text with no words gives no chunks; text with words gives at least one. */
  lemma ChunksEmpty(words: seq<string>, size: nat, step: nat)
    requires step >= 1
    ensures Chunks(words, size, step) == [] <==> words == []
  {
    CountExact(|words|, size, step);
    if words != [] {
      assert Emitted(|words|, size, step, 0);
    }
  }

  /** Chunk k is words [k * step, min(k * step + size, n)) joined by single
      spaces, holds at most `size` words, and splitting it again gives those
      words back. */
  lemma ChunkShape(words: seq<string>, size: nat, step: nat, k: nat)
    requires size >= 1 && step >= 1 && AllWords(words)
    requires k < |Chunks(words, size, step)|
    ensures k * step < |words|
    ensures Chunks(words, size, step)[k] == Join(words[k * step..WindowEnd(k * step, size, |words|)], " ")
    ensures Fields(Chunks(words, size, step)[k]) == words[k * step..WindowEnd(k * step, size, |words|)]
    ensures 1 <= |Fields(Chunks(words, size, step)[k])| <= size
  {
    var n := |words|;
    CountExact(n, size, step);
    assert Emitted(n, size, step, k);
    var lo, hi := k * step, WindowEnd(k * step, size, n);
    assert Chunks(words, size, step)[k] == Window(words, size, step, k);
    AllWordsSlice(words, lo, hi);
    FieldsOfJoin(words[lo..hi]);
  }

  lemma AllWordsSlice(words: seq<string>, lo: nat, hi: nat)
    requires AllWords(words) && lo <= hi <= |words|
    ensures AllWords(words[lo..hi])
  {
    var part := words[lo..hi];
    forall i | 0 <= i < |part| ensures IsWord(part[i]) {
      assert part[i] == words[lo + i];
    }
  }

  /** When the step does not exceed the window size, the last chunk ends at
      the last word and no earlier chunk does. */
  lemma LastChunkReachesEnd(words: seq<string>, size: nat, step: nat)
    requires 1 <= step <= size && words != []
    ensures |Chunks(words, size, step)| >= 1
    ensures WindowEnd((|Chunks(words, size, step)| - 1) * step, size, |words|) == |words|
    ensures forall k :: 0 <= k < |Chunks(words, size, step)| - 1 ==>
              WindowEnd(k * step, size, |words|) < |words|
  {
    assert |Chunks(words, size, step)| == Count(|words|, size, step);
    LastWindowReachesEnd(|words|, size, step);
  }

  lemma LastWindowReachesEnd(n: nat, size: nat, step: nat)
    requires 1 <= step <= size && n >= 1
    ensures Count(n, size, step) >= 1
    ensures WindowEnd((Count(n, size, step) - 1) * step, size, n) == n
    ensures forall k :: 0 <= k < Count(n, size, step) - 1 ==> WindowEnd(k * step, size, n) < n
  {
    var c := Count(n, size, step);
    CountExact(n, size, step);
    assert Emitted(n, size, step, 0);
    assert !Emitted(n, size, step, c);
    assert Emitted(n, size, step, c - 1);
    MulSucc(c - 1, step);
    forall k | 0 <= k < c - 1 ensures WindowEnd(k * step, size, n) < n {
      assert Emitted(n, size, step, k + 1);
      assert (k + 1 - 1) * step == k * step;
    }
  }

  /** The number of chunks: none for no words, one when all words fit in one
      window, otherwise one more than ceil((n - size) / step). */
  lemma ChunkCount(words: seq<string>, size: nat, step: nat)
    requires 1 <= step <= size
    ensures |Chunks(words, size, step)| ==
              if words == [] then 0
              else if |words| <= size then 1
              else 1 + (|words| - size + step - 1) / step
  {
    var n, c := |words|, |Chunks(words, size, step)|;
    CountExact(n, size, step);
    if words == [] {
      assert !Emitted(n, size, step, 0);
    } else {
      LastChunkReachesEnd(words, size, step);
      assert 0 * step == 0;
      if n > size {
        assert WindowEnd(0, size, n) < n;
        var m := c - 1;
        assert m * step >= n - size;
        assert (m - 1) * step < n - size by {
          assert WindowEnd((m - 1) * step, size, n) < n;
        }
        MulSucc(m - 1, step);
        DivBetween(n - size + step - 1, step, m);
      } else {
        assert WindowEnd(0, size, n) == n;
      }
    }
  }

  lemma DivBetween(a: nat, b: nat, m: nat)
    requires b > 0 && m * b <= a < m * b + b
    ensures a / b == m
  {
    DivFacts(a, b);
    var q := a / b;
    if q > m {
      MulMonotone(m + 1, q, b);
      MulSucc(m, b);
    } else if q < m {
      MulMonotone(q + 1, m, b);
      MulSucc(q, b);
    }
  }

  /** With a step no larger than the window, every word lies in some chunk. */
  lemma ChunksCoverWords(words: seq<string>, size: nat, step: nat, w: nat)
    requires 1 <= step <= size && w < |words|
    ensures exists k :: 0 <= k < |Chunks(words, size, step)|
                        && k * step <= w < WindowEnd(k * step, size, |words|)
  {
    var n, c := |words|, |Chunks(words, size, step)|;
    CountExact(n, size, step);
    var k := w / step;
    DivFacts(w, step);
    if k < c {
      assert k * step <= w < WindowEnd(k * step, size, n);
    } else {
      LastChunkReachesEnd(words, size, step);
      MulMonotone(c - 1, k, step);
      assert (c - 1) * step <= w < WindowEnd((c - 1) * step, size, n);
    }
  }

  /** Eight words, a window of 4 and an overlap of 1/4: the step is 3 and the
      chunks are "a b c d", "d e f g" and "g h". */
  lemma EightWordExample(words: seq<string>)
    requires words == ["a", "b", "c", "d", "e", "f", "g", "h"]
    ensures Stride(4, RawStep(4, 1, 4)) == 3
    ensures Chunks(words, 4, 3) ==
              [Join(["a", "b", "c", "d"], " "), Join(["d", "e", "f", "g"], " "), Join(["g", "h"], " ")]
  {
    ChunkCount(words, 4, 3);
    var cs := Chunks(words, 4, 3);
    assert |cs| == 3;
    ChunkAt(words, 4, 3, 0);
    ChunkAt(words, 4, 3, 1);
    ChunkAt(words, 4, 3, 2);
    assert words[0..4] == ["a", "b", "c", "d"];
    assert words[3..7] == ["d", "e", "f", "g"];
    assert words[6] == "g" && words[7] == "h";
    assert words[6..8] == ["g", "h"];
  }
}
