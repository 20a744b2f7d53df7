/** The overlapping token windows shared by `chunker.py` and the long-document path
    of `chunker2.py`: start offsets `range(0, n, ChunkSize - Stride)`, each window the
    slice `ids[i:i + ChunkSize]`, and windows of fewer than `MinChunk` tokens skipped. */
module Windowing {

  const ChunkSize: nat := 4096
  const Stride: nat := 512
  /** The distance between consecutive window starts, `chunk_size - stride`. */
  const Step: nat := ChunkSize - Stride
  /** Windows shorter than this are skipped (`len(chunk_ids) < 10`). */
  const MinChunk: nat := 10

  function Min(a: int, b: int): int {
    if a <= b then a else b
  }

  /** `range(i, n, Step)`. */
  function OffsetsFrom(i: nat, n: nat): seq<nat>
    decreases n - i
  {
    if i >= n then [] else [i] + OffsetsFrom(i + Step, n)
  }

  /** The start offsets the loop visits for a document of `n` tokens. */
  function Offsets(n: nat): seq<nat> {
    OffsetsFrom(0, n)
  }

  /** `ids[i:i + ChunkSize]`. */
  function Window(ids: seq<int>, i: nat): seq<int>
    requires i <= |ids|
  {
    ids[i..Min(i + ChunkSize, |ids|)]
  }

  /** The offsets from `i` on whose window is long enough to be kept; the window at
      offset `i < n` has `Min(ChunkSize, n - i)` tokens. */
  function KeptFrom(i: nat, n: nat): seq<nat>
    decreases n - i
  {
    if i >= n then []
    else (if n - i >= MinChunk then [i] else []) + KeptFrom(i + Step, n)
  }

  /** The start offsets of the windows kept for a document of `n` tokens. */
  function KeptStarts(n: nat): seq<nat> {
    KeptFrom(0, n)
  }

  /** Every window holds at most `ChunkSize` tokens, exactly `ChunkSize` when it does
      not run past the end of the document. */
  lemma WindowLength(ids: seq<int>, i: nat)
    requires i < |ids|
    ensures 0 < |Window(ids, i)| <= ChunkSize
    ensures i + ChunkSize <= |ids| ==> |Window(ids, i)| == ChunkSize
    ensures i + ChunkSize > |ids| ==> Window(ids, i) == ids[i..]
  {
  }

  lemma {:induction false} OffsetsFromShape(i: nat, n: nat)
    ensures |OffsetsFrom(i, n)| == if i >= n then 0 else (n - i + Step - 1) / Step
    ensures forall k :: 0 <= k < |OffsetsFrom(i, n)| ==> OffsetsFrom(i, n)[k] == i + k * Step
    decreases n - i
  {
    if i < n {
      OffsetsFromShape(i + Step, n);
      var rest := OffsetsFrom(i + Step, n);
      forall k | 1 <= k < |OffsetsFrom(i, n)| ensures OffsetsFrom(i, n)[k] == i + k * Step {
        assert OffsetsFrom(i, n)[k] == rest[k - 1];
      }
    }
  }

  /** The loop visits `ceil(n / Step)` offsets, the k-th of them `k * Step`: exactly
      the multiples of `Step` below `n`, in increasing order. */
  lemma OffsetsAreMultiples(n: nat)
    ensures |Offsets(n)| == (n + Step - 1) / Step
    ensures forall k :: 0 <= k < |Offsets(n)| ==> Offsets(n)[k] == k * Step
    ensures forall o: nat :: o in Offsets(n) <==> o % Step == 0 && o < n
  {
    OffsetsFromShape(0, n);
    forall o: nat | o % Step == 0 && o < n ensures o in Offsets(n) {
      var k := o / Step;
      assert Offsets(n)[k] == o;
    }
  }

  lemma {:induction false} KeptFromShape(i: nat, n: nat)
    requires i % Step == 0
    ensures forall j :: 0 <= j < |KeptFrom(i, n)| ==> KeptFrom(i, n)[j] == i + j * Step
    ensures forall o: nat :: o in KeptFrom(i, n) <==> i <= o && o % Step == 0 && o + MinChunk <= n
    decreases n - i
  {
    if i < n {
      KeptFromShape(i + Step, n);
      var rest := KeptFrom(i + Step, n);
      if n - i >= MinChunk {
        forall j | 1 <= j < |KeptFrom(i, n)| ensures KeptFrom(i, n)[j] == i + j * Step {
          assert KeptFrom(i, n)[j] == rest[j - 1];
        }
      } else {
        assert rest == [];
      }
    }
  }

  /** The kept windows start at `0, Step, 2 * Step, ...`, and a multiple `o` of `Step`
      starts a kept window exactly when at least `MinChunk` tokens remain from `o`. */
  lemma KeptStartsAreMultiples(n: nat)
    ensures forall j :: 0 <= j < |KeptStarts(n)| ==> KeptStarts(n)[j] == j * Step
    ensures forall o: nat :: o in KeptStarts(n) <==> o % Step == 0 && o + MinChunk <= n
  {
    KeptFromShape(0, n);
  }

  lemma {:induction false} KeptFromDropsOnlyLast(i: nat, n: nat)
    ensures var offs, kept := OffsetsFrom(i, n), KeptFrom(i, n);
      if offs != [] && n - offs[|offs| - 1] < MinChunk then kept == offs[..|offs| - 1]
      else kept == offs
    decreases n - i
  {
    if i < n {
      KeptFromDropsOnlyLast(i + Step, n);
      if n - i < MinChunk {
        assert OffsetsFrom(i + Step, n) == [];
      }
    }
  }

  /** Only the final window of a document can be skipped: the kept offsets are all the
      visited offsets, or all but the last, and the last is dropped exactly when fewer
      than `MinChunk` tokens remain from it. */
  lemma OnlyLastWindowDropped(n: nat)
    ensures var offs, kept := Offsets(n), KeptStarts(n);
      if offs != [] && n - offs[|offs| - 1] < MinChunk then kept == offs[..|offs| - 1]
      else kept == offs
  {
    KeptFromDropsOnlyLast(0, n);
  }

  /** With at least `MinChunk` tokens, every token `t` lies in some kept window: a
      dropped tail is covered by the window before it. */
  lemma TokenCovered(n: nat, t: nat)
    requires n >= MinChunk && t < n
    ensures exists j :: 0 <= j < |KeptStarts(n)| && KeptStarts(n)[j] <= t < KeptStarts(n)[j] + ChunkSize
  {
    var ks := KeptStarts(n);
    KeptStartsAreMultiples(n);
    var o := t - t % Step;
    var start: nat := if o + MinChunk <= n then o else o - Step;
    assert start in ks;
    var j :| 0 <= j < |ks| && ks[j] == start;
  }

  /** A full window and the next one share `Stride` tokens: the last `Stride` tokens
      of the window at `o` are the first `Stride` of the window at `o + Step`. */
  lemma ConsecutiveWindowsOverlap(ids: seq<int>, o: nat)
    requires o + ChunkSize <= |ids|
    ensures |Window(ids, o)| == ChunkSize && |Window(ids, o + Step)| >= Stride
    ensures Window(ids, o)[Step..] == Window(ids, o + Step)[..Stride]
  {
  }

  /** There is no short-document fast path in the windowing itself: a document of
      `Step < n <= ChunkSize` tokens is visited at 0 and `Step`, and its tail window
      is kept when at least `MinChunk` tokens remain; a document shorter than
      `MinChunk` keeps no window at all. */
  lemma NoFastPath(n: nat)
    ensures Step < n <= ChunkSize ==> Offsets(n) == [0, Step]
    ensures Step < n <= ChunkSize ==>
      KeptStarts(n) == if n - Step >= MinChunk then [0, Step] else [0]
    ensures n < MinChunk ==> KeptStarts(n) == []
  {
    if Step < n <= ChunkSize {
      assert OffsetsFrom(2 * Step, n) == [];
      assert OffsetsFrom(Step, n) == [Step];
      assert KeptFrom(2 * Step, n) == [];
      assert KeptFrom(Step, n) == if n - Step >= MinChunk then [Step] else [];
    }
    if n < MinChunk {
      assert KeptFrom(Step, n) == [];
    }
  }

  /** A document longer than `ChunkSize` always keeps its first two windows. */
  lemma LongDocumentKeepsTwo(n: nat)
    requires n > ChunkSize
    ensures |KeptStarts(n)| >= 2 && KeptStarts(n)[0] == 0 && KeptStarts(n)[1] == Step
  {
    assert KeptFrom(Step, n) == [Step] + KeptFrom(2 * Step, n);
  }

  /** The kept windows of a 7500-token document hold 4096, 3916 and 332 tokens: the
      short window is not always the last one alone. */
  lemma Windows7500()
    ensures KeptStarts(7500) == [0, 3584, 7168]
    ensures forall ids: seq<int> | |ids| == 7500 ::
      |Window(ids, 0)| == 4096 && |Window(ids, 3584)| == 3916 && |Window(ids, 7168)| == 332
  {
    assert KeptFrom(3 * Step, 7500) == [];
    assert KeptFrom(2 * Step, 7500) == [2 * Step];
    assert KeptFrom(Step, 7500) == [Step, 2 * Step];
  }
}
