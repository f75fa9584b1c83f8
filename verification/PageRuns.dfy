/** Merging pages that follow each other in memory into chunks of a scatter list, in the
    arithmetic of the machine. */
module PageRuns {
  import opened Common

  const PAGE: nat := 4096

  /** Pages in four gigabytes: as many as do not fit when counted in bytes in 32 bits. */
  const TWO20: nat := 0x10_0000

  /** A chunk: its first page, by index, its length in bytes and its offset in that page. */
  datatype Chunk = Chunk(page: nat, length: nat, offset: nat)

  /** Page i does not follow page i - 1 in memory. */
  predicate Break(pages: seq<nat>, i: nat)
    requires 0 < i < |pages|
  {
    pages[i] != pages[i - 1] + 1
  }

  ghost predicate Rising(cuts: seq<nat>) {
    |cuts| > 0 && cuts[0] == 0 && forall i, j | 0 <= i < j < |cuts| :: cuts[i] < cuts[j]
  }

  /** Cutting points, first and last included, that divide the pages into their maximal
      contiguous runs. */
  ghost predicate Cuts(pages: seq<nat>, cuts: seq<nat>) {
    && |cuts| >= 2 && Rising(cuts) && cuts[|cuts| - 1] == |pages|
    && (forall p | 0 < p < |pages| :: Break(pages, p) <==> p in cuts)
  }

  /** There is only one way to do so. */
  lemma {:induction false} CutsUnique(pages: seq<nat>, a: seq<nat>, b: seq<nat>, k: nat)
    requires Cuts(pages, a) && Cuts(pages, b) && k < |a|
    ensures k < |b| && a[k] == b[k]
    decreases k
  {
    if k > 0 {
      CutsUnique(pages, a, b, k - 1);
      NextCut(pages, a, b, k);
      NextCut(pages, b, a, k);
    }
  }

  lemma NextCut(pages: seq<nat>, a: seq<nat>, b: seq<nat>, k: nat)
    requires Cuts(pages, a) && Cuts(pages, b) && 0 < k < |a| && k - 1 < |b| && a[k - 1] == b[k - 1]
    ensures k < |b| && b[k] <= a[k]
  {
    var p := a[k];
    assert p in b by {
      assert p in a;
      assert b[|b| - 1] in b;
    }
    var i :| 0 <= i < |b| && b[i] == p;
    assert i > k - 1;
  }

  lemma OneDivision(pages: seq<nat>, a: seq<nat>, b: seq<nat>)
    requires Cuts(pages, a) && Cuts(pages, b)
    ensures a == b
  {
    CutsUnique(pages, a, b, |a| - 1);
    CutsUnique(pages, b, a, |b| - 1);
    forall k | 0 <= k < |a|
      ensures a[k] == b[k]
    {
      CutsUnique(pages, a, b, k);
    }
  }

  /** Breaks at 1 to i. */
  ghost function Breaks(pages: seq<nat>, i: nat): nat
    requires i < |pages|
  {
    if i == 0 then 0 else Breaks(pages, i - 1) + if Break(pages, i) then 1 else 0
  }

  ghost function Sum(chunks: seq<Chunk>): nat {
    if chunks == [] then 0 else Sum(chunks[..|chunks| - 1]) + chunks[|chunks| - 1].length
  }

  method CountChunks(pages: seq<nat>) returns (chunks: nat)
    requires |pages| > 0
    ensures chunks == 1 + Breaks(pages, |pages| - 1)
  {
    chunks := 1;
    var i := 1;
    while i < |pages|
      invariant 1 <= i <= |pages| && chunks == 1 + Breaks(pages, i - 1)
    {
      if Break(pages, i) {
        chunks := chunks + 1;
      }
      i := i + 1;
    }
  }

  method EndOfChunk(pages: seq<nat>, cur: nat) returns (j: nat)
    requires cur < |pages|
    ensures cur < j <= |pages| && (j < |pages| ==> Break(pages, j))
    ensures forall p | cur < p < j :: !Break(pages, p)
    ensures Breaks(pages, j - 1) == Breaks(pages, cur)
  {
    j := cur + 1;
    while j < |pages|
      invariant cur < j <= |pages| && Breaks(pages, j - 1) == Breaks(pages, cur)
      invariant forall p | cur < p < j :: !Break(pages, p)
    {
      if Break(pages, j) {
        break;
      }
      j := j + 1;
    }
  }

  // ----- what the second loop computes

  /** The size of a chunk: the shift is done in 32 bits, the subtraction in 64. */
  function ChunkSize(pages: nat, off: nat): (r: nat)
    ensures r < TWO64
  {
    ((pages * PAGE) % TWO32 - off) % TWO64
  }

  function Off(k: nat, offset: nat): nat {
    if k == 0 then offset else 0
  }

  /** The size counter before chunk k. */
  ghost function Left(cuts: seq<nat>, k: nat, offset: nat, size: nat): nat
    requires Rising(cuts) && k < |cuts|
  {
    if k == 0 then size
    else (Left(cuts, k - 1, offset, size) - ChunkSize(cuts[k] - cuts[k - 1], Off(k - 1, offset))) % TWO64
  }

  /** The length of chunk k as stored, in 32 bits. */
  function Stored(left: nat, chunkSize: nat): (r: nat)
    ensures r <= left && r <= chunkSize && r < 0x1_0000_0000
    ensures left < 0x1_0000_0000 || chunkSize < 0x1_0000_0000 ==> r == left || r == chunkSize
  {
    (if left < chunkSize then left else chunkSize) % TWO32
  }

  /** Chunk k, for pages divided like this. */
  ghost function ChunkAt(cuts: seq<nat>, k: nat, offset: nat, size: nat): Chunk
    requires Rising(cuts) && k + 1 < |cuts|
  {
    Chunk(cuts[k], Stored(Left(cuts, k, offset, size), ChunkSize(cuts[k + 1] - cuts[k], Off(k, offset))), Off(k, offset))
  }

  // ----- when that is right

  /** The bytes of the first `cur` pages, from the offset on. */
  function Bytes(cur: nat, offset: nat): (b: nat)
    requires offset < PAGE
    ensures cur > 0 ==> b == PAGE * cur - offset
  {
    if cur == 0 then 0 else PAGE * cur - offset
  }

  /** The four gigabytes that the shift loses, so far. */
  ghost function Lost(cuts: seq<nat>, k: nat): nat
    requires Rising(cuts) && k < |cuts|
  {
    if k == 0 then 0 else Lost(cuts, k - 1) + (cuts[k] - cuts[k - 1]) / TWO20
  }

  lemma ModSub(a: int, b: int)
    ensures (a % TWO64 - b % TWO64) % TWO64 == (a - b) % TWO64
  {
    var q, r := a / TWO64, b / TWO64;
    assert a - b == a % TWO64 - b % TWO64 + TWO64 * (q - r);
  }

  lemma ShiftLoses(n: nat)
    ensures (n * PAGE) % TWO32 == n * PAGE - TWO32 * (n / TWO20)
  {
    var q: int, r: int := n / TWO20, n % TWO20;
    assert n * PAGE == TWO32 * q + r * PAGE && 0 <= r * PAGE < TWO32;
  }

  /** The counter is short of the truth by what the shift has lost. */
  lemma {:induction false} LeftIs(cuts: seq<nat>, k: nat, offset: nat, size: nat)
    requires Rising(cuts) && k < |cuts| && offset < PAGE && size < TWO64
    ensures Left(cuts, k, offset, size) == (size - Bytes(cuts[k], offset) + TWO32 * Lost(cuts, k)) % TWO64
  {
    if k > 0 {
      LeftIs(cuts, k - 1, offset, size);
      var n, off := cuts[k] - cuts[k - 1], Off(k - 1, offset);
      ShiftLoses(n);
      assert Bytes(cuts[k], offset) - Bytes(cuts[k - 1], offset) == n * PAGE - off;
      ModSub(size - Bytes(cuts[k - 1], offset) + TWO32 * Lost(cuts, k - 1), n * PAGE - TWO32 * (n / TWO20) - off);
    }
  }

  ghost predicate ShortRuns(cuts: seq<nat>, k: nat)
    requires Rising(cuts) && k < |cuts|
  {
    forall i | 0 <= i < k :: cuts[i + 1] - cuts[i] < TWO20
  }

  lemma {:induction false} LostIs(cuts: seq<nat>, k: nat)
    requires Rising(cuts) && k < |cuts|
    ensures Lost(cuts, k) * TWO20 <= cuts[k]
    ensures Lost(cuts, k) == 0 <==> ShortRuns(cuts, k)
  {
    if k > 0 {
      LostIs(cuts, k - 1);
    }
  }

  /** From page i on, 2^20 pages follow each other in memory. */
  ghost predicate LongRun(pages: seq<nat>, i: nat) {
    i + TWO20 <= |pages| && forall p | i < p < i + TWO20 :: !Break(pages, p)
  }

  /** No run is as long as four gigabytes. */
  ghost predicate Short(pages: seq<nat>) {
    forall i: nat :: !LongRun(pages, i)
  }

  lemma ShortIff(pages: seq<nat>, cuts: seq<nat>)
    requires Cuts(pages, cuts)
    ensures Short(pages) <==> ShortRuns(cuts, |cuts| - 1)
  {
    if i :| 0 <= i < |cuts| - 1 && cuts[i + 1] - cuts[i] >= TWO20 {
      forall p | cuts[i] < p < cuts[i] + TWO20
        ensures !Break(pages, p)
      {
        NotCut(pages, cuts, i, p);
      }
      assert LongRun(pages, cuts[i]);
    }
    if i: nat :| LongRun(pages, i) {
      var k := CutBefore(cuts, i, |cuts| - 1);
      assert cuts[k + 1] == |pages| || cuts[k + 1] in cuts;
      assert cuts[k + 1] - cuts[k] >= TWO20;
    }
  }

  lemma NotCut(pages: seq<nat>, cuts: seq<nat>, i: nat, p: nat)
    requires Cuts(pages, cuts) && i + 1 < |cuts| && cuts[i] < p < cuts[i + 1]
    ensures p < |pages| && !Break(pages, p)
  {
    assert cuts[i + 1] <= cuts[|cuts| - 1];
    forall j | 0 <= j < |cuts|
      ensures cuts[j] != p
    {
      assert j <= i || j >= i + 1;
    }
  }

  lemma {:induction false} CutBefore(cuts: seq<nat>, p: nat, k: nat) returns (i: nat)
    requires Rising(cuts) && 0 < k < |cuts| && p < cuts[k]
    ensures i < k && cuts[i] <= p < cuts[i + 1]
  {
    if k == 1 || cuts[k - 1] <= p {
      i := k - 1;
    } else {
      i := CutBefore(cuts, p, k - 1);
    }
  }

  /** The size covers the pages from the offset on. */
  predicate Enough(pages: seq<nat>, offset: nat, size: nat) {
    size >= PAGE * |pages| - offset
  }

  /** The counter ends up as what is left of the size exactly if no run reaches four
      gigabytes and the size is enough. */
  lemma CounterIff(pages: seq<nat>, cuts: seq<nat>, offset: nat, size: nat)
    requires Cuts(pages, cuts) && |pages| < TWO32 && offset < PAGE && size < TWO64
    ensures Left(cuts, |cuts| - 1, offset, size) == size - (PAGE * |pages| - offset)
            <==> Short(pages) && Enough(pages, offset, size)
  {
    hide Short, Left, Lost, ShortRuns;
    ShortIff(pages, cuts);
    LeftIs(cuts, |cuts| - 1, offset, size);
    LostIs(cuts, |cuts| - 1);
    var lost: int := Lost(cuts, |cuts| - 1);
    assert lost * TWO20 <= |pages| && lost < 0x1000;
  }

  /** Chunk k reaches to cut k + 1. */
  ghost predicate Fills(c: Chunk, cuts: seq<nat>, k: nat)
    requires k + 1 < |cuts|
  {
    c.length == PAGE * (cuts[k + 1] as int - cuts[k]) - c.offset
  }

  /** Then every chunk is as long as its run. */
  lemma LengthsRight(pages: seq<nat>, cuts: seq<nat>, offset: nat, size: nat, k: nat)
    requires Cuts(pages, cuts) && |pages| < TWO32 && offset < PAGE && size < TWO64 && k + 1 < |cuts|
    requires Short(pages) && Enough(pages, offset, size)
    ensures Fills(ChunkAt(cuts, k, offset, size), cuts, k)
  {
    hide Short, Left, Lost;
    ShortIff(pages, cuts);
    LeftIs(cuts, k, offset, size);
    LostIs(cuts, k);
    var n := cuts[k + 1] - cuts[k];
    ShiftLoses(n);
    assert cuts[k + 1] <= |pages| && n < TWO20;
    assert ChunkSize(n, Off(k, offset)) == n * PAGE - Off(k, offset);
    assert Left(cuts, k, offset, size) == size - Bytes(cuts[k], offset);
  }

  ghost predicate AllFill(chunks: seq<Chunk>, cuts: seq<nat>) {
    |cuts| == |chunks| + 1 && forall k | 0 <= k < |chunks| :: Fills(chunks[k], cuts, k)
  }

  /** Chunks that reach from cut to cut add up to the bytes. */
  lemma {:induction false} SumFills(chunks: seq<Chunk>, cuts: seq<nat>, offset: nat)
    requires Rising(cuts) && AllFill(chunks, cuts) && offset < PAGE
    requires forall k | 0 <= k < |chunks| :: chunks[k].offset == Off(k, offset)
    ensures Sum(chunks) == Bytes(cuts[|cuts| - 1], offset)
    decreases |chunks|
  {
    if chunks != [] {
      var n := |chunks| - 1;
      var cs, us := chunks[..n], cuts[..n + 1];
      assert forall k | 0 <= k < n :: Fills(chunks[k], cuts, k) && Fills(cs[k], us, k);
      SumFills(cs, us, offset);
      assert Fills(chunks[n], cuts, n);
    }
  }

  // ----- the method

  /** The cuts up to a page. */
  ghost predicate CutsTo(pages: seq<nat>, cuts: seq<nat>, cur: nat) {
    && Rising(cuts) && cuts[|cuts| - 1] == cur <= |pages|
    && (forall p | 0 < p <= cur && p < |pages| :: Break(pages, p) <==> p in cuts)
  }

  lemma MoreCuts(pages: seq<nat>, cuts: seq<nat>, cur: nat, j: nat)
    requires CutsTo(pages, cuts, cur) && cur < j <= |pages| && (j < |pages| ==> Break(pages, j))
    requires forall p | cur < p < j :: !Break(pages, p)
    ensures CutsTo(pages, cuts + [j], j)
  {
    var now := cuts + [j];
    forall i | 0 <= i < |cuts|
      ensures cuts[i] <= cur
    {
      assert i < |cuts| - 1 ==> cuts[i] < cuts[|cuts| - 1];
    }
    forall p | 0 < p <= j && p < |pages|
      ensures Break(pages, p) <==> p in now
    {
    }
  }

  /** More cuts at the end change nothing before. */
  lemma {:induction false} LeftStays(cuts: seq<nat>, j: nat, k: nat, offset: nat, size: nat)
    requires Rising(cuts) && Rising(cuts + [j]) && k < |cuts|
    ensures Left(cuts + [j], k, offset, size) == Left(cuts, k, offset, size)
  {
    if k > 0 {
      LeftStays(cuts, j, k - 1, offset, size);
    }
  }

  ghost predicate Computed(chunks: seq<Chunk>, cuts: seq<nat>, offset: nat, size: nat) {
    && Rising(cuts) && |cuts| == |chunks| + 1
    && forall k | 0 <= k < |chunks| :: chunks[k] == ChunkAt(cuts, k, offset, size)
  }

  lemma MoreChunks(chunks: seq<Chunk>, cuts: seq<nat>, offset: nat, size: nat, j: nat)
    requires Computed(chunks, cuts, offset, size) && Rising(cuts + [j])
    ensures var c, n := ChunkAt(cuts + [j], |chunks|, offset, size), j - cuts[|cuts| - 1];
            && Computed(chunks + [c], cuts + [j], offset, size)
            && Left(cuts + [j], |cuts|, offset, size)
               == (Left(cuts, |cuts| - 1, offset, size) - ChunkSize(n, Off(|chunks|, offset))) % TWO64
            && c == Chunk(cuts[|cuts| - 1],
                          Stored(Left(cuts, |cuts| - 1, offset, size), ChunkSize(n, Off(|chunks|, offset))),
                          Off(|chunks|, offset))
  {
    hide Left, Stored, ChunkSize;
    var now := cuts + [j];
    forall k | 0 <= k < |cuts|
      ensures Left(now, k, offset, size) == Left(cuts, k, offset, size)
    {
      LeftStays(cuts, j, k, offset, size);
    }
    LeftStep(now, |cuts|, offset, size);
  }

  lemma LeftStep(cuts: seq<nat>, k: nat, offset: nat, size: nat)
    requires Rising(cuts) && 0 < k < |cuts|
    ensures Left(cuts, k, offset, size)
            == (Left(cuts, k - 1, offset, size) - ChunkSize(cuts[k] - cuts[k - 1], Off(k - 1, offset))) % TWO64
  {
  }

  /** The number of chunks counted first is the number of maximal runs; filling that many
      chunks takes every page once, in order. Lengths and size counter are right exactly if
      no run reaches four gigabytes and the size covers the pages from the offset on. */
  method Merge(pages: seq<nat>, offset: nat, size: nat)
    returns (chunks: seq<Chunk>, ghost cuts: seq<nat>, ghost left: nat)
    requires 0 < |pages| < TWO32 && offset < PAGE && size < TWO64
    ensures Cuts(pages, cuts) && |chunks| == 1 + Breaks(pages, |pages| - 1)
    ensures Computed(chunks, cuts, offset, size) && left == Left(cuts, |cuts| - 1, offset, size)
    ensures |cuts| == |chunks| + 1
    ensures forall k | 0 <= k < |chunks| :: chunks[k].page == cuts[k] && chunks[k].offset == if k == 0 then offset else 0
    ensures left == size - (PAGE * |pages| - offset) <==> Short(pages) && Enough(pages, offset, size)
    ensures Short(pages) && Enough(pages, offset, size) ==>
              AllFill(chunks, cuts) && Sum(chunks) == PAGE * |pages| - offset
  {
    hide Computed, CutsTo, Left, ChunkSize, Stored, Short, Sum, Cuts, Breaks;
    var count := CountChunks(pages);
    var cur, rest, k := 0, size, 0;
    chunks, cuts := [], [0];
    Nothing(pages, offset, size);
    while k < count
      invariant 0 <= k <= count && |chunks| == k && |cuts| == k + 1 && cuts[k] == cur <= |pages|
      invariant cur < |pages| ==> k == Breaks(pages, cur)
      invariant cur == |pages| ==> k == count
      invariant CutsTo(pages, cuts, cur) && Computed(chunks, cuts, offset, size)
      invariant Rising(cuts) && rest == Left(cuts, k, offset, size)
    {
      var j := EndOfChunk(pages, cur);
      var off := Off(k, offset);
      MoreCuts(pages, cuts, cur, j);
      NowRising(pages, cuts + [j], j);
      MoreChunks(chunks, cuts, offset, size, j);
      BreaksStep(pages, cur, j, count);
      var chunkSize := ChunkSize(j - cur, off);
      chunks := chunks + [Chunk(cur, Stored(rest, chunkSize), off)];
      rest := (rest - chunkSize) % TWO64;
      cuts, cur, k := cuts + [j], j, k + 1;
    }
    if cur < |pages| {
      MoreBreaks(pages, cur, |pages| - 1);
    }
    AllCuts(pages, cuts);
    PagesAndOffsets(chunks, cuts, offset, size);
    left := rest;
    CounterIff(pages, cuts, offset, size);
    if Short(pages) && Enough(pages, offset, size) {
      AllRight(pages, chunks, cuts, offset, size);
    }
  }

  lemma PagesAndOffsets(chunks: seq<Chunk>, cuts: seq<nat>, offset: nat, size: nat)
    requires Computed(chunks, cuts, offset, size)
    ensures |cuts| == |chunks| + 1
    ensures forall k | 0 <= k < |chunks| :: chunks[k].page == cuts[k] && chunks[k].offset == if k == 0 then offset else 0
  {
  }

  lemma AllRight(pages: seq<nat>, chunks: seq<Chunk>, cuts: seq<nat>, offset: nat, size: nat)
    requires Cuts(pages, cuts) && Computed(chunks, cuts, offset, size)
    requires |pages| < TWO32 && offset < PAGE && size < TWO64 && Short(pages) && Enough(pages, offset, size)
    ensures AllFill(chunks, cuts) && Sum(chunks) == PAGE * |pages| - offset
  {
    hide Left, ChunkSize, Stored, Short, Sum;
    forall k | 0 <= k < |chunks|
      ensures Fills(chunks[k], cuts, k)
    {
      LengthsRight(pages, cuts, offset, size, k);
    }
    SumFills(chunks, cuts, offset);
  }

  lemma BreaksStep(pages: seq<nat>, cur: nat, j: nat, count: nat)
    requires cur < j <= |pages| && Breaks(pages, j - 1) == Breaks(pages, cur) && (j < |pages| ==> Break(pages, j))
    requires count == 1 + Breaks(pages, |pages| - 1)
    ensures j < |pages| ==> Breaks(pages, j) == Breaks(pages, cur) + 1
    ensures j == |pages| ==> count == Breaks(pages, cur) + 1
  {
  }

  lemma NowRising(pages: seq<nat>, cuts: seq<nat>, cur: nat)
    requires CutsTo(pages, cuts, cur)
    ensures Rising(cuts)
  {
  }

  lemma {:induction false} MoreBreaks(pages: seq<nat>, i: nat, j: nat)
    requires i <= j < |pages|
    ensures Breaks(pages, i) <= Breaks(pages, j)
  {
    if i < j {
      MoreBreaks(pages, i, j - 1);
    }
  }

  lemma Nothing(pages: seq<nat>, offset: nat, size: nat)
    requires |pages| > 0
    ensures CutsTo(pages, [0], 0) && Computed([], [0], offset, size) && Left([0], 0, offset, size) == size
    ensures Breaks(pages, 0) == 0
  {
  }

  lemma AllCuts(pages: seq<nat>, cuts: seq<nat>)
    requires |pages| > 0 && CutsTo(pages, cuts, |pages|)
    ensures Cuts(pages, cuts)
  {
  }

  // ----- four gigabytes

  /** A run of 2^20 pages becomes a chunk of length 0, however large the size is. */
  lemma FourGigabytes(size: nat)
    requires size < TWO64
    ensures var pages: seq<nat> := seq(TWO20, (i: nat) => i);
            && Cuts(pages, [0, TWO20]) && LongRun(pages, 0) && !Short(pages)
            && ChunkAt([0, TWO20], 0, 0, size) == Chunk(0, 0, 0) && Left([0, TWO20], 1, 0, size) == size
  {
    var pages: seq<nat> := seq(TWO20, (i: nat) => i);
    assert LongRun(pages, 0);
    assert (TWO20 * PAGE) % TWO32 == 0;
    assert ChunkSize(TWO20, 0) == 0;
    var cuts: seq<nat> := [0, TWO20];
    assert Left(cuts, 0, 0, size) == size;
    LeftStep(cuts, 1, 0, size);
  }

  /** The caller computes the size from the number of pages with the same shift: its
      calls are right exactly for fewer than 2^20 pages. */
  lemma CallerRight(pages: seq<nat>, offset: nat)
    requires 0 < |pages| && offset < PAGE
    ensures Short(pages) && Enough(pages, offset, (|pages| * PAGE) % TWO32) <==> |pages| < TWO20
  {
    ShiftLoses(|pages|);
    if |pages| < TWO20 {
      assert Short(pages);
    }
  }
}
