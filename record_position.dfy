/**
 * `RecPos` and its `ChunkIterator`: where a record `(recOfs, recLen)` falls
 * among the chunks of a plan, and how many of its bytes each chunk gets.
 *
 * Two versions of `RecPos::from` are given. `FromAsWritten` divides with
 * C++'s truncating division, as the source does; for a record that starts
 * less than one chunk before the analysed range it puts the record's bytes
 * from before the range into chunk 0 (see `TruncationMisplacesBytes`).
 * `From` divides with floor division, so every chunk gets exactly the bytes
 * the record has in it (`SizeIsOverlap`). The two agree on every record
 * that starts inside the range (`FromAgreesInRange`). The analyses call
 * `Placement(asWritten, …)`, which selects `FromAsWritten` or `From`.
 */
module RecordPosition {
  import opened Common
  import opened StorageParams

  /** Where a record lies; nothing else is known about an out-of-range record. */
  datatype RecPos =
    | OutOfRange(numberOfChunks: int)
    | InRange(
        numberOfChunks: int,
        firstChunkNum: int,
        lastChunkNum: int,
        endOfFirstChunk: int,
        sizeInFirstChunk: int,
        sizeInLastChunk: int,
        sizeInMiddleChunk: int,
        inFirstChunkRatio: real,
        inLastChunkRatio: real,
        inMiddleChunkRatio: real)

  /** One step of the iteration: a chunk, the record's bytes in it, and their share of the record. */
  datatype ChunkInfo = ChunkInfo(chunkNum: int, sizeHere: int, ratioHere: real)

  /** The record's start relative to the range start, `startsAt - startOfs`. */
  function RelStart(recOfs: int, extentOfs: int, p: AnalyzeParams): int {
    recOfs - extentOfs - p.startOfs
  }

  /**
   * What the sizes of an in-range position are, for a record starting s
   * bytes after startOfs: the first chunk gets the bytes up to its end, the
   * middle chunks a whole granularity each, the last chunk what remains.
   */
  ghost predicate Sized(pos: RecPos, s: int, recLen: int, g: int) {
    pos.InRange? &&
    pos.sizeInMiddleChunk == g &&
    pos.sizeInFirstChunk == Min((pos.firstChunkNum + 1) * g - s, recLen) &&
    pos.sizeInLastChunk ==
      Max(0, recLen - pos.sizeInFirstChunk - g * (pos.lastChunkNum - pos.firstChunkNum - 1))
  }

  /** The first and last chunk numbers are the chunks of the record's first byte and its end. */
  ghost predicate FloorChunks(pos: RecPos, s: int, recLen: int, g: int) {
    pos.InRange? &&
    pos.firstChunkNum * g <= s < (pos.firstChunkNum + 1) * g &&
    pos.lastChunkNum * g <= s + recLen < (pos.lastChunkNum + 1) * g
  }

  /** Each ratio is its byte count divided by the record length. */
  ghost predicate RatiosMatchSizes(pos: RecPos, recLen: int)
    requires recLen > 0
  {
    pos.InRange? ==>
      pos.inFirstChunkRatio == pos.sizeInFirstChunk as real / recLen as real &&
      pos.inLastChunkRatio == pos.sizeInLastChunk as real / recLen as real &&
      pos.inMiddleChunkRatio == pos.sizeInMiddleChunk as real / recLen as real
  }

  /** Every size and ratio the iterator can hand out is non-negative. */
  ghost predicate NonNegative(pos: RecPos) {
    pos.InRange? ==>
      pos.sizeInFirstChunk >= 0 && pos.sizeInLastChunk >= 0 && pos.sizeInMiddleChunk >= 0 &&
      pos.inFirstChunkRatio >= 0.0 && pos.inLastChunkRatio >= 0.0 && pos.inMiddleChunkRatio >= 0.0
  }

  /**
   * The sizes and ratios for a record whose first and last chunk numbers
   * are known; shared by both versions of `from`. When the first chunk ends
   * after the record's start, nothing comes out negative.
   */
  function Place(recOfs: i32, recLen: i32, extentOfs: i32, p: AnalyzeParams, first: i32, last: i32)
    : (r: Result<RecPos, Fault>)
    requires recLen > 0
    ensures r.Ok? ==> r.value.InRange? && r.value.numberOfChunks == p.numberOfChunks
    ensures r.Ok? ==> r.value.firstChunkNum == first && r.value.lastChunkNum == last
    ensures r.Ok? ==> Sized(r.value, RelStart(recOfs, extentOfs, p), recLen, p.granularity)
    ensures r.Ok? ==> RatiosMatchSizes(r.value, recLen)
    ensures r.Ok? && p.granularity > 0 && (first + 1) * p.granularity > RelStart(recOfs, extentOfs, p) ==>
              NonNegative(r.value)
    ensures r.Err? ==> r.error == SignedOverflow
  {
    var next :- Checked(first + 1);
    var scaled :- Checked(next * p.granularity);
    var inRange :- Checked(scaled + p.startOfs);
    var endOfFirstChunk :- Checked(inRange + extentOfs);
    var toChunkEnd :- Checked(endOfFirstChunk - recOfs);
    var sizeInFirstChunk := Min(toChunkEnd, recLen);
    var span :- Checked(last - first);
    var middles :- Checked(span - 1);
    var middleBytes :- Checked(p.granularity * middles);
    var rest :- Checked(recLen - sizeInFirstChunk);
    var lastBytes :- Checked(rest - middleBytes);
    var sizeInLastChunk := if lastBytes < 0 then 0 else lastBytes;
    RatioSign(sizeInFirstChunk, recLen);
    RatioSign(p.granularity, recLen);
    Ok(InRange(p.numberOfChunks, first, last, endOfFirstChunk,
               sizeInFirstChunk, sizeInLastChunk, p.granularity,
               sizeInFirstChunk as real / recLen as real,
               sizeInLastChunk as real / recLen as real,
               p.granularity as real / recLen as real))
  }

  /** A share of a positive length has the sign of the bytes it stands for. */
  lemma RatioSign(x: int, n: int)
    requires n > 0
    ensures x >= 0 ==> x as real / n as real >= 0.0
  {
  }

  /** The range test of `from`: a record ending exactly at startOfs is still in range. */
  predicate InRequestedRange(recOfs: int, recLen: int, extentOfs: int, p: AnalyzeParams) {
    var startsAt := recOfs - extentOfs;
    !(startsAt + recLen < p.startOfs || startsAt >= p.endOfs)
  }

  /**
   * `RecPos::from` as written: chunk numbers by C++ truncating division.
   * The record length must be positive (otherwise every ratio is NaN) and
   * the granularity non-zero (otherwise the division traps). Sizes are never
   * negative, which is what the iterator verifies.
   */
  function FromAsWritten(recOfs: i32, recLen: i32, extentOfs: i32, p: AnalyzeParams)
    : (r: Result<RecPos, Fault>)
    requires recLen > 0 && p.granularity != 0
    ensures r.Ok? ==> (r.value.OutOfRange? <==> !InRequestedRange(recOfs, recLen, extentOfs, p))
    ensures r.Ok? ==> r.value.numberOfChunks == p.numberOfChunks
    ensures r.Ok? && r.value.InRange? ==>
              Sized(r.value, RelStart(recOfs, extentOfs, p), recLen, p.granularity) &&
              RatiosMatchSizes(r.value, recLen) &&
              r.value.firstChunkNum == TruncDiv(RelStart(recOfs, extentOfs, p), p.granularity) &&
              r.value.lastChunkNum == TruncDiv(RelStart(recOfs, extentOfs, p) + recLen, p.granularity)
    ensures r.Ok? && p.granularity > 0 ==> NonNegative(r.value)
    ensures r.Err? ==> r.error == SignedOverflow
  {
    var startsAt :- Checked(recOfs - extentOfs);
    var endsAt :- Checked(startsAt + recLen);
    if endsAt < p.startOfs || startsAt >= p.endOfs then Ok(OutOfRange(p.numberOfChunks))
    else
      var fromStart :- Checked(startsAt - p.startOfs);
      var toEnd :- Checked(endsAt - p.startOfs);
      var first :- Checked(TruncDiv(fromStart, p.granularity));
      var last :- Checked(TruncDiv(toEnd, p.granularity));
      TruncatedFirstChunkEndsAfter(fromStart, p.granularity, first);
      Place(recOfs, recLen, extentOfs, p, first, last)
  }

  /** Truncation leaves the record's start below the end of its first chunk. */
  lemma TruncatedFirstChunkEndsAfter(s: int, g: int, f: int)
    requires g != 0 && f == TruncDiv(s, g)
    ensures g > 0 ==> (f + 1) * g > s
  {
    assert (f + 1) * g == f * g + g;
  }

  /**
   * `RecPos::from` with the chunk numbers rounded down (floor division), as
   * the chunk split evidently intends.
   */
  function From(recOfs: i32, recLen: i32, extentOfs: i32, p: AnalyzeParams)
    : (r: Result<RecPos, Fault>)
    requires recLen > 0 && p.granularity > 0
    ensures r.Ok? ==> (r.value.OutOfRange? <==> !InRequestedRange(recOfs, recLen, extentOfs, p))
    ensures r.Ok? ==> r.value.numberOfChunks == p.numberOfChunks
    ensures r.Ok? && r.value.InRange? ==>
              Sized(r.value, RelStart(recOfs, extentOfs, p), recLen, p.granularity) &&
              FloorChunks(r.value, RelStart(recOfs, extentOfs, p), recLen, p.granularity) &&
              RatiosMatchSizes(r.value, recLen)
    ensures r.Ok? ==> NonNegative(r.value)
    ensures r.Err? ==> r.error == SignedOverflow
  {
    var startsAt :- Checked(recOfs - extentOfs);
    var endsAt :- Checked(startsAt + recLen);
    if endsAt < p.startOfs || startsAt >= p.endOfs then Ok(OutOfRange(p.numberOfChunks))
    else
      var fromStart :- Checked(startsAt - p.startOfs);
      var toEnd :- Checked(endsAt - p.startOfs);
      FloorDivBounds(fromStart, p.granularity);
      FloorDivBounds(toEnd, p.granularity);
      var first :- Checked(fromStart / p.granularity);
      var last :- Checked(toEnd / p.granularity);
      Place(recOfs, recLen, extentOfs, p, first, last)
  }

  lemma FloorDivBounds(a: int, d: int)
    requires d > 0
    ensures (a / d) * d <= a < (a / d + 1) * d
  {
    assert a == (a / d) * d + a % d && 0 <= a % d < d;
    assert (a / d + 1) * d == (a / d) * d + d;
  }

  /** Lowest chunk the iterator visits: `max(firstChunkNum, 0)`; 0 when out of range. */
  function StartChunk(pos: RecPos): int {
    if pos.InRange? then Max(pos.firstChunkNum, 0) else 0
  }

  /** Highest chunk the iterator visits: `min(lastChunkNum, numberOfChunks - 1)`. */
  function EndChunk(pos: RecPos): int
    requires pos.InRange?
  {
    Min(pos.lastChunkNum, pos.numberOfChunks - 1)
  }

  /** Whether the iterator visits chunk c. */
  predicate Covers(pos: RecPos, c: int) {
    pos.InRange? && StartChunk(pos) <= c <= EndChunk(pos)
  }

  /** The integers lo, lo + 1, ..., hi - 1. */
  function Range(lo: int, hi: int): (r: seq<int>)
    ensures |r| == Max(hi - lo, 0)
    ensures forall i :: 0 <= i < |r| ==> r[i] == lo + i
    decreases hi - lo
  {
    if lo >= hi then [] else [lo] + Range(lo + 1, hi)
  }

  /** The chunks the iterator visits, in order. */
  function ChunksVisited(pos: RecPos): seq<int> {
    if pos.OutOfRange? then [] else Range(StartChunk(pos), EndChunk(pos) + 1)
  }

  /** The visited chunks are increasing, each appears once, and they are exactly the covered ones. */
  lemma {:induction false} ChunksVisitedExactlyCovered(pos: RecPos)
    ensures forall i, j :: 0 <= i < j < |ChunksVisited(pos)| ==>
              ChunksVisited(pos)[i] < ChunksVisited(pos)[j]
    ensures forall c :: c in ChunksVisited(pos) <==> Covers(pos, c)
  {
    var v := ChunksVisited(pos);
    forall c | Covers(pos, c) ensures c in v {
      assert v[c - StartChunk(pos)] == c;
    }
  }

  /** The bytes of the record the iterator reports for chunk c. */
  function SizeAt(pos: RecPos, c: int): int
    requires pos.InRange?
  {
    if c == pos.firstChunkNum then pos.sizeInFirstChunk
    else if c == pos.lastChunkNum then pos.sizeInLastChunk
    else pos.sizeInMiddleChunk
  }

  /** The share of the record the iterator reports for chunk c. */
  function RatioAt(pos: RecPos, c: int): real
    requires pos.InRange?
  {
    if c == pos.firstChunkNum then pos.inFirstChunkRatio
    else if c == pos.lastChunkNum then pos.inLastChunkRatio
    else pos.inMiddleChunkRatio
  }

  /** Bytes shared by the half-open intervals [s, e) and [lo, hi). */
  function Overlap(s: int, e: int, lo: int, hi: int): (r: int)
    ensures r >= 0
    ensures s <= lo && hi <= e && lo <= hi ==> r == hi - lo
    ensures lo <= s && e <= hi && s <= e ==> r == e - s
  {
    Max(0, Min(e, hi) - Max(s, lo))
  }

  /**
   * With floor chunk numbers every chunk between the first and the last gets
   * exactly the record's bytes inside that chunk, [c*g, (c+1)*g) relative
   * to startOfs.
   */
  lemma {:induction false} SizeIsOverlap(pos: RecPos, s: int, recLen: int, g: int, c: int)
    requires g > 0 && recLen > 0
    requires Sized(pos, s, recLen, g) && FloorChunks(pos, s, recLen, g)
    requires pos.firstChunkNum <= c <= pos.lastChunkNum
    ensures SizeAt(pos, c) == Overlap(s, s + recLen, c * g, (c + 1) * g)
  {
    var e := s + recLen;
    var f, l := pos.firstChunkNum, pos.lastChunkNum;
    if c == f {
      if f < l {
        MulMonotone(f + 1, l, g);
      }
    } else if c == l {
      MulMonotone(f + 1, l, g);
      assert pos.sizeInFirstChunk == (f + 1) * g - s;
      assert g * (l - f - 1) == l * g - (f + 1) * g;
      assert pos.sizeInLastChunk == e - l * g;
    } else {
      MulMonotone(f + 1, c, g);
      MulMonotone(c + 1, l, g);
      assert (c + 1) * g == c * g + g;
    }
  }

  /** Overlaps with adjacent intervals add up. */
  lemma OverlapSplit(s: int, e: int, a: int, b: int, c: int)
    requires a <= b <= c
    ensures Overlap(s, e, a, b) + Overlap(s, e, b, c) == Overlap(s, e, a, c)
  {
  }

  /** Sum of SizeAt over the chunks lo .. hi - 1. */
  function SizeSum(pos: RecPos, lo: int, hi: int): int
    requires pos.InRange?
    decreases hi - lo
  {
    if lo >= hi then 0 else SizeAt(pos, lo) + SizeSum(pos, lo + 1, hi)
  }

  /** Sum of RatioAt over the chunks lo .. hi - 1. */
  function RatioSum(pos: RecPos, lo: int, hi: int): real
    requires pos.InRange?
    decreases hi - lo
  {
    if lo >= hi then 0.0 else RatioAt(pos, lo) + RatioSum(pos, lo + 1, hi)
  }

  /** Summed over consecutive chunks, the sizes give the record's bytes in their union. */
  lemma {:induction false} SizeSumIsOverlap(pos: RecPos, s: int, recLen: int, g: int, lo: int, hi: int)
    requires g > 0 && recLen > 0
    requires Sized(pos, s, recLen, g) && FloorChunks(pos, s, recLen, g)
    requires pos.firstChunkNum <= lo <= hi <= pos.lastChunkNum + 1
    ensures SizeSum(pos, lo, hi) == Overlap(s, s + recLen, lo * g, hi * g)
    decreases hi - lo
  {
    if lo < hi {
      SizeIsOverlap(pos, s, recLen, g, lo);
      SizeSumIsOverlap(pos, s, recLen, g, lo + 1, hi);
      MulMonotone(lo + 1, hi, g);
      assert (lo + 1) * g == lo * g + g;
      OverlapSplit(s, s + recLen, lo * g, (lo + 1) * g, hi * g);
    }
  }

  /** The ratios sum to the sizes' sum divided by the record length. */
  lemma {:induction false} RatioSumIsSizeSum(pos: RecPos, recLen: int, lo: int, hi: int)
    requires recLen > 0 && pos.InRange? && RatiosMatchSizes(pos, recLen)
    ensures RatioSum(pos, lo, hi) == SizeSum(pos, lo, hi) as real / recLen as real
    decreases hi - lo
  {
    if lo < hi {
      RatioSumIsSizeSum(pos, recLen, lo + 1, hi);
      assert RatioAt(pos, lo) == SizeAt(pos, lo) as real / recLen as real;
      DivAdd(SizeAt(pos, lo) as real, SizeSum(pos, lo + 1, hi) as real, recLen as real);
    }
  }

  lemma DivAdd(a: real, b: real, r: real)
    requires r > 0.0
    ensures a / r + b / r == (a + b) / r
  {
  }

  /** The bytes the iterator hands out for a record: its sizes over the chunks it visits. */
  function VisitedBytes(pos: RecPos): int {
    if pos.OutOfRange? then 0 else SizeSum(pos, StartChunk(pos), EndChunk(pos) + 1)
  }

  /** The shares the iterator hands out for a record, summed over the chunks it visits. */
  function VisitedShare(pos: RecPos): real {
    if pos.OutOfRange? then 0.0 else RatioSum(pos, StartChunk(pos), EndChunk(pos) + 1)
  }

  /**
   * A record that starts at or after startOfs and ends within the chunks'
   * span is handed out in full: the visited sizes sum to recLen and the
   * visited ratios to 1.
   */
  lemma {:induction false} VisitedSizesSumToLength(recOfs: i32, recLen: i32, extentOfs: i32, p: AnalyzeParams)
    requires recLen > 0 && ValidPlan(p)
    requires From(recOfs, recLen, extentOfs, p).Ok? && From(recOfs, recLen, extentOfs, p).value.InRange?
    requires RelStart(recOfs, extentOfs, p) >= 0
    requires RelStart(recOfs, extentOfs, p) + recLen <= p.numberOfChunks * p.granularity
    ensures VisitedBytes(From(recOfs, recLen, extentOfs, p).value) == recLen
    ensures VisitedShare(From(recOfs, recLen, extentOfs, p).value) == 1.0
  {
    var pos := From(recOfs, recLen, extentOfs, p).value;
    var s := RelStart(recOfs, extentOfs, p);
    CoveredSpanIsWholeRecord(pos, s, recLen, p.granularity, p.numberOfChunks);
    RatioSumIsSizeSum(pos, recLen, StartChunk(pos), EndChunk(pos) + 1);
    assert VisitedShare(pos) == recLen as real / recLen as real;
    DivSelf(recLen as real);
  }

  lemma DivSelf(x: real)
    requires x > 0.0
    ensures x / x == 1.0
  {
  }

  lemma {:induction false} CoveredSpanIsWholeRecord(pos: RecPos, s: int, recLen: int, g: int, n: int)
    requires g > 0 && recLen > 0
    requires Sized(pos, s, recLen, g) && FloorChunks(pos, s, recLen, g)
    requires s >= 0 && s + recLen <= n * g && pos.numberOfChunks == n
    ensures VisitedBytes(pos) == recLen
  {
    var f, l := pos.firstChunkNum, pos.lastChunkNum;
    ChunkIndexBounds(f, l, s, s + recLen, g, n);
    var hi := Min(l, n - 1) + 1;
    assert StartChunk(pos) == f && EndChunk(pos) + 1 == hi;
    SizeSumIsOverlap(pos, s, recLen, g, f, hi);
    assert s + recLen <= hi * g;
  }

  /** A record inside the chunks' span starts in chunk 0 .. n - 1 and ends in chunk 0 .. n. */
  lemma ChunkIndexBounds(f: int, l: int, s: int, e: int, g: int, n: int)
    requires g > 0 && 0 <= s < e <= n * g
    requires f * g <= s < (f + 1) * g && l * g <= e < (l + 1) * g
    ensures 0 <= f <= l && f < n && l <= n
    ensures l < n ==> e <= (Min(l, n - 1) + 1) * g
    ensures l == n ==> e <= (Min(l, n - 1) + 1) * g
  {
    assert 0 * g < (f + 1) * g;
    MulCancelLess(0, f + 1, g);
    assert f * g < n * g;
    MulCancelLess(f, n, g);
    assert l * g < (n + 1) * g;
    MulCancelLess(l, n + 1, g);
    assert f * g < (l + 1) * g;
    MulCancelLess(f, l + 1, g);
  }

  /** `from` as written and the corrected `from` agree on records that start inside the range. */
  lemma {:induction false} FromAgreesInRange(recOfs: i32, recLen: i32, extentOfs: i32, p: AnalyzeParams)
    requires recLen > 0 && p.granularity > 0
    requires RelStart(recOfs, extentOfs, p) >= 0
    ensures FromAsWritten(recOfs, recLen, extentOfs, p) == From(recOfs, recLen, extentOfs, p)
  {
    var s := RelStart(recOfs, extentOfs, p);
    TruncDivOfNonNegative(s, p.granularity);
    TruncDivOfNonNegative(s + recLen, p.granularity);
  }

  /**
   * The placement the chunk walks use: `from` as written when `asWritten`
   * holds, the corrected `from` otherwise. The two agree on every record
   * that starts at or after startOfs.
   */
  function Placement(asWritten: bool, recOfs: i32, recLen: i32, extentOfs: i32, p: AnalyzeParams)
    : (r: Result<RecPos, Fault>)
    requires recLen > 0 && p.granularity > 0
    ensures r.Ok? ==> (r.value.OutOfRange? <==> !InRequestedRange(recOfs, recLen, extentOfs, p))
    ensures r.Ok? ==> r.value.numberOfChunks == p.numberOfChunks && NonNegative(r.value)
    ensures r.Err? ==> r.error == SignedOverflow
    ensures RelStart(recOfs, extentOfs, p) >= 0 ==> r == From(recOfs, recLen, extentOfs, p)
  {
    if !asWritten then From(recOfs, recLen, extentOfs, p)
    else if RelStart(recOfs, extentOfs, p) >= 0 then
      FromAgreesInRange(recOfs, recLen, extentOfs, p);
      FromAsWritten(recOfs, recLen, extentOfs, p)
    else FromAsWritten(recOfs, recLen, extentOfs, p)
  }

  /** A record that falls within one chunk gets all of its bytes in that chunk, also as written. */
  lemma {:induction false} SingleChunkGetsWholeRecord(recOfs: i32, recLen: i32, extentOfs: i32, p: AnalyzeParams)
    requires recLen > 0 && p.granularity > 0
    requires FromAsWritten(recOfs, recLen, extentOfs, p).Ok?
    requires FromAsWritten(recOfs, recLen, extentOfs, p).value.InRange?
    requires FromAsWritten(recOfs, recLen, extentOfs, p).value.firstChunkNum ==
             FromAsWritten(recOfs, recLen, extentOfs, p).value.lastChunkNum
    ensures FromAsWritten(recOfs, recLen, extentOfs, p).value.sizeInFirstChunk == recLen
  {
    var pos := FromAsWritten(recOfs, recLen, extentOfs, p).value;
    var s, g := RelStart(recOfs, extentOfs, p), p.granularity;
    // in range, the record ends at or after startOfs, so truncation is floor for its end
    assert s + recLen >= 0;
    WholeRecordInFirstChunk(pos, s, recLen, g);
  }

  lemma WholeRecordInFirstChunk(pos: RecPos, s: int, recLen: int, g: int)
    requires g > 0 && recLen > 0 && s + recLen >= 0 && Sized(pos, s, recLen, g)
    requires pos.firstChunkNum == pos.lastChunkNum == TruncDiv(s + recLen, g)
    ensures pos.sizeInFirstChunk == recLen
  {
    var l := pos.lastChunkNum;
    assert (l + 1) * g == l * g + g;
  }

  /**
   * `RecPos::ChunkIterator`: visits the chunks a record touches, from
   * `max(firstChunkNum, 0)` while the chunk number is below numberOfChunks
   * and at most lastChunkNum, filling in each chunk's size and ratio on
   * first access.
   */
  class ChunkIterator {
    const pos: RecPos
    var current: ChunkInfo
    /** Whether `current` already holds the size and ratio of its chunk. */
    var filled: bool
    /** The chunks stepped past so far. */
    ghost var passed: seq<int>

    ghost predicate Valid()
      reads this
    {
      NonNegative(pos) &&
      StartChunk(pos) <= current.chunkNum &&
      passed == Range(StartChunk(pos), current.chunkNum) &&
      (filled ==>
         pos.InRange? &&
         current.sizeHere == SizeAt(pos, current.chunkNum) &&
         current.ratioHere == RatioAt(pos, current.chunkNum))
    }

    /** Starts at the first chunk, or at chunk 0 when the record begins before the range. */
    constructor (pos: RecPos)
      requires NonNegative(pos)
      ensures this.pos == pos && Valid()
      ensures current.chunkNum == StartChunk(pos) && !filled && passed == []
    {
      this.pos := pos;
      current := ChunkInfo(StartChunk(pos), 0, 0.0);
      filled := false;
      passed := [];
    }

    /** `end()`: the iteration is over exactly when the current chunk is not covered. */
    function End(): (b: bool)
      reads this
      requires Valid()
      ensures b <==> !Covers(pos, current.chunkNum)
    {
      pos.OutOfRange? || !(current.chunkNum < pos.numberOfChunks && current.chunkNum <= pos.lastChunkNum)
    }

    /**
     * `operator->`: the current chunk with its size and ratio, both
     * non-negative. Calling it past the end fails the source's verify.
     */
    method Current() returns (info: ChunkInfo)
      requires Valid() && !End()
      modifies this
      ensures Valid() && filled && passed == old(passed)
      ensures info == current
      ensures info == ChunkInfo(old(current.chunkNum), SizeAt(pos, info.chunkNum), RatioAt(pos, info.chunkNum))
      ensures info.sizeHere >= 0 && info.ratioHere >= 0.0
    {
      if !filled {
        var c := current.chunkNum;
        var size, ratio;
        if c == pos.firstChunkNum {
          size, ratio := pos.sizeInFirstChunk, pos.inFirstChunkRatio;
        } else if c == pos.lastChunkNum {
          size, ratio := pos.sizeInLastChunk, pos.inLastChunkRatio;
        } else {
          assert pos.firstChunkNum < c < pos.lastChunkNum;
          size, ratio := pos.sizeInMiddleChunk, pos.inMiddleChunkRatio;
        }
        assert size >= 0 && ratio >= 0.0;
        current := ChunkInfo(c, size, ratio);
        filled := true;
      }
      info := current;
    }

    /** `operator++`: on to the next chunk, whose size is not yet known. */
    method Next()
      requires Valid()
      modifies this
      ensures Valid() && !filled
      ensures current.chunkNum == old(current.chunkNum) + 1
      ensures passed == old(passed) + [old(current.chunkNum)]
    {
      current := current.(chunkNum := current.chunkNum + 1);
      filled := false;
      passed := passed + [current.chunkNum - 1];
    }
  }

  /** Range grows by one at its upper end. */
  lemma {:induction false} RangeExtend(lo: int, hi: int)
    requires lo <= hi
    ensures Range(lo, hi + 1) == Range(lo, hi) + [hi]
  {
    var a, b := Range(lo, hi + 1), Range(lo, hi) + [hi];
    assert |a| == |b|;
    forall i | 0 <= i < |a| ensures a[i] == b[i] {
    }
  }

  /**
   * Stepping an iterator from its start until `end()` visits exactly the
   * chunks of ChunksVisited, each once, in increasing order.
   */
  method IterateChunks(pos: RecPos) returns (visits: seq<ChunkInfo>)
    requires NonNegative(pos)
    ensures |visits| == |ChunksVisited(pos)|
    ensures forall i :: 0 <= i < |visits| ==>
              visits[i].chunkNum == ChunksVisited(pos)[i] &&
              visits[i].sizeHere == SizeAt(pos, visits[i].chunkNum) &&
              visits[i].ratioHere == RatioAt(pos, visits[i].chunkNum)
  {
    var it := new ChunkIterator(pos);
    visits := [];
    while !it.End()
      invariant it.Valid() && it.pos == pos && fresh(it)
      invariant pos.InRange? ==> it.current.chunkNum <= Max(StartChunk(pos), EndChunk(pos) + 1)
      invariant pos.OutOfRange? ==> it.passed == []
      invariant |visits| == |it.passed|
      invariant forall i :: 0 <= i < |visits| ==>
                  pos.InRange? &&
                  visits[i].chunkNum == it.passed[i] &&
                  visits[i].sizeHere == SizeAt(pos, visits[i].chunkNum) &&
                  visits[i].ratioHere == RatioAt(pos, visits[i].chunkNum)
      decreases if pos.InRange? then EndChunk(pos) + 1 - it.current.chunkNum else 0
    {
      var info := it.Current();
      visits := visits + [info];
      RangeExtend(StartChunk(pos), it.current.chunkNum);
      it.Next();
    }
    if pos.InRange? {
      if StartChunk(pos) <= EndChunk(pos) + 1 {
        assert it.current.chunkNum == EndChunk(pos) + 1;
      } else {
        assert it.current.chunkNum == StartChunk(pos);
        assert |ChunksVisited(pos)| == 0;
      }
    }
  }

  /** The analysed range [100, 200) in chunks of 50, inside an extent at offset 0. */
  const ExamplePlan := AnalyzeParams(100, 200, 100, 2, 50, 50)

  lemma ExamplePlanIsValid()
    ensures ValidPlan(ExamplePlan)
  {
  }

  /**
   * The as-written split on a record [80, 100) that ends exactly where the
   * range starts: it is in range, and truncation makes chunk 0 its first
   * chunk, so chunk 0 receives all 20 bytes and a ratio of 1 although the
   * record has no byte in [100, 150).
   */
  lemma TruncationMisplacesBytes()
    ensures FromAsWritten(80, 20, 0, ExamplePlan).Ok?
    ensures var pos := FromAsWritten(80, 20, 0, ExamplePlan).value;
            Covers(pos, 0) && SizeAt(pos, 0) == 20 && RatioAt(pos, 0) == 1.0
    ensures Overlap(80, 100, 100, 150) == 0
  {
    assert TruncDiv(-20, 50) == 0 by { TruncDivSmallNegative(-20, 50); }
    assert TruncDiv(0, 50) == 0 by { TruncDivOfNonNegative(0, 50); }
  }

  /** The corrected split on the same record gives chunk 0 none of its bytes. */
  lemma FloorPlacesNoBytes()
    ensures From(80, 20, 0, ExamplePlan).Ok?
    ensures var pos := From(80, 20, 0, ExamplePlan).value;
            Covers(pos, 0) && SizeAt(pos, 0) == 0 && RatioAt(pos, 0) == 0.0
  {
    assert -20 / 50 == -1;
  }

  lemma TruncDivSmallNegative(a: int, b: int)
    requires b > 0 && -b < a < 0
    ensures TruncDiv(a, b) == 0
  {
    assert Abs(a) / Abs(b) == 0;
  }
}
