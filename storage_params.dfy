/**
 * The `storageDetails` command's parameters: subcommand names, the extent
 * lookup, and the chunk plan that `runInternal` derives from a requested
 * byte range plus either a chunk size ("granularity") or a chunk count.
 * All offsets and sizes are C++ `int`s; a signed overflow, which C++ leaves
 * undefined, is reported as Err(SignedOverflow), and an integer division by
 * zero as Err(DivisionByZero).
 */
module StorageParams {
  import opened Common
  import MongoMath

  /** Subcommand constants: `1 << 0` and `1 << 1`. */
  const DiskStorage: int := 1
  const MemInCore: int := 2

  /** `SubCommand::fromStr`: the constant for a subcommand name, 0 if none matches. */
  function SubCommandFromStr(s: string): (r: int)
    ensures r == DiskStorage <==> s == "diskStorage"
    ensures r == MemInCore <==> s == "memInCore"
    ensures r == 0 <==> s != "diskStorage" && s != "memInCore"
  {
    if s == "diskStorage" then DiskStorage
    else if s == "memInCore" then MemInCore
    else 0
  }

  /**
   * `AnalyzeParams` without the output options (characteristic field,
   * showRecords), which only steer extraction and serialization.
   * Unrequested values are -1 (numberOfChunks, granularity).
   */
  datatype AnalyzeParams = AnalyzeParams(
    startOfs: i32,
    endOfs: i32,
    length: i32,
    numberOfChunks: i32,
    granularity: i32,
    lastChunkLength: i32)

  /** The defaults of the `AnalyzeParams` constructor. */
  const DefaultParams := AnalyzeParams(0, I32_MAX, I32_MAX, -1, -1, 0)

  /** A live record: offset in the data file, on-disk length with headers,
      BSON object size, and the characteristic value if one was extracted. */
  datatype Rec = Rec(ofs: i32, lengthWithHeaders: i32, objSize: int, charact: Option<real>)

  /** A deleted record on a free list: data file number, offset and length. */
  datatype DelRec = DelRec(fileNo: int, ofs: i32, lengthWithHeaders: i32)

  /** An extent: data file number, offset in that file, length, and its live records in order. */
  datatype Extent = Extent(fileNo: int, ofs: i32, length: i32, records: seq<Rec>)

  /**
   * `getExtentNum`: walks the extent list from the first extent. The result
   * is the extentNum-th extent, and none when the list is shorter or when
   * extentNum is negative (the loop never runs and the counter stays 0).
   */
  method GetExtentNum(extentNum: int, extents: seq<Extent>) returns (r: Option<Extent>)
    ensures r == if 0 <= extentNum < |extents| then Some(extents[extentNum]) else None
  {
    var curExtent := 0;
    var ex: Option<Extent> := if |extents| > 0 then Some(extents[0]) else None;
    while ex.Some? && curExtent < extentNum
      invariant 0 <= curExtent <= |extents|
      invariant extentNum >= 0 ==> curExtent <= extentNum
      invariant ex == if curExtent < |extents| then Some(extents[curExtent]) else None
      decreases |extents| - curExtent
    {
      curExtent := curExtent + 1;
      ex := if curExtent < |extents| then Some(extents[curExtent]) else None;
    }
    if curExtent != extentNum {
      return None;
    }
    r := ex;
  }

  /**
   * What a usable chunk plan looks like: a non-negative start, a positive
   * chunk size and count, and chunks that tile the range exactly, the last
   * one possibly shorter.
   */
  predicate ValidPlan(p: AnalyzeParams) {
    0 <= p.startOfs &&
    p.endOfs == p.startOfs + p.length &&
    p.granularity > 0 && p.numberOfChunks > 0 &&
    0 < p.lastChunkLength <= p.granularity &&
    p.granularity * (p.numberOfChunks - 1) + p.lastChunkLength == p.length
  }

  /** The granularity for a requested chunk count: `(endOfs - startOfs + n - 1) / n`. */
  function RequestedGranularity(startOfs: i32, endOfs: i32, n: i32): Result<i32, Fault> {
    var span :- Checked(endOfs - startOfs);
    var plus :- Checked(span + n);
    var numerator :- Checked(plus - 1);
    if n == 0 then Err(DivisionByZero) else Checked(TruncDiv(numerator, n))
  }

  /**
   * The chunk plan of `runInternal`: clamp the range to the extent, derive
   * the granularity from a requested chunk count if one was given, then
   * the chunk count by `ceilingDiv` in unsigned arithmetic, and the length
   * of the last chunk.
   */
  function PlanChunks(req: AnalyzeParams, extentLength: i32): Result<AnalyzeParams, Fault> {
    var startOfs: i32 := Max(0, req.startOfs);
    var endOfs: i32 := Min(req.endOfs, extentLength);
    var length :- Checked(endOfs - startOfs);
    var granularity :-
      if req.numberOfChunks != -1 then RequestedGranularity(startOfs, endOfs, req.numberOfChunks)
      else Ok(req.granularity);
    if ToU32(granularity) == 0 then Err(DivisionByZero)
    else
      var numberOfChunks := ToI32(MongoMath.CeilingDiv(ToU32(length), ToU32(granularity)));
      var lastIndex :- Checked(numberOfChunks - 1);
      var fullChunks :- Checked(granularity * lastIndex);
      var lastChunkLength :- Checked(length - fullChunks);
      Ok(AnalyzeParams(startOfs, endOfs, length, numberOfChunks, granularity, lastChunkLength))
  }

  /**
   * Whenever the plan comes out with a positive length and granularity, the
   * range is clamped into the extent and the chunks tile it exactly.
   */
  lemma {:induction false} PlanShape(req: AnalyzeParams, extentLength: i32)
    requires PlanChunks(req, extentLength).Ok?
    requires PlanChunks(req, extentLength).value.length > 0
    requires PlanChunks(req, extentLength).value.granularity > 0
    ensures var p := PlanChunks(req, extentLength).value;
            ValidPlan(p) && p.startOfs == Max(0, req.startOfs) &&
            p.endOfs == Min(req.endOfs, extentLength) && p.endOfs <= extentLength
  {
    var p := PlanChunks(req, extentLength).value;
    ChunkCountTiles(p.length, p.granularity);
  }

  /**
   * For a positive length and granularity the chunk count is the rounded-up
   * quotient, at least 1 and at most the length, and the last chunk holds
   * between 1 and granularity bytes.
   */
  lemma {:induction false} ChunkCountTiles(length: i32, granularity: i32)
    requires length > 0 && granularity > 0
    ensures var n := ToI32(MongoMath.CeilingDiv(ToU32(length), ToU32(granularity)));
            1 <= n <= length &&
            0 < length - granularity * (n - 1) <= granularity
  {
    var q := MongoMath.CeilingDiv(length, granularity);
    assert q * granularity >= length && (q - 1) * granularity < length;
    assert 0 * granularity < q * granularity;
    MulCancelLess(0, q, granularity);
    MulMonotone(1, granularity, q - 1);
    assert q - 1 < length;
    assert granularity * (q - 1) == (q - 1) * granularity;
  }

  /** An explicit positive granularity over a non-empty range always yields a usable plan. */
  lemma {:induction false} PlanFromGranularity(req: AnalyzeParams, extentLength: i32)
    requires req.numberOfChunks == -1 && req.granularity > 0
    requires Min(req.endOfs, extentLength) - Max(0, req.startOfs) > 0
    ensures PlanChunks(req, extentLength).Ok?
    ensures var p := PlanChunks(req, extentLength).value;
            ValidPlan(p) && p.granularity == req.granularity
  {
    ChunkCountTiles(Min(req.endOfs, extentLength) - Max(0, req.startOfs), req.granularity);
  }

  /**
   * A requested chunk count over a non-empty range yields a usable plan
   * with at most that many chunks, provided `endOfs - startOfs + n`, the
   * intermediate sum of the source's left-to-right evaluation, does not overflow.
   */
  lemma {:induction false} PlanFromChunkCount(req: AnalyzeParams, extentLength: i32)
    requires req.numberOfChunks >= 1
    requires Min(req.endOfs, extentLength) - Max(0, req.startOfs) > 0
    requires Min(req.endOfs, extentLength) - Max(0, req.startOfs) + req.numberOfChunks <= I32_MAX
    ensures PlanChunks(req, extentLength).Ok?
    ensures var p := PlanChunks(req, extentLength).value;
            ValidPlan(p) && p.numberOfChunks <= req.numberOfChunks
  {
    var length := Min(req.endOfs, extentLength) - Max(0, req.startOfs);
    var n := req.numberOfChunks;
    var g := GranularityForCount(length, n);
    assert RequestedGranularity(Max(0, req.startOfs), Min(req.endOfs, extentLength), n) == Ok(g);
    ChunkCountTiles(length, g);
    var q := MongoMath.CeilingDiv(length, g);
    assert q <= n by {
      FewerChunks(length, g, n, q);
    }
    PlanShape(req, extentLength);
  }

  /**
   * The granularity a request for n chunks derives, (length + n - 1) / n
   * truncated, is the rounded-up share of the length: at least 1, and n of
   * them cover the length.
   */
  lemma GranularityForCount(length: int, n: int) returns (g: int)
    requires length > 0 && n >= 1
    ensures g == TruncDiv(length + n - 1, n)
    ensures 1 <= g <= length + n - 1 && length <= n * g
  {
    var numerator := length + n - 1;
    TruncDivOfNonNegative(numerator, n);
    g := numerator / n;
    var r := numerator % n;
    EuclidNonNegative(numerator, n);
    CeilingShare(length, n, g, r);
  }

  lemma CeilingShare(length: int, n: int, g: int, r: int)
    requires length > 0 && n >= 1 && length + n - 1 == g * n + r && 0 <= r < n
    ensures 1 <= g <= length + n - 1 && length <= n * g
  {
    assert 0 * n < g * n;
    MulCancelLess(0, g, n);
    MulMonotone(1, n, g);
  }

  /** n chunks of granularity g cover the length, so rounding up needs no more than n. */
  lemma FewerChunks(length: int, g: int, n: int, q: int)
    requires g > 0 && (q - 1) * g < length && length <= n * g
    ensures q <= n
  {
    MulCancelLess(q - 1, n, g);
  }
}
