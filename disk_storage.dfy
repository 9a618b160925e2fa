/**
 * The `diskStorage` and `memInCore` analyses of one extent: per-chunk
 * aggregates of the live and deleted records that overlap each chunk, the
 * whole-extent total, and the fraction of each chunk's pages resident in
 * memory. Records and free lists are plain sequences; the record walk and
 * the free-list walk are loops over them.
 */
module DiskStorage {
  import opened Common
  import opened StorageParams
  import opened RecordPosition
  import MongoMath

  /**
   * `DiskStorageData`: aggregates for one chunk or the whole extent.
   * `freeRecords` has one entry per free-list bucket.
   */
  datatype DiskStorageData = DiskStorageData(
    numEntries: real,
    bsonSize: real,
    recSize: int,
    onDiskSize: int,
    charactSum: real,
    charactCount: real,
    freeRecords: seq<real>)

  /** The constructor: everything zero except the on-disk size, one zero per bucket. */
  function NewData(diskSize: int, buckets: nat): (d: DiskStorageData)
    ensures d.onDiskSize == diskSize && d.recSize == 0 && d.numEntries == 0.0
    ensures |d.freeRecords| == buckets && forall b :: 0 <= b < buckets ==> d.freeRecords[b] == 0.0
  {
    DiskStorageData(0.0, 0.0, 0, diskSize, 0.0, 0.0, seq(buckets, _ => 0.0))
  }

  /** Field-by-field sum, with `freeRecords` added element-wise over the left operand's buckets. */
  function Plus(a: DiskStorageData, b: DiskStorageData): (r: DiskStorageData)
    requires |b.freeRecords| >= |a.freeRecords|
  {
    DiskStorageData(
      a.numEntries + b.numEntries, a.bsonSize + b.bsonSize, a.recSize + b.recSize,
      a.onDiskSize + b.onDiskSize, a.charactSum + b.charactSum, a.charactCount + b.charactCount,
      seq(|a.freeRecords|, i requires 0 <= i < |a.freeRecords| => a.freeRecords[i] + b.freeRecords[i]))
  }

  /**
   * `operator+=`: adds every field of rhs into lhs, the free-record counts
   * bucket by bucket, and hands back the value lhs had before the addition.
   * The loop walks lhs's buckets and reads rhs at the same index, so rhs
   * needs at least as many.
   */
  method AddAssign(lhs: DiskStorageData, rhs: DiskStorageData) returns (updated: DiskStorageData, previous: DiskStorageData)
    requires |rhs.freeRecords| >= |lhs.freeRecords|
    ensures previous == lhs
    ensures updated == Plus(lhs, rhs)
    ensures |updated.freeRecords| == |lhs.freeRecords|
    ensures forall b :: 0 <= b < |lhs.freeRecords| ==>
              updated.freeRecords[b] == lhs.freeRecords[b] + rhs.freeRecords[b]
  {
    previous := lhs;
    var free := lhs.freeRecords;
    var i := 0;
    while i < |free|
      invariant 0 <= i <= |free| == |lhs.freeRecords|
      invariant forall k :: 0 <= k < |free| ==>
                  free[k] == if k < i then lhs.freeRecords[k] + rhs.freeRecords[k] else lhs.freeRecords[k]
    {
      free := free[i := free[i] + rhs.freeRecords[i]];
      i := i + 1;
    }
    updated := DiskStorageData(
      lhs.numEntries + rhs.numEntries, lhs.bsonSize + rhs.bsonSize, lhs.recSize + rhs.recSize,
      lhs.onDiskSize + rhs.onDiskSize, lhs.charactSum + rhs.charactSum,
      lhs.charactCount + rhs.charactCount, free);
  }

  /** Every chunk has one free-record count per bucket. */
  ghost predicate BucketsEverywhere(s: seq<DiskStorageData>, buckets: nat) {
    forall c :: 0 <= c < |s| ==> |s[c].freeRecords| == buckets
  }

  /** The extent total: the chunks added one after another into a zero total. */
  function Total(s: seq<DiskStorageData>, buckets: nat): (t: DiskStorageData)
    requires BucketsEverywhere(s, buckets)
    ensures |t.freeRecords| == buckets
  {
    if |s| == 0 then NewData(0, buckets)
    else Plus(Total(s[..|s| - 1], buckets), s[|s| - 1])
  }

  /** Sum of the chunks' recSize. */
  function SumRecSize(s: seq<DiskStorageData>): int {
    if |s| == 0 then 0 else SumRecSize(s[..|s| - 1]) + s[|s| - 1].recSize
  }

  /** Sum of the chunks' onDiskSize. */
  function SumOnDiskSize(s: seq<DiskStorageData>): int {
    if |s| == 0 then 0 else SumOnDiskSize(s[..|s| - 1]) + s[|s| - 1].onDiskSize
  }

  /** Sum of the chunks' numEntries. */
  function SumEntries(s: seq<DiskStorageData>): real {
    if |s| == 0 then 0.0 else SumEntries(s[..|s| - 1]) + s[|s| - 1].numEntries
  }

  /** The total's recSize, onDiskSize and numEntries are the sums over the chunks. */
  lemma {:induction false} TotalIsSum(s: seq<DiskStorageData>, buckets: nat)
    requires BucketsEverywhere(s, buckets)
    ensures Total(s, buckets).recSize == SumRecSize(s)
    ensures Total(s, buckets).onDiskSize == SumOnDiskSize(s)
    ensures Total(s, buckets).numEntries == SumEntries(s)
  {
    if |s| > 0 {
      TotalIsSum(s[..|s| - 1], buckets);
    }
  }

  /** The on-disk size of chunk c of a plan: the granularity, except for the last chunk. */
  function ChunkLength(p: AnalyzeParams, c: int): i32 {
    if c == p.numberOfChunks - 1 then p.lastChunkLength else p.granularity
  }

  /** Chunks laid out as the analysis creates them: the plan's sizes, one count per bucket. */
  ghost predicate ChunkShape(s: seq<DiskStorageData>, p: AnalyzeParams, buckets: nat) {
    |s| == p.numberOfChunks &&
    BucketsEverywhere(s, buckets) &&
    forall c :: 0 <= c < |s| ==> s[c].onDiskSize == ChunkLength(p, c)
  }

  /** The chunks' on-disk sizes add up to the analysed length. */
  lemma {:induction false} ChunkSizesSumToLength(s: seq<DiskStorageData>, p: AnalyzeParams, buckets: nat)
    requires ValidPlan(p) && ChunkShape(s, p, buckets)
    ensures SumOnDiskSize(s) == p.length
  {
    var n := p.numberOfChunks;
    FullChunksSum(s, p, n - 1);
    assert s[..n][..n - 1] == s[..n - 1];
    assert s[..n] == s;
    assert p.granularity * (n - 1) == (n - 1) * p.granularity;
  }

  lemma {:induction false} FullChunksSum(s: seq<DiskStorageData>, p: AnalyzeParams, k: nat)
    requires k < |s| == p.numberOfChunks
    requires forall c :: 0 <= c < |s| ==> s[c].onDiskSize == ChunkLength(p, c)
    ensures SumOnDiskSize(s[..k]) == k * p.granularity
  {
    if k > 0 {
      FullChunksSum(s, p, k - 1);
      assert s[..k][..k - 1] == s[..k - 1];
      assert (k - 1) * p.granularity + p.granularity == k * p.granularity;
    }
  }

  /** A chunk's aggregates after adding a record's share: its bytes here and its ratio here. */
  function WithRecordShare(d: DiskStorageData, rec: Rec, size: int, ratio: real): DiskStorageData {
    d.(numEntries := d.numEntries + ratio,
       recSize := d.recSize + size,
       bsonSize := d.bsonSize + ratio * rec.objSize as real,
       charactCount := if rec.charact.Some? then d.charactCount + ratio else d.charactCount,
       charactSum := if rec.charact.Some? then d.charactSum + ratio * rec.charact.value else d.charactSum)
  }

  /** A chunk's aggregates after adding a deleted record's share to one bucket. */
  function WithFreeShare(d: DiskStorageData, bucketNum: nat, ratio: real): DiskStorageData
    requires bucketNum < |d.freeRecords|
  {
    d.(freeRecords := d.freeRecords[bucketNum := d.freeRecords[bucketNum] + ratio])
  }

  /** Every chunk the iterator visits gets the record's share in it; the others are untouched. */
  function AfterRecord(s: seq<DiskStorageData>, pos: RecPos, rec: Rec): (t: seq<DiskStorageData>)
    ensures |t| == |s|
    ensures forall c :: 0 <= c < |t| ==> t[c].freeRecords == s[c].freeRecords && t[c].onDiskSize == s[c].onDiskSize
  {
    seq(|s|, c requires 0 <= c < |s| =>
      if Covers(pos, c) then WithRecordShare(s[c], rec, SizeAt(pos, c), RatioAt(pos, c)) else s[c])
  }

  /** Every chunk the iterator visits gets the deleted record's ratio in one bucket. */
  function AfterDeleted(s: seq<DiskStorageData>, pos: RecPos, bucketNum: nat): (t: seq<DiskStorageData>)
    requires forall c :: 0 <= c < |s| ==> bucketNum < |s[c].freeRecords|
    ensures |t| == |s|
  {
    seq(|s|, c requires 0 <= c < |s| =>
      if Covers(pos, c) then WithFreeShare(s[c], bucketNum, RatioAt(pos, c)) else s[c])
  }

  /** Chunk c has been visited by an iterator now at chunk upTo. */
  predicate Stepped(pos: RecPos, c: int, upTo: int) {
    Covers(pos, c) && c < upTo
  }

  /**
   * `processRecord`: splits the record among the chunks and adds each
   * chunk's share to it. The result says whether any chunk was touched;
   * an overflow in `from` leaves every chunk as it was.
   */
  method ProcessRecord(asWritten: bool, rec: Rec, extentOfs: i32, p: AnalyzeParams, chunkData: array<DiskStorageData>)
    returns (r: Result<bool, Fault>)
    requires ValidPlan(p) && chunkData.Length == p.numberOfChunks && rec.lengthWithHeaders > 0
    modifies chunkData
    ensures r.Err? <==> Placement(asWritten, rec.ofs, rec.lengthWithHeaders, extentOfs, p).Err?
    ensures r.Err? ==> r.error == SignedOverflow
    ensures r.Err? ==> chunkData[..] == old(chunkData[..])
    ensures r.Ok? ==>
              var pos := Placement(asWritten, rec.ofs, rec.lengthWithHeaders, extentOfs, p).value;
              chunkData[..] == AfterRecord(old(chunkData[..]), pos, rec) &&
              (r.value <==> |ChunksVisited(pos)| > 0)
  {
    var placed := Placement(asWritten, rec.ofs, rec.lengthWithHeaders, extentOfs, p);
    if placed.Err? {
      return Err(placed.error);
    }
    var pos := placed.value;
    var it := new ChunkIterator(pos);
    var spans := false;
    while !it.End()
      invariant it.Valid() && it.pos == pos
      invariant pos.InRange? ==> it.current.chunkNum <= Max(StartChunk(pos), EndChunk(pos) + 1)
      invariant pos.OutOfRange? ==> it.current.chunkNum == StartChunk(pos)
      invariant spans <==> it.current.chunkNum > StartChunk(pos)
      invariant forall c :: 0 <= c < chunkData.Length ==>
                  chunkData[c] ==
                    if Stepped(pos, c, it.current.chunkNum)
                    then WithRecordShare(old(chunkData[c]), rec, SizeAt(pos, c), RatioAt(pos, c))
                    else old(chunkData[c])
      decreases if pos.InRange? then EndChunk(pos) + 1 - it.current.chunkNum else 0
    {
      var info := it.Current();
      chunkData[info.chunkNum] := WithRecordShare(chunkData[info.chunkNum], rec, info.sizeHere, info.ratioHere);
      spans := true;
      it.Next();
    }
    IteratorExhausted(pos, it.current.chunkNum);
    assert chunkData[..] == AfterRecord(old(chunkData[..]), pos, rec);
    return Ok(spans);
  }

  /** Once the iterator is past its last chunk, the chunks it stepped past are exactly the covered ones. */
  lemma IteratorExhausted(pos: RecPos, upTo: int)
    requires StartChunk(pos) <= upTo && !Covers(pos, upTo)
    requires pos.InRange? ==> upTo <= Max(StartChunk(pos), EndChunk(pos) + 1)
    requires pos.OutOfRange? ==> upTo == StartChunk(pos)
    ensures forall c :: Stepped(pos, c, upTo) <==> Covers(pos, c)
    ensures upTo > StartChunk(pos) <==> |ChunksVisited(pos)| > 0
  {
  }

  /**
   * A deleted record is only counted when it lies in the same file and
   * overlaps the extent. The three tests short-circuit in order, so a sum
   * can only overflow once the earlier tests have passed.
   */
  function DeletedInExtent(d: DelRec, extent: Extent): (r: Result<bool, Fault>)
    ensures r.Err? ==> r.error == SignedOverflow
    ensures r.Err? <==> d.fileNo == extent.fileNo &&
                        (!InI32(d.ofs + d.lengthWithHeaders) ||
                         (d.ofs + d.lengthWithHeaders >= extent.ofs && !InI32(extent.ofs + extent.length)))
    ensures r.Ok? ==> (r.value <==> d.fileNo == extent.fileNo &&
                                    d.ofs + d.lengthWithHeaders >= extent.ofs &&
                                    d.ofs < extent.ofs + extent.length)
  {
    if d.fileNo != extent.fileNo then Ok(false)
    else
      var recEnd :- Checked(d.ofs + d.lengthWithHeaders);
      if recEnd < extent.ofs then Ok(false)
      else
        var extentEnd :- Checked(extent.ofs + extent.length);
        Ok(d.ofs < extentEnd)
  }

  /**
   * `processDeletedRecord`: skips a deleted record of another file or
   * outside the extent; otherwise adds its share in each chunk to that
   * chunk's count for the record's bucket, and nothing else.
   */
  method ProcessDeletedRecord(asWritten: bool, d: DelRec, extent: Extent, p: AnalyzeParams, bucketNum: nat,
                              chunkData: array<DiskStorageData>)
    returns (r: Result<bool, Fault>)
    requires ValidPlan(p) && chunkData.Length == p.numberOfChunks && d.lengthWithHeaders > 0
    requires forall c :: 0 <= c < chunkData.Length ==> bucketNum < |chunkData[c].freeRecords|
    modifies chunkData
    ensures DeletedInExtent(d, extent).Err? ==> r == Err(DeletedInExtent(d, extent).error)
    ensures DeletedInExtent(d, extent) == Ok(false) ==> r == Ok(false)
    ensures r.Err? || r == Ok(false) ==> chunkData[..] == old(chunkData[..])
    ensures r.Err? ==> r.error == SignedOverflow
    ensures DeletedInExtent(d, extent) == Ok(true) ==>
              (r.Err? <==> Placement(asWritten, d.ofs, d.lengthWithHeaders, extent.ofs, p).Err?)
    ensures DeletedInExtent(d, extent) == Ok(true) && r.Ok? ==>
              var pos := Placement(asWritten, d.ofs, d.lengthWithHeaders, extent.ofs, p).value;
              chunkData[..] == AfterDeleted(old(chunkData[..]), pos, bucketNum) &&
              (r.value <==> |ChunksVisited(pos)| > 0)
  {
    var inExtent := DeletedInExtent(d, extent);
    if inExtent.Err? {
      return Err(inExtent.error);
    }
    if !inExtent.value {
      return Ok(false);
    }
    var placed := Placement(asWritten, d.ofs, d.lengthWithHeaders, extent.ofs, p);
    if placed.Err? {
      return Err(placed.error);
    }
    var pos := placed.value;
    var it := new ChunkIterator(pos);
    var spans := false;
    while !it.End()
      invariant it.Valid() && it.pos == pos
      invariant pos.InRange? ==> it.current.chunkNum <= Max(StartChunk(pos), EndChunk(pos) + 1)
      invariant pos.OutOfRange? ==> it.current.chunkNum == StartChunk(pos)
      invariant spans <==> it.current.chunkNum > StartChunk(pos)
      invariant forall c :: 0 <= c < chunkData.Length ==>
                  bucketNum < |old(chunkData[c]).freeRecords| &&
                  chunkData[c] ==
                    if Stepped(pos, c, it.current.chunkNum)
                    then WithFreeShare(old(chunkData[c]), bucketNum, RatioAt(pos, c))
                    else old(chunkData[c])
      decreases if pos.InRange? then EndChunk(pos) + 1 - it.current.chunkNum else 0
    {
      var info := it.Current();
      chunkData[info.chunkNum] := WithFreeShare(chunkData[info.chunkNum], bucketNum, info.ratioHere);
      spans := true;
      it.Next();
    }
    IteratorExhausted(pos, it.current.chunkNum);
    assert chunkData[..] == AfterDeleted(old(chunkData[..]), pos, bucketNum);
    return Ok(spans);
  }

  /** Adding a record changes the chunks' recSize sum by exactly the bytes the iterator hands out. */
  lemma {:induction false} AfterRecordAddsVisitedBytes(s: seq<DiskStorageData>, pos: RecPos, rec: Rec)
    requires pos.InRange? ==> EndChunk(pos) < |s|
    ensures SumRecSize(AfterRecord(s, pos, rec)) == SumRecSize(s) + VisitedBytes(pos)
  {
    if pos.InRange? {
      AfterRecordPrefix(s, pos, rec, |s|);
      assert AfterRecord(s, pos, rec)[..|s|] == AfterRecord(s, pos, rec);
      assert s[..|s|] == s;
      if StartChunk(pos) > EndChunk(pos) {
        SizeSumEmpty(pos, StartChunk(pos), EndChunk(pos) + 1);
        SizeSumEmpty(pos, StartChunk(pos), Min(|s|, EndChunk(pos) + 1));
      }
    } else {
      SumRecSizeUnchanged(AfterRecord(s, pos, rec), s);
    }
  }

  lemma SizeSumEmpty(pos: RecPos, lo: int, hi: int)
    requires pos.InRange? && lo >= hi
    ensures SizeSum(pos, lo, hi) == 0
  {
  }

  /** The prefix form of AfterRecordAddsVisitedBytes, by induction on the prefix length. */
  lemma {:induction false} AfterRecordPrefix(s: seq<DiskStorageData>, pos: RecPos, rec: Rec, k: nat)
    requires pos.InRange? && k <= |s|
    ensures SumRecSize(AfterRecord(s, pos, rec)[..k]) ==
            SumRecSize(s[..k]) + SizeSum(pos, StartChunk(pos), Max(StartChunk(pos), Min(k, EndChunk(pos) + 1)))
  {
    var t := AfterRecord(s, pos, rec);
    var lo := StartChunk(pos);
    if k > 0 {
      AfterRecordPrefix(s, pos, rec, k - 1);
      assert t[..k][..k - 1] == t[..k - 1];
      assert s[..k][..k - 1] == s[..k - 1];
      var c := k - 1;
      if Covers(pos, c) {
        SizeSumSplitLast(pos, lo, c + 1);
      }
    } else {
      SizeSumEmpty(pos, lo, lo);
    }
  }

  lemma {:induction false} SizeSumSplitLast(pos: RecPos, lo: int, hi: int)
    requires pos.InRange? && lo < hi
    ensures SizeSum(pos, lo, hi) == SizeSum(pos, lo, hi - 1) + SizeAt(pos, hi - 1)
    decreases hi - lo
  {
    if lo < hi - 1 {
      SizeSumSplitLast(pos, lo + 1, hi);
    }
  }

  /** Sequences with the same recSize everywhere have the same sum. */
  lemma {:induction false} SumRecSizeUnchanged(s: seq<DiskStorageData>, t: seq<DiskStorageData>)
    requires |s| == |t| && forall c :: 0 <= c < |s| ==> s[c].recSize == t[c].recSize
    ensures SumRecSize(s) == SumRecSize(t)
  {
    if |s| > 0 {
      SumRecSizeUnchanged(s[..|s| - 1], t[..|t| - 1]);
    }
  }

  /** Adding a record changes the chunks' numEntries sum by exactly the shares the iterator hands out. */
  lemma {:induction false} AfterRecordAddsVisitedShare(s: seq<DiskStorageData>, pos: RecPos, rec: Rec)
    requires pos.InRange? ==> EndChunk(pos) < |s|
    ensures SumEntries(AfterRecord(s, pos, rec)) == SumEntries(s) + VisitedShare(pos)
  {
    if pos.InRange? {
      AfterRecordEntriesPrefix(s, pos, rec, |s|);
      assert AfterRecord(s, pos, rec)[..|s|] == AfterRecord(s, pos, rec);
      assert s[..|s|] == s;
      if StartChunk(pos) > EndChunk(pos) {
        RatioSumEmpty(pos, StartChunk(pos), EndChunk(pos) + 1);
        RatioSumEmpty(pos, StartChunk(pos), Min(|s|, EndChunk(pos) + 1));
      }
    } else {
      SumEntriesUnchanged(AfterRecord(s, pos, rec), s);
    }
  }

  /** The prefix form of AfterRecordAddsVisitedShare, by induction on the prefix length. */
  lemma {:induction false} AfterRecordEntriesPrefix(s: seq<DiskStorageData>, pos: RecPos, rec: Rec, k: nat)
    requires pos.InRange? && k <= |s|
    ensures SumEntries(AfterRecord(s, pos, rec)[..k]) ==
            SumEntries(s[..k]) + RatioSum(pos, StartChunk(pos), Max(StartChunk(pos), Min(k, EndChunk(pos) + 1)))
  {
    var t := AfterRecord(s, pos, rec);
    var lo := StartChunk(pos);
    if k > 0 {
      AfterRecordEntriesPrefix(s, pos, rec, k - 1);
      assert t[..k][..k - 1] == t[..k - 1];
      assert s[..k][..k - 1] == s[..k - 1];
      var c := k - 1;
      if Covers(pos, c) {
        RatioSumSplitLast(pos, lo, c + 1);
      }
    } else {
      RatioSumEmpty(pos, lo, lo);
    }
  }

  /** Sequences with the same numEntries everywhere have the same sum. */
  lemma {:induction false} SumEntriesUnchanged(s: seq<DiskStorageData>, t: seq<DiskStorageData>)
    requires |s| == |t| && forall c :: 0 <= c < |s| ==> s[c].numEntries == t[c].numEntries
    ensures SumEntries(s) == SumEntries(t)
  {
    if |s| > 0 {
      SumEntriesUnchanged(s[..|s| - 1], t[..|t| - 1]);
    }
  }

  /** The bytes the iterator hands out for one live record; none if it cannot be placed. */
  ghost function RecordBytes(asWritten: bool, rec: Rec, extentOfs: i32, p: AnalyzeParams): int
    requires p.granularity > 0
  {
    if rec.lengthWithHeaders > 0 && Placement(asWritten, rec.ofs, rec.lengthWithHeaders, extentOfs, p).Ok?
    then VisitedBytes(Placement(asWritten, rec.ofs, rec.lengthWithHeaders, extentOfs, p).value)
    else 0
  }

  /** The bytes the iterator hands out for each live record, summed over the records. */
  ghost function RecordsBytes(asWritten: bool, records: seq<Rec>, extentOfs: i32, p: AnalyzeParams): int
    requires p.granularity > 0
  {
    if |records| == 0 then 0
    else RecordsBytes(asWritten, records[..|records| - 1], extentOfs, p) + RecordBytes(asWritten, records[|records| - 1], extentOfs, p)
  }

  /** Every live record has a positive length and can be placed without overflow. */
  ghost predicate RecordsPlaceable(asWritten: bool, records: seq<Rec>, extentOfs: i32, p: AnalyzeParams)
    requires p.granularity > 0
  {
    forall i :: 0 <= i < |records| ==>
      records[i].lengthWithHeaders > 0 &&
      Placement(asWritten, records[i].ofs, records[i].lengthWithHeaders, extentOfs, p).Ok?
  }

  /** Every deleted record can be checked against the extent, and placed if it lies in it, without overflow. */
  ghost predicate DeletedPlaceable(asWritten: bool, d: DelRec, extent: Extent, p: AnalyzeParams)
    requires p.granularity > 0 && d.lengthWithHeaders > 0
  {
    DeletedInExtent(d, extent).Ok? &&
    (DeletedInExtent(d, extent).value ==> Placement(asWritten, d.ofs, d.lengthWithHeaders, extent.ofs, p).Ok?)
  }

  ghost predicate AllDeletedPlaceable(asWritten: bool, lists: seq<seq<DelRec>>, extent: Extent, p: AnalyzeParams)
    requires p.granularity > 0
    requires forall b, j :: 0 <= b < |lists| && 0 <= j < |lists[b]| ==> lists[b][j].lengthWithHeaders > 0
  {
    forall b, j :: 0 <= b < |lists| && 0 <= j < |lists[b]| ==> DeletedPlaceable(asWritten, lists[b][j], extent, p)
  }

  /** Why an analysis produced no report. */
  datatype StorageError =
    | Undefined(fault: Fault)   // C++ undefined behaviour or a trap in the arithmetic
    | CappedCollection          // "capped collections are not supported"
    | DegeneratePlan            // diskStorage on a plan that does not tile its range
    | NoSuchSubcommand          // "no such subcommand"

  /** The `diskStorage` output: per-chunk aggregates and the extent total. */
  datatype DiskReport = DiskReport(chunks: seq<DiskStorageData>, total: DiskStorageData)

  /**
   * The chunks after the live-record walk: every record folded in with
   * `processRecord`, in order. A record that cannot be placed is not
   * folded in (the walk stops there).
   */
  ghost function AfterRecords(asWritten: bool, s: seq<DiskStorageData>, records: seq<Rec>, extentOfs: i32, p: AnalyzeParams)
    : (t: seq<DiskStorageData>)
    requires p.granularity > 0
    ensures |t| == |s|
    ensures forall c :: 0 <= c < |t| ==> t[c].freeRecords == s[c].freeRecords && t[c].onDiskSize == s[c].onDiskSize
  {
    if |records| == 0 then s
    else
      var prev := AfterRecords(asWritten, s, records[..|records| - 1], extentOfs, p);
      var rec := records[|records| - 1];
      if rec.lengthWithHeaders > 0 && Placement(asWritten, rec.ofs, rec.lengthWithHeaders, extentOfs, p).Ok?
      then AfterRecord(prev, Placement(asWritten, rec.ofs, rec.lengthWithHeaders, extentOfs, p).value, rec)
      else prev
  }

  /** The share of each live record the iterator hands out, summed over the records; none for one that cannot be placed. */
  ghost function RecordsShares(asWritten: bool, records: seq<Rec>, extentOfs: i32, p: AnalyzeParams): real
    requires p.granularity > 0
  {
    if |records| == 0 then 0.0
    else
      var rec := records[|records| - 1];
      RecordsShares(asWritten, records[..|records| - 1], extentOfs, p) +
      if rec.lengthWithHeaders > 0 && Placement(asWritten, rec.ofs, rec.lengthWithHeaders, extentOfs, p).Ok?
      then VisitedShare(Placement(asWritten, rec.ofs, rec.lengthWithHeaders, extentOfs, p).value)
      else 0.0
  }

  /**
   * The live-record walk keeps the chunk layout and adds, summed over the
   * chunks, the bytes handed out to recSize and the shares handed out to
   * numEntries.
   */
  lemma {:induction false} AfterRecordsSums(asWritten: bool, s: seq<DiskStorageData>, records: seq<Rec>, extentOfs: i32,
                                            p: AnalyzeParams, buckets: nat)
    requires ValidPlan(p) && ChunkShape(s, p, buckets)
    ensures ChunkShape(AfterRecords(asWritten, s, records, extentOfs, p), p, buckets)
    ensures SumRecSize(AfterRecords(asWritten, s, records, extentOfs, p)) ==
            SumRecSize(s) + RecordsBytes(asWritten, records, extentOfs, p)
    ensures SumEntries(AfterRecords(asWritten, s, records, extentOfs, p)) ==
            SumEntries(s) + RecordsShares(asWritten, records, extentOfs, p)
  {
    if |records| > 0 {
      var m := |records| - 1;
      var rec := records[m];
      AfterRecordsSums(asWritten, s, records[..m], extentOfs, p, buckets);
      if rec.lengthWithHeaders > 0 && Placement(asWritten, rec.ofs, rec.lengthWithHeaders, extentOfs, p).Ok? {
        var prev := AfterRecords(asWritten, s, records[..m], extentOfs, p);
        var pos := Placement(asWritten, rec.ofs, rec.lengthWithHeaders, extentOfs, p).value;
        AfterRecordAddsVisitedBytes(prev, pos, rec);
        AfterRecordAddsVisitedShare(prev, pos, rec);
      }
    }
  }

  /**
   * The live-record walk of `analyzeDiskStorage`: every record of the
   * extent is folded in with `processRecord`, in order, stopping at the
   * first one whose placement overflows.
   */
  method FoldRecords(asWritten: bool, records: seq<Rec>, extentOfs: i32, p: AnalyzeParams, buckets: nat,
                     chunkData: array<DiskStorageData>)
    returns (r: Result<(), Fault>)
    requires ValidPlan(p) && ChunkShape(chunkData[..], p, buckets)
    requires forall i :: 0 <= i < |records| ==> records[i].lengthWithHeaders > 0
    modifies chunkData
    ensures ChunkShape(chunkData[..], p, buckets)
    ensures r.Ok? <==> RecordsPlaceable(asWritten, records, extentOfs, p)
    ensures r.Err? ==> r.error == SignedOverflow
    ensures r.Ok? ==> chunkData[..] == AfterRecords(asWritten, old(chunkData[..]), records, extentOfs, p)
    ensures r.Ok? ==> SumRecSize(chunkData[..]) == SumRecSize(old(chunkData[..])) + RecordsBytes(asWritten, records, extentOfs, p)
    ensures forall c :: 0 <= c < chunkData.Length ==> chunkData[c].freeRecords == old(chunkData[c].freeRecords)
  {
    ghost var initial := chunkData[..];
    var i := 0;
    while i < |records|
      invariant 0 <= i <= |records|
      invariant RecordsPlaceable(asWritten, records[..i], extentOfs, p)
      invariant chunkData[..] == AfterRecords(asWritten, initial, records[..i], extentOfs, p)
    {
      var rec := records[i];
      var placed := ProcessRecord(asWritten, rec, extentOfs, p, chunkData);
      if placed.Err? {
        assert !RecordsPlaceable(asWritten, records, extentOfs, p) by {
          assert records[i] == rec;
        }
        AfterRecordsSums(asWritten, initial, records[..i], extentOfs, p, buckets);
        return Err(placed.error);
      }
      assert records[..i + 1][..i] == records[..i];
      RecordsPlaceableExtend(asWritten, records, extentOfs, p, i);
      i := i + 1;
    }
    assert records[..i] == records;
    AfterRecordsSums(asWritten, initial, records, extentOfs, p, buckets);
    return Ok(());
  }

  lemma RecordsPlaceableExtend(asWritten: bool, records: seq<Rec>, extentOfs: i32, p: AnalyzeParams, i: int)
    requires p.granularity > 0 && 0 <= i < |records|
    requires RecordsPlaceable(asWritten, records[..i], extentOfs, p)
    requires records[i].lengthWithHeaders > 0
    requires Placement(asWritten, records[i].ofs, records[i].lengthWithHeaders, extentOfs, p).Ok?
    ensures RecordsPlaceable(asWritten, records[..i + 1], extentOfs, p)
  {
    assert forall k :: 0 <= k < i ==> records[..i + 1][k] == records[..i][k];
  }

  /** `now` is `before` with at most bucket bucketNum's free-record count changed. */
  ghost predicate OnlyBucketChanged(now: DiskStorageData, before: DiskStorageData, bucketNum: nat) {
    now == before.(freeRecords := now.freeRecords) &&
    |now.freeRecords| == |before.freeRecords| &&
    forall b :: 0 <= b < |now.freeRecords| && b != bucketNum ==> now.freeRecords[b] == before.freeRecords[b]
  }

  /** `now` is `before` with only free-record counts changed, bucket for bucket. */
  ghost predicate FreeOnlyChanged(now: DiskStorageData, before: DiskStorageData) {
    now == before.(freeRecords := now.freeRecords) && |now.freeRecords| == |before.freeRecords|
  }

  /** Chunk by chunk, `now` is `before` with at most bucket bucketNum's counts changed. */
  ghost predicate OnlyBucketChangedEverywhere(now: seq<DiskStorageData>, before: seq<DiskStorageData>, bucketNum: nat) {
    |now| == |before| && forall c :: 0 <= c < |now| ==> OnlyBucketChanged(now[c], before[c], bucketNum)
  }

  /** Chunk by chunk, `now` is `before` with only free-record counts changed. */
  ghost predicate FreeOnlyChangedEverywhere(now: seq<DiskStorageData>, before: seq<DiskStorageData>) {
    |now| == |before| && forall c :: 0 <= c < |now| ==> FreeOnlyChanged(now[c], before[c])
  }

  /** A change to one bucket after changes to free-record counts only is still a change to free-record counts only. */
  lemma BucketOnlyAfterFreeOnly(now: seq<DiskStorageData>, before: seq<DiskStorageData>, initial: seq<DiskStorageData>,
                                bucketNum: nat)
    requires |now| == |before| == |initial|
    requires OnlyBucketChangedEverywhere(now, before, bucketNum)
    requires FreeOnlyChangedEverywhere(before, initial)
    ensures FreeOnlyChangedEverywhere(now, initial)
  {
  }

  /** Chunks that differ only in their free-record counts have the same layout. */
  lemma FreeOnlyKeepsShape(now: seq<DiskStorageData>, before: seq<DiskStorageData>, p: AnalyzeParams, buckets: nat)
    requires ChunkShape(before, p, buckets) && |now| == |before|
    requires FreeOnlyChangedEverywhere(now, before)
    ensures ChunkShape(now, p, buckets)
  {
  }

  /**
   * The chunks after one bucket's free-list walk: every deleted record that
   * lies in the extent is folded into the bucket with
   * `processDeletedRecord`, in order. Only that bucket's counts change.
   */
  ghost function AfterDeletedList(asWritten: bool, s: seq<DiskStorageData>, list: seq<DelRec>, extent: Extent,
                                  p: AnalyzeParams, bucketNum: nat): (t: seq<DiskStorageData>)
    requires p.granularity > 0
    requires forall c :: 0 <= c < |s| ==> bucketNum < |s[c].freeRecords|
    ensures |t| == |s|
    ensures OnlyBucketChangedEverywhere(t, s, bucketNum)
  {
    if |list| == 0 then s
    else
      var prev := AfterDeletedList(asWritten, s, list[..|list| - 1], extent, p, bucketNum);
      var d := list[|list| - 1];
      if d.lengthWithHeaders > 0 && DeletedInExtent(d, extent) == Ok(true) &&
         Placement(asWritten, d.ofs, d.lengthWithHeaders, extent.ofs, p).Ok?
      then
        var pos := Placement(asWritten, d.ofs, d.lengthWithHeaders, extent.ofs, p).value;
        AfterDeletedOnlyInBucket(prev, pos, bucketNum);
        AfterDeleted(prev, pos, bucketNum)
      else prev
  }

  lemma AfterDeletedOnlyInBucket(s: seq<DiskStorageData>, pos: RecPos, bucketNum: nat)
    requires forall c :: 0 <= c < |s| ==> bucketNum < |s[c].freeRecords|
    ensures OnlyBucketChangedEverywhere(AfterDeleted(s, pos, bucketNum), s, bucketNum)
  {
  }

  /** One bucket's free-list walk adds, summed over the chunks, the shares handed out for its list. */
  lemma {:induction false} AfterDeletedListAddsShares(asWritten: bool, s: seq<DiskStorageData>, list: seq<DelRec>,
                                                      extent: Extent, p: AnalyzeParams, bucketNum: nat)
    requires ValidPlan(p) && |s| == p.numberOfChunks
    requires forall c :: 0 <= c < |s| ==> bucketNum < |s[c].freeRecords|
    ensures SumFree(AfterDeletedList(asWritten, s, list, extent, p, bucketNum), bucketNum) ==
            SumFree(s, bucketNum) + DeletedShares(asWritten, list, extent, p)
  {
    if |list| > 0 {
      var m := |list| - 1;
      var d := list[m];
      AfterDeletedListAddsShares(asWritten, s, list[..m], extent, p, bucketNum);
      if d.lengthWithHeaders > 0 && DeletedInExtent(d, extent) == Ok(true) &&
         Placement(asWritten, d.ofs, d.lengthWithHeaders, extent.ofs, p).Ok? {
        var prev := AfterDeletedList(asWritten, s, list[..m], extent, p, bucketNum);
        var pos := Placement(asWritten, d.ofs, d.lengthWithHeaders, extent.ofs, p).value;
        AfterDeletedAddsVisitedShare(prev, pos, bucketNum);
      }
    }
  }

  /**
   * The chunks after the whole free-list walk: bucket b's list folded into
   * bucket b, in bucket order. Only free-record counts change.
   */
  ghost function AfterDeletedLists(asWritten: bool, s: seq<DiskStorageData>, lists: seq<seq<DelRec>>, extent: Extent,
                                   p: AnalyzeParams): (t: seq<DiskStorageData>)
    requires p.granularity > 0
    requires forall c :: 0 <= c < |s| ==> |lists| <= |s[c].freeRecords|
    ensures |t| == |s|
    ensures FreeOnlyChangedEverywhere(t, s)
  {
    if |lists| == 0 then s
    else
      var n := |lists| - 1;
      AfterDeletedList(asWritten, AfterDeletedLists(asWritten, s, lists[..n], extent, p), lists[n], extent, p, n)
  }

  /**
   * After the free-list walk, a bucket without a list keeps its counts,
   * and every other bucket has grown, summed over the chunks, by the
   * shares handed out for its own list.
   */
  lemma {:induction false} AfterDeletedListsBucket(asWritten: bool, s: seq<DiskStorageData>, lists: seq<seq<DelRec>>,
                                                   extent: Extent, p: AnalyzeParams, b: nat)
    requires ValidPlan(p) && |s| == p.numberOfChunks
    requires forall c :: 0 <= c < |s| ==> |lists| <= |s[c].freeRecords| && b < |s[c].freeRecords|
    ensures b >= |lists| ==> forall c :: 0 <= c < |s| ==>
              AfterDeletedLists(asWritten, s, lists, extent, p)[c].freeRecords[b] == s[c].freeRecords[b]
    ensures b < |lists| ==> SumFree(AfterDeletedLists(asWritten, s, lists, extent, p), b) ==
                            SumFree(s, b) + DeletedShares(asWritten, lists[b], extent, p)
  {
    if |lists| > 0 {
      var n := |lists| - 1;
      var prev := AfterDeletedLists(asWritten, s, lists[..n], extent, p);
      var t := AfterDeletedLists(asWritten, s, lists, extent, p);
      AfterDeletedListsBucket(asWritten, s, lists[..n], extent, p, b);
      if b == n {
        SumFreeUnchanged(prev, s, b);
        AfterDeletedListAddsShares(asWritten, prev, lists[n], extent, p, n);
      } else if b < n {
        assert lists[..n][b] == lists[b];
        SumFreeUnchanged(t, prev, b);
      }
    }
  }

  /**
   * One bucket of the free-list walk of `analyzeDiskStorage`: every deleted
   * record on the list is folded in with `processDeletedRecord`, stopping
   * at the first overflow. Only this bucket's free-record counts change,
   * and summed over the chunks they grow by the shares handed out.
   */
  method FoldDeletedList(asWritten: bool, list: seq<DelRec>, bucketNum: nat, extent: Extent, p: AnalyzeParams, buckets: nat,
                         chunkData: array<DiskStorageData>)
    returns (r: Result<(), Fault>)
    requires ValidPlan(p) && ChunkShape(chunkData[..], p, buckets) && bucketNum < buckets
    requires forall j :: 0 <= j < |list| ==> list[j].lengthWithHeaders > 0
    modifies chunkData
    ensures ChunkShape(chunkData[..], p, buckets)
    ensures OnlyBucketChangedEverywhere(chunkData[..], old(chunkData[..]), bucketNum)
    ensures r.Ok? <==> forall j :: 0 <= j < |list| ==> DeletedPlaceable(asWritten, list[j], extent, p)
    ensures r.Err? ==> r.error == SignedOverflow
    ensures r.Ok? ==> chunkData[..] == AfterDeletedList(asWritten, old(chunkData[..]), list, extent, p, bucketNum)
    ensures r.Ok? ==> SumFree(chunkData[..], bucketNum) ==
                      SumFree(old(chunkData[..]), bucketNum) + DeletedShares(asWritten, list, extent, p)
  {
    ghost var initial := chunkData[..];
    var j := 0;
    while j < |list|
      invariant 0 <= j <= |list|
      invariant forall k :: 0 <= k < j ==> DeletedPlaceable(asWritten, list[k], extent, p)
      invariant chunkData[..] == AfterDeletedList(asWritten, initial, list[..j], extent, p, bucketNum)
    {
      ghost var before := chunkData[..];
      BucketOnlyKeepsShape(before, initial, p, buckets, bucketNum);
      var counted := ProcessDeletedRecord(asWritten, list[j], extent, p, bucketNum, chunkData);
      if counted.Err? {
        assert !DeletedPlaceable(asWritten, list[j], extent, p);
        return Err(counted.error);
      }
      DeletedListStep(asWritten, initial, list, j, extent, p, bucketNum, before, chunkData[..]);
      j := j + 1;
    }
    assert list[..j] == list;
    BucketOnlyKeepsShape(chunkData[..], initial, p, buckets, bucketNum);
    AfterDeletedListAddsShares(asWritten, initial, list, extent, p, bucketNum);
    return Ok(());
  }

  /** One step of the free-list walk: the chunks before and after `processDeletedRecord` on entry j. */
  lemma DeletedListStep(asWritten: bool, s: seq<DiskStorageData>, list: seq<DelRec>, j: nat, extent: Extent,
                        p: AnalyzeParams, bucketNum: nat, before: seq<DiskStorageData>, now: seq<DiskStorageData>)
    requires p.granularity > 0 && j < |list| && list[j].lengthWithHeaders > 0
    requires forall c :: 0 <= c < |s| ==> bucketNum < |s[c].freeRecords|
    requires before == AfterDeletedList(asWritten, s, list[..j], extent, p, bucketNum)
    requires DeletedInExtent(list[j], extent).Ok?
    requires DeletedInExtent(list[j], extent).value ==>
               Placement(asWritten, list[j].ofs, list[j].lengthWithHeaders, extent.ofs, p).Ok? &&
               now == AfterDeleted(before, Placement(asWritten, list[j].ofs, list[j].lengthWithHeaders, extent.ofs, p).value, bucketNum)
    requires !DeletedInExtent(list[j], extent).value ==> now == before
    ensures DeletedPlaceable(asWritten, list[j], extent, p)
    ensures now == AfterDeletedList(asWritten, s, list[..j + 1], extent, p, bucketNum)
  {
    assert list[..j + 1][..j] == list[..j];
  }

  /** Chunks that differ only in one bucket's counts have the same layout. */
  lemma BucketOnlyKeepsShape(now: seq<DiskStorageData>, before: seq<DiskStorageData>, p: AnalyzeParams, buckets: nat,
                             bucketNum: nat)
    requires ChunkShape(before, p, buckets) && OnlyBucketChangedEverywhere(now, before, bucketNum)
    ensures ChunkShape(now, p, buckets)
  {
  }

  /**
   * The free-list walk of `analyzeDiskStorage`: every bucket's list in
   * bucket order. Only free-record counts change; each bucket's total over
   * the chunks grows by the shares handed out for its own list.
   */
  method FoldDeleted(asWritten: bool, deletedLists: seq<seq<DelRec>>, extent: Extent, p: AnalyzeParams,
                     chunkData: array<DiskStorageData>)
    returns (r: Result<(), Fault>)
    requires ValidPlan(p) && ChunkShape(chunkData[..], p, |deletedLists|)
    requires forall b, j :: 0 <= b < |deletedLists| && 0 <= j < |deletedLists[b]| ==>
               deletedLists[b][j].lengthWithHeaders > 0
    modifies chunkData
    ensures ChunkShape(chunkData[..], p, |deletedLists|)
    ensures FreeOnlyChangedEverywhere(chunkData[..], old(chunkData[..]))
    ensures r.Ok? <==> AllDeletedPlaceable(asWritten, deletedLists, extent, p)
    ensures r.Err? ==> r.error == SignedOverflow
    ensures r.Ok? ==> chunkData[..] == AfterDeletedLists(asWritten, old(chunkData[..]), deletedLists, extent, p)
    ensures r.Ok? ==> forall b :: 0 <= b < |deletedLists| ==>
              SumFree(chunkData[..], b) == SumFree(old(chunkData[..]), b) + DeletedShares(asWritten, deletedLists[b], extent, p)
  {
    var buckets := |deletedLists|;
    ghost var initial := chunkData[..];
    var bucketNum := 0;
    while bucketNum < buckets
      invariant 0 <= bucketNum <= buckets
      invariant forall b, j :: 0 <= b < bucketNum && 0 <= j < |deletedLists[b]| ==>
                  DeletedPlaceable(asWritten, deletedLists[b][j], extent, p)
      invariant chunkData[..] == AfterDeletedLists(asWritten, initial, deletedLists[..bucketNum], extent, p)
    {
      ghost var before := chunkData[..];
      FreeOnlyKeepsShape(before, initial, p, buckets);
      var counted := FoldDeletedList(asWritten, deletedLists[bucketNum], bucketNum, extent, p, buckets, chunkData);
      if counted.Err? {
        BucketOnlyAfterFreeOnly(chunkData[..], before, initial, bucketNum);
        BucketNotPlaceable(asWritten, deletedLists, bucketNum, extent, p);
        return Err(counted.error);
      }
      BucketStep(asWritten, initial, deletedLists, bucketNum, extent, p, before, chunkData[..]);
      bucketNum := bucketNum + 1;
    }
    assert deletedLists[..bucketNum] == deletedLists;
    FreeOnlyKeepsShape(chunkData[..], initial, p, buckets);
    forall b | 0 <= b < buckets
      ensures SumFree(chunkData[..], b) == SumFree(initial, b) + DeletedShares(asWritten, deletedLists[b], extent, p)
    {
      AfterDeletedListsBucket(asWritten, initial, deletedLists, extent, p, b);
    }
    return Ok(());
  }

  lemma BucketNotPlaceable(asWritten: bool, lists: seq<seq<DelRec>>, n: nat, extent: Extent, p: AnalyzeParams)
    requires p.granularity > 0 && n < |lists|
    requires forall b, j :: 0 <= b < |lists| && 0 <= j < |lists[b]| ==> lists[b][j].lengthWithHeaders > 0
    requires !forall j :: 0 <= j < |lists[n]| ==> DeletedPlaceable(asWritten, lists[n][j], extent, p)
    ensures !AllDeletedPlaceable(asWritten, lists, extent, p)
  {
  }

  /** One bucket of the free-list walk: the chunks before and after bucket n's list is folded in. */
  lemma BucketStep(asWritten: bool, s: seq<DiskStorageData>, lists: seq<seq<DelRec>>, n: nat, extent: Extent,
                   p: AnalyzeParams, before: seq<DiskStorageData>, now: seq<DiskStorageData>)
    requires p.granularity > 0 && n < |lists|
    requires forall c :: 0 <= c < |s| ==> |lists| <= |s[c].freeRecords|
    requires forall b, j :: 0 <= b < |lists| && 0 <= j < |lists[b]| ==> lists[b][j].lengthWithHeaders > 0
    requires forall b, j :: 0 <= b < n && 0 <= j < |lists[b]| ==> DeletedPlaceable(asWritten, lists[b][j], extent, p)
    requires forall j :: 0 <= j < |lists[n]| ==> DeletedPlaceable(asWritten, lists[n][j], extent, p)
    requires before == AfterDeletedLists(asWritten, s, lists[..n], extent, p)
    requires now == AfterDeletedList(asWritten, before, lists[n], extent, p, n)
    ensures forall b, j :: 0 <= b < n + 1 && 0 <= j < |lists[b]| ==> DeletedPlaceable(asWritten, lists[b][j], extent, p)
    ensures now == AfterDeletedLists(asWritten, s, lists[..n + 1], extent, p)
  {
    assert lists[..n + 1][..n] == lists[..n];
  }

  /** Sum of the chunks' free-record counts for one bucket. */
  function SumFree(s: seq<DiskStorageData>, bucketNum: nat): real
    requires forall c :: 0 <= c < |s| ==> bucketNum < |s[c].freeRecords|
  {
    if |s| == 0 then 0.0 else SumFree(s[..|s| - 1], bucketNum) + s[|s| - 1].freeRecords[bucketNum]
  }

  /** Sequences with the same count for a bucket everywhere have the same sum for it. */
  lemma {:induction false} SumFreeUnchanged(s: seq<DiskStorageData>, t: seq<DiskStorageData>, bucketNum: nat)
    requires |s| == |t|
    requires forall c :: 0 <= c < |s| ==> bucketNum < |s[c].freeRecords| && bucketNum < |t[c].freeRecords|
    requires forall c :: 0 <= c < |s| ==> s[c].freeRecords[bucketNum] == t[c].freeRecords[bucketNum]
    ensures SumFree(s, bucketNum) == SumFree(t, bucketNum)
  {
    if |s| > 0 {
      SumFreeUnchanged(s[..|s| - 1], t[..|t| - 1], bucketNum);
    }
  }

  /** A bucket that is zero in every chunk sums to zero. */
  lemma {:induction false} SumFreeOfZeros(s: seq<DiskStorageData>, bucketNum: nat)
    requires forall c :: 0 <= c < |s| ==> bucketNum < |s[c].freeRecords| && s[c].freeRecords[bucketNum] == 0.0
    ensures SumFree(s, bucketNum) == 0.0
  {
    if |s| > 0 {
      SumFreeOfZeros(s[..|s| - 1], bucketNum);
    }
  }

  /** The share the iterator hands out for one deleted record; none if it is skipped or cannot be placed. */
  ghost function DeletedShare(asWritten: bool, d: DelRec, extent: Extent, p: AnalyzeParams): real
    requires p.granularity > 0
  {
    if d.lengthWithHeaders > 0 && DeletedInExtent(d, extent) == Ok(true) &&
       Placement(asWritten, d.ofs, d.lengthWithHeaders, extent.ofs, p).Ok?
    then VisitedShare(Placement(asWritten, d.ofs, d.lengthWithHeaders, extent.ofs, p).value)
    else 0.0
  }

  /** The shares handed out for the deleted records of one list, summed over the list. */
  ghost function DeletedShares(asWritten: bool, list: seq<DelRec>, extent: Extent, p: AnalyzeParams): real
    requires p.granularity > 0
  {
    if |list| == 0 then 0.0
    else DeletedShares(asWritten, list[..|list| - 1], extent, p) + DeletedShare(asWritten, list[|list| - 1], extent, p)
  }

  /** Adding a deleted record changes its bucket's sum by exactly the shares the iterator hands out. */
  lemma {:induction false} AfterDeletedAddsVisitedShare(s: seq<DiskStorageData>, pos: RecPos, bucketNum: nat)
    requires forall c :: 0 <= c < |s| ==> bucketNum < |s[c].freeRecords|
    requires pos.InRange? ==> EndChunk(pos) < |s|
    ensures SumFree(AfterDeleted(s, pos, bucketNum), bucketNum) == SumFree(s, bucketNum) + VisitedShare(pos)
  {
    if pos.InRange? {
      AfterDeletedPrefix(s, pos, bucketNum, |s|);
      assert AfterDeleted(s, pos, bucketNum)[..|s|] == AfterDeleted(s, pos, bucketNum);
      assert s[..|s|] == s;
      if StartChunk(pos) > EndChunk(pos) {
        RatioSumEmpty(pos, StartChunk(pos), EndChunk(pos) + 1);
        RatioSumEmpty(pos, StartChunk(pos), Min(|s|, EndChunk(pos) + 1));
      }
    } else {
      SumFreeUnchanged(AfterDeleted(s, pos, bucketNum), s, bucketNum);
    }
  }

  lemma RatioSumEmpty(pos: RecPos, lo: int, hi: int)
    requires pos.InRange? && lo >= hi
    ensures RatioSum(pos, lo, hi) == 0.0
  {
  }

  /** The prefix form of AfterDeletedAddsVisitedShare, by induction on the prefix length. */
  lemma {:induction false} AfterDeletedPrefix(s: seq<DiskStorageData>, pos: RecPos, bucketNum: nat, k: nat)
    requires forall c :: 0 <= c < |s| ==> bucketNum < |s[c].freeRecords|
    requires pos.InRange? && k <= |s|
    ensures SumFree(AfterDeleted(s, pos, bucketNum)[..k], bucketNum) ==
            SumFree(s[..k], bucketNum) + RatioSum(pos, StartChunk(pos), Max(StartChunk(pos), Min(k, EndChunk(pos) + 1)))
  {
    var t := AfterDeleted(s, pos, bucketNum);
    var lo := StartChunk(pos);
    if k > 0 {
      AfterDeletedPrefix(s, pos, bucketNum, k - 1);
      assert t[..k][..k - 1] == t[..k - 1];
      assert s[..k][..k - 1] == s[..k - 1];
      var c := k - 1;
      if Covers(pos, c) {
        RatioSumSplitLast(pos, lo, c + 1);
      }
    } else {
      RatioSumEmpty(pos, lo, lo);
    }
  }

  lemma {:induction false} RatioSumSplitLast(pos: RecPos, lo: int, hi: int)
    requires pos.InRange? && lo < hi
    ensures RatioSum(pos, lo, hi) == RatioSum(pos, lo, hi - 1) + RatioAt(pos, hi - 1)
    decreases hi - lo
  {
    if lo < hi - 1 {
      RatioSumSplitLast(pos, lo + 1, hi);
    }
  }

  /** The number of deleted records on a list that lie in the extent. */
  function InExtentCount(list: seq<DelRec>, extent: Extent): nat {
    if |list| == 0 then 0
    else InExtentCount(list[..|list| - 1], extent) + (if DeletedInExtent(list[|list| - 1], extent) == Ok(true) then 1 else 0)
  }

  /** The deleted record lies within the analysed range [startOfs, endOfs). */
  ghost predicate DeletedInSpan(d: DelRec, extentOfs: i32, p: AnalyzeParams) {
    RelStart(d.ofs, extentOfs, p) >= 0 &&
    RelStart(d.ofs, extentOfs, p) + d.lengthWithHeaders <= p.length
  }

  /**
   * When every deleted record that lies in the extent also lies within the
   * analysed range, each adds exactly 1 to its bucket's free-record total.
   */
  lemma {:induction false} DeletedSharesAreCounts(asWritten: bool, list: seq<DelRec>, extent: Extent, p: AnalyzeParams)
    requires ValidPlan(p)
    requires forall j :: 0 <= j < |list| ==> list[j].lengthWithHeaders > 0 && DeletedPlaceable(asWritten, list[j], extent, p)
    requires forall j :: 0 <= j < |list| && DeletedInExtent(list[j], extent) == Ok(true) ==>
               DeletedInSpan(list[j], extent.ofs, p)
    ensures DeletedShares(asWritten, list, extent, p) == InExtentCount(list, extent) as real
  {
    if |list| > 0 {
      var m := |list| - 1;
      var prefix := list[..m];
      assert forall j :: 0 <= j < m ==> prefix[j] == list[j];
      DeletedSharesAreCounts(asWritten, prefix, extent, p);
      if DeletedInExtent(list[m], extent) == Ok(true) {
        DeletedInSpanHandedOut(asWritten, list[m], extent, p);
      }
    }
  }

  lemma DeletedInSpanHandedOut(asWritten: bool, d: DelRec, extent: Extent, p: AnalyzeParams)
    requires ValidPlan(p) && d.lengthWithHeaders > 0 && DeletedInSpan(d, extent.ofs, p)
    requires Placement(asWritten, d.ofs, d.lengthWithHeaders, extent.ofs, p).Ok?
    ensures VisitedShare(Placement(asWritten, d.ofs, d.lengthWithHeaders, extent.ofs, p).value) == 1.0
  {
    assert InRequestedRange(d.ofs, d.lengthWithHeaders, extent.ofs, p);
    PlanLengthWithinChunks(p);
    VisitedSizesSumToLength(d.ofs, d.lengthWithHeaders, extent.ofs, p);
  }

  /** The total's free-record count for a bucket is that bucket's sum over the chunks. */
  lemma {:induction false} TotalFreeIsSum(s: seq<DiskStorageData>, buckets: nat, bucketNum: nat)
    requires BucketsEverywhere(s, buckets) && bucketNum < buckets
    ensures Total(s, buckets).freeRecords[bucketNum] == SumFree(s, bucketNum)
  {
    if |s| > 0 {
      TotalFreeIsSum(s[..|s| - 1], buckets, bucketNum);
    }
  }

  /** The closing loop of `analyzeDiskStorage`: `extentData += chunk` for every chunk in order. */
  method TotalOf(chunkData: array<DiskStorageData>, buckets: nat) returns (extentData: DiskStorageData)
    requires BucketsEverywhere(chunkData[..], buckets)
    ensures extentData == Total(chunkData[..], buckets)
  {
    extentData := NewData(0, buckets);
    var c := 0;
    while c < chunkData.Length
      invariant 0 <= c <= chunkData.Length
      invariant extentData == Total(chunkData[..c], buckets)
    {
      assert chunkData[..c + 1][..c] == chunkData[..c];
      var previous;
      extentData, previous := AddAssign(extentData, chunkData[c]);
      c := c + 1;
    }
    assert chunkData[..c] == chunkData[..];
  }

  /** The chunks as `analyzeDiskStorage` creates them: the plan's sizes, nothing counted yet. */
  function InitialChunks(p: AnalyzeParams, buckets: nat): (s: seq<DiskStorageData>)
    requires p.numberOfChunks >= 0
    ensures ChunkShape(s, p, buckets)
    ensures forall c :: 0 <= c < |s| ==>
              s[c].recSize == 0 && s[c].numEntries == 0.0 &&
              forall b :: 0 <= b < buckets ==> s[c].freeRecords[b] == 0.0
  {
    seq(p.numberOfChunks, c => NewData(ChunkLength(p, c), buckets))
  }

  /**
   * The chunks `analyzeDiskStorage` reports: the initial chunks with every
   * live record folded in, then every bucket's free list.
   */
  ghost function DiskChunks(asWritten: bool, extent: Extent, p: AnalyzeParams, lists: seq<seq<DelRec>>)
    : (s: seq<DiskStorageData>)
    requires p.granularity > 0 && p.numberOfChunks >= 0
    ensures ChunkShape(s, p, |lists|)
  {
    var initial := InitialChunks(p, |lists|);
    var afterRecords := AfterRecords(asWritten, initial, extent.records, extent.ofs, p);
    FreeOnlyKeepsShape(AfterDeletedLists(asWritten, afterRecords, lists, extent, p), afterRecords, p, |lists|);
    AfterDeletedLists(asWritten, afterRecords, lists, extent, p)
  }

  /**
   * Summed over the reported chunks, recSize is the bytes handed out for
   * the live records, numEntries their shares, and each bucket's
   * free-record count the shares handed out for its list.
   */
  lemma DiskChunksSums(asWritten: bool, extent: Extent, p: AnalyzeParams, lists: seq<seq<DelRec>>)
    requires ValidPlan(p)
    ensures SumRecSize(DiskChunks(asWritten, extent, p, lists)) == RecordsBytes(asWritten, extent.records, extent.ofs, p)
    ensures SumEntries(DiskChunks(asWritten, extent, p, lists)) == RecordsShares(asWritten, extent.records, extent.ofs, p)
    ensures forall b :: 0 <= b < |lists| ==>
              SumFree(DiskChunks(asWritten, extent, p, lists), b) == DeletedShares(asWritten, lists[b], extent, p)
  {
    var initial := InitialChunks(p, |lists|);
    var afterRecords := AfterRecords(asWritten, initial, extent.records, extent.ofs, p);
    var t := DiskChunks(asWritten, extent, p, lists);
    ZeroSums(initial);
    AfterRecordsSums(asWritten, initial, extent.records, extent.ofs, p, |lists|);
    SumRecSizeUnchanged(t, afterRecords);
    SumEntriesUnchanged(t, afterRecords);
    forall b | 0 <= b < |lists|
      ensures SumFree(t, b) == DeletedShares(asWritten, lists[b], extent, p)
    {
      AfterDeletedListsBucket(asWritten, afterRecords, lists, extent, p, b);
      SumFreeOfZeros(afterRecords, b);
    }
  }

  /** Chunks with nothing counted have zero sums. */
  lemma {:induction false} ZeroSums(s: seq<DiskStorageData>)
    requires forall c :: 0 <= c < |s| ==> s[c].recSize == 0 && s[c].numEntries == 0.0
    ensures SumRecSize(s) == 0 && SumEntries(s) == 0.0
  {
    if |s| > 0 {
      ZeroSums(s[..|s| - 1]);
    }
  }

  /**
   * `analyzeDiskStorage`: creates one aggregate per chunk (the last with
   * the last chunk's length), folds in every live record, refuses capped
   * collections, folds every deleted record of every bucket into its
   * bucket, and totals the chunks. The chunks are `DiskChunks`; the
   * total's on-disk size is the analysed length, its recSize the bytes
   * handed out for the records, its numEntries their shares, and each
   * bucket's free-record count the shares handed out for its list.
   * `asWritten` selects the program's own placement or the corrected one.
   */
  method AnalyzeDiskStorage(asWritten: bool, isCapped: bool, extent: Extent, p: AnalyzeParams, deletedLists: seq<seq<DelRec>>)
    returns (r: Result<DiskReport, StorageError>)
    requires ValidPlan(p)
    requires forall i :: 0 <= i < |extent.records| ==> extent.records[i].lengthWithHeaders > 0
    requires forall b, j :: 0 <= b < |deletedLists| && 0 <= j < |deletedLists[b]| ==>
               deletedLists[b][j].lengthWithHeaders > 0
    ensures r.Ok? <==> RecordsPlaceable(asWritten, extent.records, extent.ofs, p) && !isCapped &&
                       AllDeletedPlaceable(asWritten, deletedLists, extent, p)
    ensures r.Err? && r.error == CappedCollection <==> RecordsPlaceable(asWritten, extent.records, extent.ofs, p) && isCapped
    ensures r.Err? ==> r.error == CappedCollection || r.error == Undefined(SignedOverflow)
    ensures r.Ok? ==> r.value.chunks == DiskChunks(asWritten, extent, p, deletedLists)
    ensures r.Ok? ==> ChunkShape(r.value.chunks, p, |deletedLists|)
    ensures r.Ok? ==> r.value.total == Total(r.value.chunks, |deletedLists|)
    ensures r.Ok? ==> r.value.total.onDiskSize == p.length
    ensures r.Ok? ==> r.value.total.recSize == RecordsBytes(asWritten, extent.records, extent.ofs, p)
    ensures r.Ok? ==> r.value.total.numEntries == RecordsShares(asWritten, extent.records, extent.ofs, p)
    ensures r.Ok? ==> forall b :: 0 <= b < |deletedLists| ==>
              r.value.total.freeRecords[b] == DeletedShares(asWritten, deletedLists[b], extent, p)
  {
    var buckets := |deletedLists|;
    var n := p.numberOfChunks;
    var chunkData := new DiskStorageData[n](_ => NewData(p.granularity, buckets));
    chunkData[n - 1] := chunkData[n - 1].(onDiskSize := p.lastChunkLength);
    assert chunkData[..] == InitialChunks(p, buckets) by {
      assert forall c :: 0 <= c < n ==> chunkData[c] == NewData(ChunkLength(p, c), buckets);
    }

    var records := FoldRecords(asWritten, extent.records, extent.ofs, p, buckets, chunkData);
    if records.Err? {
      return Err(Undefined(records.error));
    }
    if isCapped {
      return Err(CappedCollection);
    }
    var deleted := FoldDeleted(asWritten, deletedLists, extent, p, chunkData);
    if deleted.Err? {
      return Err(Undefined(deleted.error));
    }

    var extentData := TotalOf(chunkData, buckets);
    DiskChunksTotal(asWritten, extent, p, deletedLists);
    return Ok(DiskReport(chunkData[..], extentData));
  }

  /**
   * The total of the reported chunks: the analysed length on disk, the
   * bytes and shares handed out for the live records, and for each bucket
   * the shares handed out for its list.
   */
  lemma DiskChunksTotal(asWritten: bool, extent: Extent, p: AnalyzeParams, lists: seq<seq<DelRec>>)
    requires ValidPlan(p)
    ensures Total(DiskChunks(asWritten, extent, p, lists), |lists|).onDiskSize == p.length
    ensures Total(DiskChunks(asWritten, extent, p, lists), |lists|).recSize == RecordsBytes(asWritten, extent.records, extent.ofs, p)
    ensures Total(DiskChunks(asWritten, extent, p, lists), |lists|).numEntries == RecordsShares(asWritten, extent.records, extent.ofs, p)
    ensures forall b :: 0 <= b < |lists| ==>
              Total(DiskChunks(asWritten, extent, p, lists), |lists|).freeRecords[b] == DeletedShares(asWritten, lists[b], extent, p)
  {
    var s := DiskChunks(asWritten, extent, p, lists);
    DiskChunksSums(asWritten, extent, p, lists);
    TotalIsSum(s, |lists|);
    ChunkSizesSumToLength(s, p, |lists|);
    forall b | 0 <= b < |lists|
      ensures Total(s, |lists|).freeRecords[b] == DeletedShares(asWritten, lists[b], extent, p)
    {
      TotalFreeIsSum(s, |lists|, b);
    }
  }

  /**
   * When every live record lies within the analysed range, the total's
   * numEntries is the number of live records.
   */
  lemma EntriesAreRecordCount(asWritten: bool, extent: Extent, p: AnalyzeParams, lists: seq<seq<DelRec>>)
    requires ValidPlan(p) && RecordsPlaceable(asWritten, extent.records, extent.ofs, p)
    requires forall i :: 0 <= i < |extent.records| ==> RecordInSpan(extent.records[i], extent.ofs, p)
    ensures Total(DiskChunks(asWritten, extent, p, lists), |lists|).numEntries == |extent.records| as real
  {
    DiskChunksTotal(asWritten, extent, p, lists);
    RecordsSharesAreCount(asWritten, extent.records, extent.ofs, p);
  }

  /** When every live record lies within the analysed range, each is handed out with share 1. */
  lemma {:induction false} RecordsSharesAreCount(asWritten: bool, records: seq<Rec>, extentOfs: i32, p: AnalyzeParams)
    requires ValidPlan(p) && RecordsPlaceable(asWritten, records, extentOfs, p)
    requires forall i :: 0 <= i < |records| ==> RecordInSpan(records[i], extentOfs, p)
    ensures RecordsShares(asWritten, records, extentOfs, p) == |records| as real
  {
    if |records| > 0 {
      var m := |records| - 1;
      var prefix := records[..m];
      assert RecordsPlaceable(asWritten, prefix, extentOfs, p) && forall i :: 0 <= i < m ==> RecordInSpan(prefix[i], extentOfs, p) by {
        assert forall i :: 0 <= i < m ==> prefix[i] == records[i];
      }
      RecordsSharesAreCount(asWritten, prefix, extentOfs, p);
      RecordInSpanHandedOut(asWritten, records[m], extentOfs, p);
    }
  }

  /**
   * When every live record lies within the analysed range, the bytes
   * handed out are exactly the records' lengths.
   */
  lemma {:induction false} RecordsBytesAreLengths(asWritten: bool, records: seq<Rec>, extentOfs: i32, p: AnalyzeParams)
    requires ValidPlan(p) && RecordsPlaceable(asWritten, records, extentOfs, p)
    requires forall i :: 0 <= i < |records| ==> RecordInSpan(records[i], extentOfs, p)
    ensures RecordsBytes(asWritten, records, extentOfs, p) == RecordLengths(records)
  {
    if |records| > 0 {
      var m := |records| - 1;
      var prefix := records[..m];
      assert RecordsPlaceable(asWritten, prefix, extentOfs, p) && forall i :: 0 <= i < m ==> RecordInSpan(prefix[i], extentOfs, p) by {
        assert forall i :: 0 <= i < m ==> prefix[i] == records[i];
      }
      RecordsBytesAreLengths(asWritten, prefix, extentOfs, p);
      assert RecordBytes(asWritten, records[m], extentOfs, p) == records[m].lengthWithHeaders by {
        RecordInSpanHandedOut(asWritten, records[m], extentOfs, p);
      }
    }
  }

  /** The record lies within the analysed range [startOfs, endOfs). */
  ghost predicate RecordInSpan(rec: Rec, extentOfs: i32, p: AnalyzeParams) {
    RelStart(rec.ofs, extentOfs, p) >= 0 &&
    RelStart(rec.ofs, extentOfs, p) + rec.lengthWithHeaders <= p.length
  }

  lemma RecordInSpanHandedOut(asWritten: bool, rec: Rec, extentOfs: i32, p: AnalyzeParams)
    requires ValidPlan(p) && rec.lengthWithHeaders > 0 && RecordInSpan(rec, extentOfs, p)
    requires Placement(asWritten, rec.ofs, rec.lengthWithHeaders, extentOfs, p).Ok?
    ensures RecordBytes(asWritten, rec, extentOfs, p) == rec.lengthWithHeaders
    ensures VisitedShare(Placement(asWritten, rec.ofs, rec.lengthWithHeaders, extentOfs, p).value) == 1.0
  {
    assert InRequestedRange(rec.ofs, rec.lengthWithHeaders, extentOfs, p);
    PlanLengthWithinChunks(p);
    VisitedSizesSumToLength(rec.ofs, rec.lengthWithHeaders, extentOfs, p);
  }

  /** The chunks of a plan span at least its length. */
  lemma PlanLengthWithinChunks(p: AnalyzeParams)
    requires ValidPlan(p)
    ensures p.length <= p.numberOfChunks * p.granularity
  {
    assert p.granularity * (p.numberOfChunks - 1) + p.granularity == p.numberOfChunks * p.granularity;
  }

  /** Sum of the records' on-disk lengths. */
  function RecordLengths(records: seq<Rec>): int {
    if |records| == 0 then 0 else RecordLengths(records[..|records| - 1]) + records[|records| - 1].lengthWithHeaders
  }

  /**
   * Pages of chunk c: ceilingDiv of the chunk's length by the page size,
   * the length converted to `unsigned` and the quotient back to `int`.
   */
  function PagesIn(p: AnalyzeParams, c: int, pageSize: u32): int
    requires 0 < pageSize
  {
    ToI32(MongoMath.CeilingDiv(ToU32(ChunkLength(p, c)), pageSize))
  }

  /** In a plan that tiles its range, the chunk's pages cover it, and all of them are needed. */
  lemma {:induction false} PagesCoverChunk(p: AnalyzeParams, c: int, pageSize: u32)
    requires ValidPlan(p) && 0 < pageSize <= I32_MAX
    ensures PagesIn(p, c, pageSize) >= 1
    ensures PagesIn(p, c, pageSize) * pageSize >= ChunkLength(p, c)
    ensures (PagesIn(p, c, pageSize) - 1) * pageSize < ChunkLength(p, c)
  {
    var len := ChunkLength(p, c);
    assert len + pageSize - 1 < U32_MOD;
    assert ToU32(len) == len;
    var q := MongoMath.CeilingDiv(len, pageSize);
    CeilingQuotientBounds(len, pageSize, q);
  }

  /**
   * In any plan, a chunk has no pages exactly when its length lies in
   * (-pageSize, 0]: zero, or a negative length that wraps to within one
   * page of 2^32.
   */
  lemma {:induction false} NoPagesExactly(p: AnalyzeParams, c: int, pageSize: u32)
    requires 0 < pageSize <= I32_MAX
    ensures PagesIn(p, c, pageSize) == 0 <==> -(pageSize as int) < ChunkLength(p, c) <= 0
  {
    var len := ChunkLength(p, c);
    var u := ToU32(len);
    var n := (u + pageSize - 1) % U32_MOD;
    EuclidNonNegative(n, pageSize);
    if len >= 0 {
      assert n == len + pageSize - 1;
    } else if len + pageSize - 1 >= 0 {
      assert n == len + pageSize - 1;
    } else {
      assert n == len + pageSize - 1 + U32_MOD;
    }
    QuotientZeroIff(n, pageSize);
  }

  lemma QuotientZeroIff(n: int, d: int)
    requires n >= 0 && d > 0
    ensures n / d == 0 <==> n < d
  {
    EuclidNonNegative(n, d);
    if n < d {
      DivisionIsUnique(n, d, 0);
    }
  }

  /** A rounded-up quotient of a positive length lies between 1 and the length. */
  lemma CeilingQuotientBounds(len: int, d: int, q: int)
    requires len >= 1 && d >= 1 && q * d >= len && (q - 1) * d < len
    ensures 1 <= q <= len
  {
    if q <= 0 {
      MulMonotone(q, 0, d);
    }
    if q - 1 >= len {
      MulMonotone(len, q - 1, d);
      MulMonotone(1, d, len);
    }
  }

  /** Offset of chunk c within the extent: `startOfs + c * granularity`. */
  function ChunkStart(p: AnalyzeParams, c: int): int {
    p.startOfs + c * p.granularity
  }

  /** Offset of page k of a chunk starting at base. */
  function PageStart(base: int, k: int, pageSize: int): int {
    base + k * pageSize
  }

  /** The number of pages among the first `pages` pages from `base` that the oracle reports resident. */
  function ResidentPages(resident: int -> bool, base: int, pageSize: int, pages: int): (k: int)
    ensures 0 <= k <= Max(pages, 0)
    decreases pages
  {
    if pages <= 0 then 0
    else ResidentPages(resident, base, pageSize, pages - 1) + (if resident(PageStart(base, pages - 1, pageSize)) then 1 else 0)
  }

  /** A `double` quotient as `analyzeMemInCore` can produce it: a finite value, or NaN from 0 / 0. */
  datatype Double = Finite(value: real) | NaN

  /**
   * The share of chunk c's pages the oracle reports resident: NaN for a
   * chunk without pages, zero when the page count is negative (the page
   * loop does not run), and an overflow when `chunk * granularity` leaves
   * the `int` range before the first page is looked up.
   */
  function InMemRatio(p: AnalyzeParams, c: int, pageSize: u32, resident: int -> bool): Result<Double, Fault>
    requires 0 < pageSize
  {
    var pages := PagesIn(p, c, pageSize);
    if pages == 0 then Ok(NaN)
    else if pages < 0 then Ok(Finite(0.0))
    else
      var offset :- Checked(c * p.granularity);
      Ok(Finite(ResidentPages(resident, p.startOfs + offset, pageSize, pages) as real / pages as real))
  }

  /** In a plan that tiles its range, every chunk's share is defined and lies between 0 and 1. */
  lemma InMemRatioInUnit(p: AnalyzeParams, c: int, pageSize: u32, resident: int -> bool)
    requires ValidPlan(p) && 0 < pageSize <= I32_MAX && 0 <= c < p.numberOfChunks
    ensures InMemRatio(p, c, pageSize, resident).Ok?
    ensures InMemRatio(p, c, pageSize, resident).value.Finite?
    ensures 0.0 <= InMemRatio(p, c, pageSize, resident).value.value <= 1.0
  {
    PagesCoverChunk(p, c, pageSize);
    var pages := PagesIn(p, c, pageSize);
    var offset := c * p.granularity;
    ChunkOffsetFits(p, c);
    assert Checked(offset) == Ok(offset);
    var k := ResidentPages(resident, p.startOfs + offset, pageSize, pages);
    RatioInUnit(k, pages);
    assert InMemRatio(p, c, pageSize, resident) == Ok(Finite(k as real / pages as real));
  }

  /** In a plan that tiles its range, every chunk starts within the range. */
  lemma ChunkOffsetFits(p: AnalyzeParams, c: int)
    requires ValidPlan(p) && 0 <= c < p.numberOfChunks
    ensures 0 <= c * p.granularity <= p.length
  {
    MulMonotone(0, c, p.granularity);
    MulMonotone(c, p.numberOfChunks - 1, p.granularity);
    assert (p.numberOfChunks - 1) * p.granularity == p.granularity * (p.numberOfChunks - 1);
  }

  /** The inner loop of `analyzeMemInCore`: counts the resident pages of one chunk. */
  method CountResident(base: int, pageSize: int, pagesInChunk: int, resident: int -> bool) returns (inMemCount: int)
    ensures inMemCount == ResidentPages(resident, base, pageSize, pagesInChunk)
  {
    inMemCount := 0;
    var page := 0;
    while page < pagesInChunk
      invariant page <= Max(pagesInChunk, 0) && page >= 0
      invariant inMemCount == ResidentPages(resident, base, pageSize, page)
    {
      if resident(PageStart(base, page, pageSize)) {
        inMemCount := inMemCount + 1;
      }
      page := page + 1;
    }
  }

  /**
   * `analyzeMemInCore`: for each chunk, the share of its pages that are
   * resident. Residency is an oracle on byte offsets within the extent;
   * the page size is the operating system's, a positive `int`. Any plan is
   * accepted: without chunks the list is empty. When the plan tiles its
   * range, every share lies between 0 and 1.
   */
  method AnalyzeMemInCore(p: AnalyzeParams, pageSize: u32, resident: int -> bool) returns (r: Result<seq<Double>, Fault>)
    requires 0 < pageSize <= I32_MAX
    ensures r.Ok? <==> forall c :: 0 <= c < p.numberOfChunks ==> InMemRatio(p, c, pageSize, resident).Ok?
    ensures r.Err? ==> r.error == SignedOverflow
    ensures r.Ok? ==> |r.value| == Max(p.numberOfChunks, 0)
    ensures r.Ok? ==> forall c :: 0 <= c < |r.value| ==> r.value[c] == InMemRatio(p, c, pageSize, resident).value
    ensures ValidPlan(p) ==> r.Ok? && forall c :: 0 <= c < |r.value| ==>
              r.value[c].Finite? && 0.0 <= r.value[c].value <= 1.0
  {
    var ratios := [];
    var chunkLength := p.granularity;
    var chunk := 0;
    while chunk < p.numberOfChunks
      invariant 0 <= chunk <= Max(p.numberOfChunks, 0) && |ratios| == chunk
      invariant chunk < p.numberOfChunks ==> chunkLength == p.granularity
      invariant forall c :: 0 <= c < chunk ==>
                  InMemRatio(p, c, pageSize, resident).Ok? && ratios[c] == InMemRatio(p, c, pageSize, resident).value
      invariant ValidPlan(p) ==> forall c :: 0 <= c < chunk ==> ratios[c].Finite? && 0.0 <= ratios[c].value <= 1.0
    {
      if chunk == p.numberOfChunks - 1 {
        chunkLength := p.lastChunkLength;
      }
      assert chunkLength == ChunkLength(p, chunk);
      var pagesInChunk := ToI32(MongoMath.CeilingDiv(ToU32(chunkLength), pageSize));
      assert pagesInChunk == PagesIn(p, chunk, pageSize);
      if ValidPlan(p) {
        InMemRatioInUnit(p, chunk, pageSize, resident);
      }
      var inMemCount := 0;
      if pagesInChunk > 0 {
        var offset := Checked(chunk * p.granularity);
        if offset.Err? {
          assert InMemRatio(p, chunk, pageSize, resident).Err?;
          return Err(offset.error);
        }
        inMemCount := CountResident(p.startOfs + offset.value, pageSize, pagesInChunk, resident);
      }
      var ratio := if pagesInChunk == 0 then NaN else Finite(inMemCount as real / pagesInChunk as real);
      assert InMemRatio(p, chunk, pageSize, resident) == Ok(ratio);
      ratios := ratios + [ratio];
      chunk := chunk + 1;
    }
    return Ok(ratios);
  }

  lemma RatioInUnit(k: int, n: int)
    requires 0 <= k <= n && n >= 1
    ensures 0.0 <= k as real / n as real <= 1.0
  {
  }

  /** The output of `runInternal`, by subcommand. */
  datatype Report =
    | DiskStorageReport(disk: DiskReport)
    | MemInCoreReport(pageSize: int, inMemRatios: seq<Double>)

  /** The storage the analysis runs against: the extent's data, its collection's free lists, and the OS. */
  datatype Environment = Environment(
    isCapped: bool,
    deletedLists: seq<seq<DelRec>>,
    pageSize: u32,
    resident: int -> bool)

  /** The positive record lengths the record walks rely on, and the OS's positive page size. */
  ghost predicate WellFormed(extent: Extent, env: Environment) {
    (forall i :: 0 <= i < |extent.records| ==> extent.records[i].lengthWithHeaders > 0) &&
    (forall b, j :: 0 <= b < |env.deletedLists| && 0 <= j < |env.deletedLists[b]| ==>
       env.deletedLists[b][j].lengthWithHeaders > 0) &&
    0 < env.pageSize <= I32_MAX
  }

  /**
   * `runInternal`: derives the chunk plan, then runs the requested
   * analysis; an unknown subcommand is an error. `asWritten` selects the
   * program's own record placement or the corrected one. `diskStorage` on
   * a plan that does not tile its range is reported as DegeneratePlan;
   * `memInCore` runs on any plan.
   */
  method RunInternal(asWritten: bool, subCommand: int, req: AnalyzeParams, extent: Extent, env: Environment)
    returns (r: Result<Report, StorageError>)
    requires WellFormed(extent, env)
    ensures PlanChunks(req, extent.length).Err? ==> r == Err(Undefined(PlanChunks(req, extent.length).error))
    ensures PlanChunks(req, extent.length).Ok? && subCommand != DiskStorage && subCommand != MemInCore ==>
              r == Err(NoSuchSubcommand)
    ensures subCommand == DiskStorage && PlanChunks(req, extent.length).Ok? ==>
              var p := PlanChunks(req, extent.length).value;
              (!ValidPlan(p) <==> r == Err(DegeneratePlan)) &&
              (r.Ok? <==> ValidPlan(p) && RecordsPlaceable(asWritten, extent.records, extent.ofs, p) &&
                          !env.isCapped && AllDeletedPlaceable(asWritten, env.deletedLists, extent, p)) &&
              (r.Ok? ==> r.value.DiskStorageReport? &&
                         r.value.disk.chunks == DiskChunks(asWritten, extent, p, env.deletedLists) &&
                         ChunkShape(r.value.disk.chunks, p, |env.deletedLists|) &&
                         r.value.disk.total == Total(r.value.disk.chunks, |env.deletedLists|) &&
                         r.value.disk.total.onDiskSize == p.length &&
                         r.value.disk.total.recSize == RecordsBytes(asWritten, extent.records, extent.ofs, p) &&
                         r.value.disk.total.numEntries == RecordsShares(asWritten, extent.records, extent.ofs, p) &&
                         forall b :: 0 <= b < |env.deletedLists| ==>
                           r.value.disk.total.freeRecords[b] == DeletedShares(asWritten, env.deletedLists[b], extent, p))
    ensures subCommand == DiskStorage && env.isCapped ==> r.Err?
    ensures subCommand == MemInCore && PlanChunks(req, extent.length).Ok? ==>
              var p := PlanChunks(req, extent.length).value;
              (r.Ok? <==> forall c :: 0 <= c < p.numberOfChunks ==> InMemRatio(p, c, env.pageSize, env.resident).Ok?) &&
              (r.Err? ==> r.error == Undefined(SignedOverflow)) &&
              (r.Ok? ==> r.value.MemInCoreReport? && r.value.pageSize == env.pageSize &&
                         |r.value.inMemRatios| == Max(p.numberOfChunks, 0) &&
                         forall c :: 0 <= c < |r.value.inMemRatios| ==>
                           r.value.inMemRatios[c] == InMemRatio(p, c, env.pageSize, env.resident).value)
  {
    var plan := PlanChunks(req, extent.length);
    if plan.Err? {
      return Err(Undefined(plan.error));
    }
    var p := plan.value;
    if subCommand == DiskStorage {
      if !ValidPlan(p) {
        return Err(DegeneratePlan);
      }
      var disk := AnalyzeDiskStorage(asWritten, env.isCapped, extent, p, env.deletedLists);
      if disk.Err? {
        return Err(disk.error);
      }
      return Ok(DiskStorageReport(disk.value));
    }
    if subCommand == MemInCore {
      var inMem := AnalyzeMemInCore(p, env.pageSize, env.resident);
      if inMem.Err? {
        return Err(Undefined(inMem.error));
      }
      return Ok(MemInCoreReport(env.pageSize, inMem.value));
    }
    return Err(NoSuchSubcommand);
  }
}
