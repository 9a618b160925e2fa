/**
 * The `indexStats` command: the statistics holder and the B-tree inspector
 * as classes whose methods update them in place, the index lookup, the
 * storage summary over the index's extents in unsigned 32-bit arithmetic,
 * and the dispatch on the index version.
 */
module IndexStats {
  import opened Common
  import opened BtreeModel

  /** `BtreeStats`: the statistics for the whole tree, each level and the expanded branch. */
  class BtreeStats {
    var depth: nat
    var wholeTree: AreaStats
    var perLevel: seq<AreaStats>
    var branch: seq<seq<AreaStats>>

    /** The fields as one value. */
    function State(): StatsState
      reads this
    {
      StatsState(depth, wholeTree, perLevel, branch)
    }

    /** Depth 0, no levels yet, and a first branch level with a single entry for the root. */
    constructor()
      ensures State() == InitialStats
    {
      depth := 0;
      wholeTree := EmptyArea;
      perLevel := [];
      branch := [[EmptyArea]];
    }

    /**
     * `newBranchLevel`: the branch must be exactly depth_ + 1 levels deep;
     * a level of childrenCount empty entries is appended.
     */
    method NewBranchLevel(depth_: nat, childrenCount: nat)
      requires |branch| == depth_ + 1
      modifies this
      ensures branch == old(branch) + [EmptyLevel(childrenCount)]
      ensures depth == old(depth) && wholeTree == old(wholeTree) && perLevel == old(perLevel)
    {
      branch := branch + [EmptyLevel(childrenCount)];
    }

    /** `addStats` on the entry `nodeAt(d, ancestors[d])` of every expanded ancestor, in order of depth. */
    method AddToAncestorEntries(ancestors: seq<int>, keyCount: int, usedKeyCount: int)
      requires AncestorsInBranch(branch, ancestors)
      modifies this
      ensures branch == AddToAncestors(old(branch), ancestors, 0, keyCount, usedKeyCount)
      ensures depth == old(depth) && wholeTree == old(wholeTree) && perLevel == old(perLevel)
    {
      var d := 0;
      while d < |ancestors|
        invariant 0 <= d <= |ancestors|
        invariant AncestorsInBranch(branch, ancestors)
        invariant depth == old(depth) && wholeTree == old(wholeTree) && perLevel == old(perLevel)
        invariant AddToAncestors(branch, ancestors, d, keyCount, usedKeyCount) ==
                  AddToAncestors(old(branch), ancestors, 0, keyCount, usedKeyCount)
      {
        var k := ancestors[d];
        var level := branch[d];
        ghost var before := branch;
        branch := branch[d := level[k := AddStats(level[k], keyCount, usedKeyCount)]];
        AncestorsInWider(before, branch, ancestors);
        d := d + 1;
      }
    }

    /** Grow the per-level list with empty levels up to `depth_`, then `addStats` on that level. */
    method AddToLevel(depth_: nat, keyCount: int, usedKeyCount: int)
      modifies this
      ensures perLevel == PadLevels(old(perLevel), depth_ + 1)[depth_ :=
                AddStats(PadLevels(old(perLevel), depth_ + 1)[depth_], keyCount, usedKeyCount)]
      ensures depth == old(depth) && wholeTree == old(wholeTree) && branch == old(branch)
    {
      while |perLevel| < depth_ + 1
        invariant |old(perLevel)| <= |perLevel| <= Max(|old(perLevel)|, depth_ + 1)
        invariant perLevel[..|old(perLevel)|] == old(perLevel)
        invariant forall e :: |old(perLevel)| <= e < |perLevel| ==> perLevel[e] == EmptyArea
        invariant depth == old(depth) && wholeTree == old(wholeTree) && branch == old(branch)
        decreases depth_ + 1 - |perLevel|
      {
        perLevel := perLevel + [EmptyArea];
      }
      assert perLevel == PadLevels(old(perLevel), depth_ + 1);
      perLevel := perLevel[depth_ := AddStats(perLevel[depth_], keyCount, usedKeyCount)];
    }
  }

  /** `BtreeInspectorImpl`: the nodes to expand, one per depth, and the statistics it fills in. */
  class BtreeInspector {
    const expandNodes: seq<int>
    const stats: BtreeStats

    constructor(expandNodes: seq<int>)
      ensures this.expandNodes == expandNodes
      ensures fresh(stats) && stats.State() == InitialStats
    {
      this.expandNodes := expandNodes;
      stats := new BtreeStats();
    }

    /** `inspect`: the walk from the root, which counts as the child of an expanded node. */
    method Inspect(head: Loc) returns (ok: bool)
      requires stats.State() == InitialStats
      modifies stats
      ensures ok && stats.State() == BtreeModel.Inspect(head, expandNodes)
    {
      ok := InspectBucket(head, 0, 0, true, []);
    }

    /**
     * `inspectBucket`: its effect on the statistics is exactly Visit's.
     * The ancestors list is passed by value, so the push and pop of the
     * source only change what the children see.
     */
    method InspectBucket(dl: Loc, depth: nat, childNum: int, parentIsExpanded: bool,
                         expandedAncestors: seq<int>) returns (ok: bool)
      requires CanVisit(stats.State(), depth, childNum, parentIsExpanded, expandedAncestors, expandNodes)
      modifies stats
      ensures ok
      ensures stats.State() ==
              Visit(old(stats.State()), dl, depth, childNum, parentIsExpanded, expandedAncestors, expandNodes)
      decreases dl
    {
      if dl.Null? {
        return true;
      }
      var bucket := dl.bucket;
      var keyCount := |bucket.keys|;
      var childrenCount := keyCount + 1;
      if depth > stats.depth {
        stats.depth := depth;
      }
      var curNodeIsExpanded := false;
      var ancestors := expandedAncestors;
      if parentIsExpanded {
        ancestors := ancestors + [childNum];
        if depth < |expandNodes| && expandNodes[depth] == childNum {
          stats.NewBranchLevel(depth, childrenCount);
          curNodeIsExpanded := true;
        }
      }
      ghost var entered := stats.State();
      assert entered == Enter(old(stats.State()), bucket, depth, curNodeIsExpanded);
      EnterFits(old(stats.State()), bucket, depth, childNum, parentIsExpanded, expandedAncestors, expandNodes);

      var usedKeyCount, firstKeyNode, lastKeyNode := InspectChildren(bucket, depth, curNodeIsExpanded, ancestors);
      LeaveFits(old(stats.State()), stats.State(), depth, childNum, parentIsExpanded, expandedAncestors, expandNodes);

      FoldBucket(bucket, depth, childNum, parentIsExpanded, expandedAncestors,
                 usedKeyCount, firstKeyNode, lastKeyNode);
      return true;
    }

    /**
     * The children loop of `inspectBucket`: every used key slot's child,
     * then the right child, while counting the used slots and noting the
     * first and last key slots when they are used.
     */
    method InspectChildren(bucket: Bucket, depth: nat, curNodeIsExpanded: bool, ancestors: seq<int>)
      returns (usedKeyCount: nat, firstKeyNode: Option<KeyNode>, lastKeyNode: Option<KeyNode>)
      requires CanVisitChildren(stats.State(), bucket, 0, depth, curNodeIsExpanded, ancestors, expandNodes)
      modifies stats
      ensures stats.State() ==
              VisitChildren(old(stats.State()), bucket, 0, depth, curNodeIsExpanded, ancestors, expandNodes)
      ensures usedKeyCount == CountUsed(bucket.keys)
      ensures firstKeyNode.Some? <==> |bucket.keys| > 0 && bucket.keys[0].used
      ensures firstKeyNode.Some? ==> firstKeyNode.value == bucket.keys[0]
      ensures lastKeyNode.Some? <==> |bucket.keys| >= 2 && bucket.keys[|bucket.keys| - 1].used
      ensures lastKeyNode.Some? ==> lastKeyNode.value == bucket.keys[|bucket.keys| - 1]
      decreases bucket, 1
    {
      var keyCount := |bucket.keys|;
      usedKeyCount := 0;
      firstKeyNode := None;
      lastKeyNode := None;
      var i := 0;
      while i < keyCount
        invariant 0 <= i <= keyCount
        invariant CanVisitChildren(stats.State(), bucket, i, depth, curNodeIsExpanded, ancestors, expandNodes)
        invariant VisitChildren(stats.State(), bucket, i, depth, curNodeIsExpanded, ancestors, expandNodes) ==
                  VisitChildren(old(stats.State()), bucket, 0, depth, curNodeIsExpanded, ancestors, expandNodes)
        invariant usedKeyCount == CountUsed(bucket.keys[..i])
        invariant firstKeyNode.Some? <==> i > 0 && bucket.keys[0].used
        invariant firstKeyNode.Some? ==> firstKeyNode.value == bucket.keys[0]
        invariant lastKeyNode.Some? <==> i == keyCount && keyCount >= 2 && bucket.keys[keyCount - 1].used
        invariant lastKeyNode.Some? ==> lastKeyNode.value == bucket.keys[keyCount - 1]
      {
        var kn := bucket.keys[i];
        CountUsedStep(bucket.keys, i);
        if kn.used {
          usedKeyCount := usedKeyCount + 1;
          if i == 0 {
            firstKeyNode := Some(kn);
          } else if i == keyCount - 1 {
            lastKeyNode := Some(kn);
          }
          InspectChild(bucket, i, depth, curNodeIsExpanded, ancestors);
        } else {
          SkipStep(stats.State(), bucket, i, depth, curNodeIsExpanded, ancestors, expandNodes);
        }
        i := i + 1;
      }
      assert bucket.keys[..keyCount] == bucket.keys;
      InspectChild(bucket, keyCount, depth, curNodeIsExpanded, ancestors);
    }

    /**
     * The recursive call of the children loop on slot j, the right child
     * when j is the key count; the loop then goes on from the state it leaves.
     */
    method InspectChild(bucket: Bucket, j: nat, depth: nat, curNodeIsExpanded: bool, ancestors: seq<int>)
      requires CanVisitChildren(stats.State(), bucket, j, depth, curNodeIsExpanded, ancestors, expandNodes)
      requires j == |bucket.keys| || (j < |bucket.keys| && bucket.keys[j].used)
      modifies stats
      ensures CanVisitChildren(stats.State(), bucket, j + 1, depth, curNodeIsExpanded, ancestors, expandNodes)
      ensures VisitChildren(old(stats.State()), bucket, j, depth, curNodeIsExpanded, ancestors, expandNodes) ==
              VisitChildren(stats.State(), bucket, j + 1, depth, curNodeIsExpanded, ancestors, expandNodes)
      decreases bucket, 0
    {
      ChildFits(stats.State(), bucket, j, depth, curNodeIsExpanded, ancestors, expandNodes);
      var child := if j == |bucket.keys| then bucket.nextChild else bucket.keys[j].prevChild;
      var childOk := InspectBucket(child, depth + 1, j, curNodeIsExpanded, ancestors);
      DescendStep(old(stats.State()), stats.State(), bucket, j, depth, curNodeIsExpanded, ancestors, expandNodes);
    }

    /**
     * The bookkeeping after the children: `addStats` on every expanded
     * ancestor's entry and on the whole tree, the nodeInfo of a bucket
     * whose parent is expanded, and `addStats` on its level.
     */
    method FoldBucket(bucket: Bucket, depth: nat, childNum: int, parentIsExpanded: bool, expandedAncestors: seq<int>,
                      usedKeyCount: nat, firstKeyNode: Option<KeyNode>, lastKeyNode: Option<KeyNode>)
      requires AncestorsInBranch(stats.branch, expandedAncestors)
      requires parentIsExpanded ==> depth < |stats.branch| && 0 <= childNum < |stats.branch[depth]|
      requires usedKeyCount == CountUsed(bucket.keys)
      requires firstKeyNode.Some? <==> |bucket.keys| > 0 && bucket.keys[0].used
      requires firstKeyNode.Some? ==> firstKeyNode.value == bucket.keys[0]
      requires lastKeyNode.Some? <==> |bucket.keys| >= 2 && bucket.keys[|bucket.keys| - 1].used
      requires lastKeyNode.Some? ==> lastKeyNode.value == bucket.keys[|bucket.keys| - 1]
      modifies stats
      ensures stats.State() == Leave(old(stats.State()), bucket, depth, childNum, parentIsExpanded, expandedAncestors)
    {
      var keyCount := |bucket.keys|;
      stats.AddToAncestorEntries(expandedAncestors, keyCount, usedKeyCount);
      stats.wholeTree := AddStats(stats.wholeTree, keyCount, usedKeyCount);
      if parentIsExpanded {
        var info := NodeInfo(
          if firstKeyNode.Some? then Some(firstKeyNode.value.key) else None,
          if lastKeyNode.Some? then Some(lastKeyNode.value.key) else None,
          bucket.addr, childNum, keyCount, |bucket.keys|, depth);
        assert info == NodeInfoOf(bucket, childNum, depth);
        var level := stats.branch[depth];
        stats.branch := stats.branch[depth := level[childNum := level[childNum].(nodeInfo := Some(info))]];
      }
      stats.AddToLevel(depth, keyCount, usedKeyCount);
    }
  }

  /** Reduction modulo 2^32, the value an `unsigned int` accumulator holds. */
  function Wrap(x: int): u32 {
    x % U32_MOD
  }

  /** Adding to a wrapped accumulator wraps the exact sum. */
  lemma WrapAdd(a: int, b: int)
    ensures Wrap(Wrap(a) + b) == Wrap(a + b)
  {
    var q := a / U32_MOD;
    assert a + b == (Wrap(a) + b) + q * U32_MOD;
    ModShift(Wrap(a) + b, q);
  }

  /** Shifting by a multiple of 2^32 leaves the remainder unchanged. */
  lemma ModShift(x: int, q: int)
    ensures (x + q * U32_MOD) % U32_MOD == x % U32_MOD
  {
    var p := x / U32_MOD;
    assert 0 <= (x + q * U32_MOD) - (p + q) * U32_MOD < U32_MOD;
    DivisionIsUnique(x + q * U32_MOD, U32_MOD, p + q);
  }

  /** One extent of the index's storage: its length and the lengths of its records. */
  datatype IndexExtent = IndexExtent(length: i32, recordLengths: seq<i32>)

  /** An index: its name, version, root bucket and extents. */
  datatype IndexDetails = IndexDetails(name: string, version: int, head: Loc, extents: seq<IndexExtent>)

  /** The command's parameters after parsing. */
  datatype IndexStatsParams = IndexStatsParams(indexName: string, expandNodes: seq<int>, analyzeStorage: bool)

  /** The position of the last index with the given name, if any. */
  function LastNamed(indexes: seq<IndexDetails>, name: string): (r: Option<nat>)
    ensures r.None? <==> forall i :: 0 <= i < |indexes| ==> indexes[i].name != name
    ensures r.Some? ==> r.value < |indexes| && indexes[r.value].name == name &&
                        forall j :: r.value < j < |indexes| ==> indexes[j].name != name
  {
    if |indexes| == 0 then None
    else if indexes[|indexes| - 1].name == name then Some(|indexes| - 1)
    else LastNamed(indexes[..|indexes| - 1], name)
  }

  /** The index lookup of `runInternal`: every match overrides the previous one. */
  method FindIndex(indexes: seq<IndexDetails>, name: string) returns (detailsPtr: Option<nat>)
    ensures detailsPtr == LastNamed(indexes, name)
  {
    detailsPtr := None;
    var i := 0;
    while i < |indexes|
      invariant 0 <= i <= |indexes|
      invariant detailsPtr == LastNamed(indexes[..i], name)
    {
      assert indexes[..i + 1][..i] == indexes[..i];
      if indexes[i].name == name {
        detailsPtr := Some(i);
      }
      i := i + 1;
    }
    assert indexes[..|indexes|] == indexes;
  }

  function SumOf(xs: seq<int>): int {
    if |xs| == 0 then 0 else SumOf(xs[..|xs| - 1]) + xs[|xs| - 1]
  }

  /** Records over all extents. */
  function RecordCount(extents: seq<IndexExtent>): int {
    if |extents| == 0 then 0 else RecordCount(extents[..|extents| - 1]) + |extents[|extents| - 1].recordLengths|
  }

  /** Record bytes over all extents. */
  function TotalRecLen(extents: seq<IndexExtent>): int {
    if |extents| == 0 then 0 else TotalRecLen(extents[..|extents| - 1]) + SumOf(extents[|extents| - 1].recordLengths)
  }

  /** Extent space without headers over all extents. */
  function TotalExtentSpace(extents: seq<IndexExtent>, headerSize: int): int {
    if |extents| == 0 then 0
    else TotalExtentSpace(extents[..|extents| - 1], headerSize) + (extents[|extents| - 1].length - headerSize)
  }

  /** What is reported for one extent: its length, and its entry count and record bytes as `unsigned int`s. */
  datatype ExtentUsage = ExtentUsage(length: i32, entries: u32, recLen: u32)

  function UsageOf(ex: IndexExtent): ExtentUsage {
    ExtentUsage(ex.length, Wrap(|ex.recordLengths|), Wrap(SumOf(ex.recordLengths)))
  }

  function Usages(extents: seq<IndexExtent>): (r: seq<ExtentUsage>)
    ensures |r| == |extents| && forall i :: 0 <= i < |r| ==> r[i] == UsageOf(extents[i])
  {
    if |extents| == 0 then [] else Usages(extents[..|extents| - 1]) + [UsageOf(extents[|extents| - 1])]
  }

  /** The storage part of the report, with the `unsigned int` totals. */
  datatype StorageSummary = StorageSummary(extents: seq<ExtentUsage>, numRecords: u32, totRecLen: u32, totExtentSpace: u32)

  /**
   * The storage analysis of `runInternal`: each extent's entries and record
   * bytes, and the totals, all accumulated in `unsigned int`s that wrap
   * modulo 2^32.
   */
  method SummarizeExtents(extents: seq<IndexExtent>, headerSize: int) returns (summary: StorageSummary)
    ensures summary.extents == Usages(extents)
    ensures summary.numRecords == Wrap(RecordCount(extents))
    ensures summary.totRecLen == Wrap(TotalRecLen(extents))
    ensures summary.totExtentSpace == Wrap(TotalExtentSpace(extents, headerSize))
  {
    var usages: seq<ExtentUsage> := [];
    var totRecordCount: u32 := 0;
    var totRecLen: u32 := 0;
    var totExtentSpace: u32 := 0;
    ghost var records: int, bytes: int, space: int := 0, 0, 0;
    var i := 0;
    while i < |extents|
      invariant 0 <= i <= |extents|
      invariant usages == Usages(extents[..i])
      invariant records == RecordCount(extents[..i]) && totRecordCount == Wrap(records)
      invariant bytes == TotalRecLen(extents[..i]) && totRecLen == Wrap(bytes)
      invariant space == TotalExtentSpace(extents[..i], headerSize) && totExtentSpace == Wrap(space)
    {
      var ex := extents[i];
      ExtentStep(extents, i, headerSize);
      WrapAdd(records, |ex.recordLengths|);
      WrapAdd(bytes, SumOf(ex.recordLengths));
      WrapAdd(space, ex.length - headerSize);
      var recordCount, recLen;
      recordCount, recLen, totRecordCount, totRecLen := ScanRecords(ex.recordLengths, totRecordCount, totRecLen);
      totExtentSpace := Wrap(totExtentSpace + (ex.length - headerSize));
      usages := usages + [ExtentUsage(ex.length, recordCount, recLen)];
      records, bytes, space := records + |ex.recordLengths|, bytes + SumOf(ex.recordLengths), space + (ex.length - headerSize);
      i := i + 1;
    }
    assert extents[..|extents|] == extents;
    summary := StorageSummary(usages, totRecordCount, totRecLen, totExtentSpace);
  }

  /** One more extent adds its own figures to each prefix total. */
  lemma ExtentStep(extents: seq<IndexExtent>, i: int, headerSize: int)
    requires 0 <= i < |extents|
    ensures Usages(extents[..i + 1]) == Usages(extents[..i]) + [UsageOf(extents[i])]
    ensures RecordCount(extents[..i + 1]) == RecordCount(extents[..i]) + |extents[i].recordLengths|
    ensures TotalRecLen(extents[..i + 1]) == TotalRecLen(extents[..i]) + SumOf(extents[i].recordLengths)
    ensures TotalExtentSpace(extents[..i + 1], headerSize) == TotalExtentSpace(extents[..i], headerSize) + (extents[i].length - headerSize)
  {
    assert extents[..i + 1][..i] == extents[..i];
  }

  /**
   * The record loop of one extent: its entry count and record bytes, and
   * the running totals, each a wrapping `unsigned int`.
   */
  method ScanRecords(recordLengths: seq<i32>, totRecordCount: u32, totRecLen: u32)
    returns (recordCount: u32, recLen: u32, newTotRecordCount: u32, newTotRecLen: u32)
    ensures recordCount == Wrap(|recordLengths|) && recLen == Wrap(SumOf(recordLengths))
    ensures newTotRecordCount == Wrap(totRecordCount + |recordLengths|)
    ensures newTotRecLen == Wrap(totRecLen + SumOf(recordLengths))
  {
    recordCount, recLen := 0, 0;
    newTotRecordCount, newTotRecLen := totRecordCount, totRecLen;
    ghost var sum: int := 0;
    var j := 0;
    while j < |recordLengths|
      invariant 0 <= j <= |recordLengths|
      invariant sum == SumOf(recordLengths[..j])
      invariant recordCount == Wrap(j) && newTotRecordCount == Wrap(totRecordCount + j)
      invariant recLen == Wrap(sum) && newTotRecLen == Wrap(totRecLen + sum)
    {
      var len := recordLengths[j];
      SumOfStep(recordLengths, j);
      WrapAdd(sum, len);
      WrapAdd(totRecLen + sum, len);
      WrapAdd(j, 1);
      WrapAdd(totRecordCount + j, 1);
      recLen := Wrap(recLen + len);
      newTotRecLen := Wrap(newTotRecLen + len);
      recordCount := Wrap(recordCount + 1);
      newTotRecordCount := Wrap(newTotRecordCount + 1);
      sum := sum + len;
      j := j + 1;
    }
    assert recordLengths[..j] == recordLengths;
  }

  lemma SumOfStep(xs: seq<int>, j: int)
    requires 0 <= j < |xs|
    ensures SumOf(xs[..j + 1]) == SumOf(xs[..j]) + xs[j]
  {
    assert xs[..j + 1][..j] == xs[..j];
  }

  function SumEntries(us: seq<ExtentUsage>): int {
    if |us| == 0 then 0 else SumEntries(us[..|us| - 1]) + us[|us| - 1].entries
  }

  function SumRecLens(us: seq<ExtentUsage>): int {
    if |us| == 0 then 0 else SumRecLens(us[..|us| - 1]) + us[|us| - 1].recLen
  }

  /** The last extent's usage adds its wrapped figures to the prefix's sums. */
  lemma UsagesStep(extents: seq<IndexExtent>)
    requires |extents| > 0
    ensures var init, last := extents[..|extents| - 1], extents[|extents| - 1];
            SumEntries(Usages(extents)) == SumEntries(Usages(init)) + Wrap(|last.recordLengths|) &&
            SumRecLens(Usages(extents)) == SumRecLens(Usages(init)) + Wrap(SumOf(last.recordLengths))
  {
    assert Usages(extents)[..|extents| - 1] == Usages(extents[..|extents| - 1]);
  }

  /** Two wrapped sums that agree keep agreeing after the same addend is wrapped into each. */
  lemma WrapAddWrapped(e: int, r: int, n: int)
    requires Wrap(e) == Wrap(r)
    ensures Wrap(e + Wrap(n)) == Wrap(r + n)
  {
    calc {
      Wrap(e + Wrap(n));
      { WrapAdd(n, e); WrapAdd(e, n); }
      Wrap(Wrap(e) + n);
      Wrap(Wrap(r) + n);
      { WrapAdd(r, n); }
      Wrap(r + n);
    }
  }

  /** The reported record total is the wrapped sum of the extents' entry counts. */
  lemma {:induction false} EntriesAgreeWithTotal(extents: seq<IndexExtent>)
    ensures Wrap(SumEntries(Usages(extents))) == Wrap(RecordCount(extents))
  {
    if |extents| > 0 {
      var init := extents[..|extents| - 1];
      var n := |extents[|extents| - 1].recordLengths|;
      var e, r := SumEntries(Usages(init)), RecordCount(init);
      assert SumEntries(Usages(extents)) == e + Wrap(n) by { UsagesStep(extents); }
      assert Wrap(e + Wrap(n)) == Wrap(r + n) by {
        EntriesAgreeWithTotal(init);
        WrapAddWrapped(e, r, n);
      }
    }
  }

  /** The reported byte total is the wrapped sum of the extents' record bytes. */
  lemma {:induction false} RecLensAgreeWithTotal(extents: seq<IndexExtent>)
    ensures Wrap(SumRecLens(Usages(extents))) == Wrap(TotalRecLen(extents))
  {
    if |extents| > 0 {
      var init := extents[..|extents| - 1];
      var n := SumOf(extents[|extents| - 1].recordLengths);
      var e, r := SumRecLens(Usages(init)), TotalRecLen(init);
      assert SumRecLens(Usages(extents)) == e + Wrap(n) by { UsagesStep(extents); }
      assert Wrap(e + Wrap(n)) == Wrap(r + n) by {
        RecLensAgreeWithTotal(init);
        WrapAddWrapped(e, r, n);
      }
    }
  }

  /** The report: the index's name and version, the storage summary if requested, and the walk's statistics. */
  datatype IndexReport = IndexReport(name: string, version: int, storage: Option<StorageSummary>, stats: StatsState)

  datatype IndexStatsError = NoSuchIndex | UnsupportedVersion(version: int)

  /**
   * `runInternal`: the last index with the requested name, else an error;
   * its storage summary when asked for; then, for index version 0 or 1, a
   * fresh inspector's walk from the root, and an error for any other version.
   */
  method RunInternal(indexes: seq<IndexDetails>, params: IndexStatsParams, headerSize: int)
    returns (r: Result<IndexReport, IndexStatsError>)
    ensures LastNamed(indexes, params.indexName).None? <==> r == Err(NoSuchIndex)
    ensures LastNamed(indexes, params.indexName).Some? ==>
              var d := indexes[LastNamed(indexes, params.indexName).value];
              (d.version != 0 && d.version != 1 <==> r == Err(UnsupportedVersion(d.version))) &&
              (r.Ok? ==> r.value.name == d.name && r.value.version == d.version &&
                         r.value.stats == BtreeModel.Inspect(d.head, params.expandNodes) &&
                         (r.value.storage.Some? <==> params.analyzeStorage))
    ensures LastNamed(indexes, params.indexName).Some? ==>
              var d := indexes[LastNamed(indexes, params.indexName).value];
              (d.version == 0 || d.version == 1) ==> r.Ok?
    ensures r.Ok? && r.value.storage.Some? ==>
              var d := indexes[LastNamed(indexes, params.indexName).value];
              r.value.storage.value ==
                StorageSummary(Usages(d.extents), Wrap(RecordCount(d.extents)),
                               Wrap(TotalRecLen(d.extents)), Wrap(TotalExtentSpace(d.extents, headerSize)))
  {
    var detailsPtr := FindIndex(indexes, params.indexName);
    if detailsPtr.None? {
      return Err(NoSuchIndex);
    }
    var details := indexes[detailsPtr.value];
    var storage: Option<StorageSummary> := None;
    if params.analyzeStorage {
      var summary := SummarizeExtents(details.extents, headerSize);
      storage := Some(summary);
    }
    if details.version != 0 && details.version != 1 {
      return Err(UnsupportedVersion(details.version));
    }
    var inspector := new BtreeInspector(params.expandNodes);
    var ok := inspector.Inspect(details.head);
    r := Ok(IndexReport(details.name, details.version, storage, inspector.stats.State()));
  }
}
