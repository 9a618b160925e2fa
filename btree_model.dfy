/**
 * The B-tree walk of the `indexStats` command, as a specification: the
 * tree as an inductive datatype, the statistics an inspection accumulates,
 * and `Visit`, the effect of inspecting one bucket and everything below it.
 * The imperative inspector in IndexStats is proved to have exactly this
 * effect; the lemmas here say what that effect amounts to.
 */
module BtreeModel {
  import opened Common

  /** A bucket location: null, or a bucket. */
  datatype Loc = Null | At(bucket: Bucket)

  /** A bucket: its disk address, its key slots in order, and its right child. */
  datatype Bucket = Bucket(addr: int, keys: seq<KeyNode>, nextChild: Loc)

  /** A key slot: whether it is in use, the child to its left, and its key. */
  datatype KeyNode = KeyNode(used: bool, prevChild: Loc, key: string)

  /** Number of used key slots. */
  function CountUsed(keys: seq<KeyNode>): (n: nat)
    ensures n <= |keys|
  {
    if |keys| == 0 then 0
    else CountUsed(keys[..|keys| - 1]) + (if keys[|keys| - 1].used then 1 else 0)
  }

  /** Counting one more slot. */
  lemma CountUsedStep(keys: seq<KeyNode>, i: nat)
    requires i < |keys|
    ensures CountUsed(keys[..i + 1]) == CountUsed(keys[..i]) + (if keys[i].used then 1 else 0)
  {
    assert keys[..i + 1][..i] == keys[..i];
  }

  /**
   * Information about one bucket of the expanded branch. `usedKeyCount` is
   * set from the bucket's key count, as the source does.
   */
  datatype NodeInfo = NodeInfo(
    firstKey: Option<string>,
    lastKey: Option<string>,
    addr: int,
    childNum: int,
    keyCount: int,
    usedKeyCount: int,
    depth: int)

  /**
   * The NodeInfo recorded for bucket b: the first key when slot 0 is used,
   * the last key when the last slot is used and is not also slot 0.
   */
  function NodeInfoOf(b: Bucket, childNum: int, depth: int): (info: NodeInfo)
    ensures info.firstKey.Some? <==> |b.keys| > 0 && b.keys[0].used
    ensures info.firstKey.Some? ==> info.firstKey.value == b.keys[0].key
    ensures info.lastKey.Some? <==> |b.keys| >= 2 && b.keys[|b.keys| - 1].used
    ensures info.lastKey.Some? ==> info.lastKey.value == b.keys[|b.keys| - 1].key
    ensures info.keyCount == info.usedKeyCount == |b.keys|
    ensures info.childNum == childNum && info.depth == depth && info.addr == b.addr
  {
    var n := |b.keys|;
    NodeInfo(
      if n > 0 && b.keys[0].used then Some(b.keys[0].key) else None,
      if n >= 2 && b.keys[n - 1].used then Some(b.keys[n - 1].key) else None,
      b.addr, childNum, n, n, depth)
  }

  /** `AreaStats` with the key-count observations kept in order; the ratio estimators are left out. */
  datatype AreaStats = AreaStats(
    nodeInfo: Option<NodeInfo>,
    numBuckets: int,
    keyCount: seq<int>,
    usedKeyCount: seq<int>)

  const EmptyArea: AreaStats := AreaStats(None, 0, [], [])

  /** n freshly constructed AreaStats. */
  function EmptyLevel(n: nat): (r: seq<AreaStats>)
    ensures |r| == n && forall i :: 0 <= i < n ==> r[i] == EmptyArea
  {
    seq(n, _ => EmptyArea)
  }

  /** `addStats`: one more bucket, with its key count and used-key count observed. */
  function AddStats(a: AreaStats, keyCount: int, usedKeyCount: int): AreaStats {
    a.(numBuckets := a.numBuckets + 1,
       keyCount := a.keyCount + [keyCount],
       usedKeyCount := a.usedKeyCount + [usedKeyCount])
  }

  /** The state of a `BtreeStats` that the walk updates. */
  datatype StatsState = StatsState(
    depth: nat,
    wholeTree: AreaStats,
    perLevel: seq<AreaStats>,
    branch: seq<seq<AreaStats>>)

  /** The constructor's state: depth 0, no levels, one branch level holding the root's entry. */
  const InitialStats: StatsState := StatsState(0, EmptyArea, [], [[EmptyArea]])

  /** Whether inspection was asked to expand the childNum-th child at this depth. */
  predicate Expands(expandNodes: seq<int>, depth: int, childNum: int) {
    0 <= depth < |expandNodes| && expandNodes[depth] == childNum
  }

  /** Every expanded ancestor names an existing branch entry (the `nodeAt` assertion). */
  predicate AncestorsInBranch(branch: seq<seq<AreaStats>>, anc: seq<int>) {
    forall d :: 0 <= d < |anc| ==> d < |branch| && 0 <= anc[d] < |branch[d]|
  }

  /**
   * What `inspectBucket` needs of its caller: the expanded ancestors fit
   * the branch table; a child of an expanded node has its own entry; and a
   * node that will expand finds the branch exactly as deep as itself (the
   * `newBranchLevel` assertion).
   */
  predicate CanVisit(s: StatsState, depth: nat, childNum: int, parentIsExpanded: bool, anc: seq<int>,
                     expandNodes: seq<int>) {
    |anc| <= depth && (parentIsExpanded ==> |anc| == depth) &&
    AncestorsInBranch(s.branch, anc) &&
    (parentIsExpanded ==>
       depth < |s.branch| && 0 <= childNum < |s.branch[depth]| &&
       (Expands(expandNodes, depth, childNum) ==> |s.branch| == depth + 1))
  }

  /** Ancestors that fit a branch table still fit a table with the same levels and possibly more. */
  lemma AncestorsInWider(b1: seq<seq<AreaStats>>, b2: seq<seq<AreaStats>>, anc: seq<int>)
    requires |b1| <= |b2| && forall i :: 0 <= i < |b1| ==> |b2[i]| == |b1[i]|
    requires AncestorsInBranch(b1, anc)
    ensures AncestorsInBranch(b2, anc)
  {
    forall d | 0 <= d < |anc|
      ensures d < |b2| && 0 <= anc[d] < |b2[d]|
    {
      assert AncestorsInBranch(b1, anc);
      assert d < |b1| && 0 <= anc[d] < |b1[d]|;
      assert |b2[d]| == |b1[d]|;
    }
  }

  /** t's branch table extends s's: levels are only appended, and no level changes size. */
  predicate Extends(s: StatsState, t: StatsState) {
    |s.branch| <= |t.branch| && forall d :: 0 <= d < |s.branch| ==> |t.branch[d]| == |s.branch[d]|
  }

  /** The ancestors list a bucket hands to its children. */
  function Push(anc: seq<int>, parentIsExpanded: bool, childNum: int): seq<int> {
    if parentIsExpanded then anc + [childNum] else anc
  }

  /** Entering a bucket: raise the depth, and open a branch level for its children if it expands. */
  function Enter(s: StatsState, b: Bucket, depth: nat, expanded: bool): StatsState {
    s.(depth := Max(s.depth, depth),
       branch := if expanded then s.branch + [EmptyLevel(|b.keys| + 1)] else s.branch)
  }

  /**
   * `inspectBucket` on the location dl: nothing for a null location;
   * otherwise enter the bucket, inspect the children under used slots and
   * the right child, then fold the bucket into its expanded ancestors'
   * entries, the whole tree, its own entry's nodeInfo and its level.
   */
  function Visit(s: StatsState, dl: Loc, depth: nat, childNum: int, parentIsExpanded: bool, anc: seq<int>,
                 expandNodes: seq<int>): (t: StatsState)
    requires CanVisit(s, depth, childNum, parentIsExpanded, anc, expandNodes)
    ensures Extends(s, t)
    ensures !(parentIsExpanded && Expands(expandNodes, depth, childNum)) ==> |t.branch| == |s.branch|
    decreases dl, 0
  {
    match dl
    case Null => s
    case At(b) =>
      var expanded := parentIsExpanded && Expands(expandNodes, depth, childNum);
      var s1 := Enter(s, b, depth, expanded);
      EnterFits(s, b, depth, childNum, parentIsExpanded, anc, expandNodes);
      var s2 := VisitChildren(s1, b, 0, depth, expanded, Push(anc, parentIsExpanded, childNum), expandNodes);
      LeaveFits(s, s2, depth, childNum, parentIsExpanded, anc, expandNodes);
      Leave(s2, b, depth, childNum, parentIsExpanded, anc)
  }

  /** What the children loop needs: the ancestors fit, and an expanded parent's level is in place. */
  predicate CanVisitChildren(s: StatsState, b: Bucket, j: nat, depth: nat, expanded: bool, anc: seq<int>,
                             expandNodes: seq<int>) {
    AncestorsInBranch(s.branch, anc) && |anc| <= depth + 1 &&
    (expanded ==>
       |anc| == depth + 1 && depth + 1 < |s.branch| && |s.branch[depth + 1]| == |b.keys| + 1 &&
       (|s.branch| > depth + 2 ==> depth + 1 < |expandNodes| && expandNodes[depth + 1] < j))
  }

  /** Entering a bucket leaves what its children loop needs. */
  lemma EnterFits(s: StatsState, b: Bucket, depth: nat, childNum: int, parentIsExpanded: bool, anc: seq<int>,
                  expandNodes: seq<int>)
    requires CanVisit(s, depth, childNum, parentIsExpanded, anc, expandNodes)
    ensures var expanded := parentIsExpanded && Expands(expandNodes, depth, childNum);
            CanVisitChildren(Enter(s, b, depth, expanded), b, 0, depth, expanded,
                             Push(anc, parentIsExpanded, childNum), expandNodes)
  {
    var expanded := parentIsExpanded && Expands(expandNodes, depth, childNum);
    var s1 := Enter(s, b, depth, expanded);
    AncestorsInWider(s.branch, s1.branch, anc);
  }

  /** The bucket's own entry and its ancestors' entries survive an extension of the table. */
  lemma LeaveFits(s: StatsState, t: StatsState, depth: nat, childNum: int, parentIsExpanded: bool, anc: seq<int>,
                  expandNodes: seq<int>)
    requires CanVisit(s, depth, childNum, parentIsExpanded, anc, expandNodes)
    requires Extends(s, t)
    ensures AncestorsInBranch(t.branch, anc)
    ensures parentIsExpanded ==> depth < |t.branch| && 0 <= childNum < |t.branch[depth]|
  {
    AncestorsInWider(s.branch, t.branch, anc);
  }

  /** A child inspected from the children loop finds what `inspectBucket` needs. */
  lemma ChildFits(s: StatsState, b: Bucket, j: nat, depth: nat, expanded: bool, anc: seq<int>,
                  expandNodes: seq<int>)
    requires CanVisitChildren(s, b, j, depth, expanded, anc, expandNodes) && j <= |b.keys|
    ensures CanVisit(s, depth + 1, j, expanded, anc, expandNodes)
  {
  }

  /**
   * After slot j the loop can go on: the child left the branch table only
   * extended, and deeper only if it was the one to expand.
   */
  lemma NextChildFits(s: StatsState, t: StatsState, b: Bucket, j: nat, depth: nat, expanded: bool, anc: seq<int>,
                      expandNodes: seq<int>)
    requires CanVisitChildren(s, b, j, depth, expanded, anc, expandNodes) && j <= |b.keys|
    requires Extends(s, t)
    requires !(expanded && Expands(expandNodes, depth + 1, j)) ==> |t.branch| == |s.branch|
    ensures CanVisitChildren(t, b, j + 1, depth, expanded, anc, expandNodes)
  {
    AncestorsInWider(s.branch, t.branch, anc);
  }

  /** An unused slot is skipped. */
  lemma SkipStep(s: StatsState, b: Bucket, j: nat, depth: nat, expanded: bool, anc: seq<int>,
                 expandNodes: seq<int>)
    requires CanVisitChildren(s, b, j, depth, expanded, anc, expandNodes)
    requires j < |b.keys| && !b.keys[j].used
    ensures CanVisitChildren(s, b, j + 1, depth, expanded, anc, expandNodes)
    ensures VisitChildren(s, b, j, depth, expanded, anc, expandNodes) ==
            VisitChildren(s, b, j + 1, depth, expanded, anc, expandNodes)
  {
    NextChildFits(s, s, b, j, depth, expanded, anc, expandNodes);
  }

  /** A used slot, or the right child, is inspected and the loop goes on from the state it leaves. */
  lemma DescendStep(s: StatsState, t: StatsState, b: Bucket, j: nat, depth: nat, expanded: bool, anc: seq<int>,
                    expandNodes: seq<int>)
    requires CanVisitChildren(s, b, j, depth, expanded, anc, expandNodes)
    requires j == |b.keys| || (j < |b.keys| && b.keys[j].used)
    requires CanVisit(s, depth + 1, j, expanded, anc, expandNodes)
    requires t == Visit(s, if j == |b.keys| then b.nextChild else b.keys[j].prevChild, depth + 1, j, expanded, anc,
                        expandNodes)
    ensures CanVisitChildren(t, b, j + 1, depth, expanded, anc, expandNodes)
    ensures VisitChildren(s, b, j, depth, expanded, anc, expandNodes) ==
            VisitChildren(t, b, j + 1, depth, expanded, anc, expandNodes)
  {
    NextChildFits(s, t, b, j, depth, expanded, anc, expandNodes);
  }

  /** A bucket's call is its entry, its children loop from slot 0, and its fold. */
  lemma VisitAt(s: StatsState, b: Bucket, depth: nat, childNum: int, pie: bool, anc: seq<int>,
                expandNodes: seq<int>)
    requires CanVisit(s, depth, childNum, pie, anc, expandNodes)
    ensures var expanded := pie && Expands(expandNodes, depth, childNum);
            var s1 := Enter(s, b, depth, expanded);
            var anc1 := Push(anc, pie, childNum);
            CanVisitChildren(s1, b, 0, depth, expanded, anc1, expandNodes) &&
            var s2 := VisitChildren(s1, b, 0, depth, expanded, anc1, expandNodes);
            AncestorsInBranch(s2.branch, anc) && (pie ==> depth < |s2.branch| && 0 <= childNum < |s2.branch[depth]|) &&
            Visit(s, At(b), depth, childNum, pie, anc, expandNodes) == Leave(s2, b, depth, childNum, pie, anc)
  {
    var expanded := pie && Expands(expandNodes, depth, childNum);
    var s1 := Enter(s, b, depth, expanded);
    EnterFits(s, b, depth, childNum, pie, anc, expandNodes);
    var s2 := VisitChildren(s1, b, 0, depth, expanded, Push(anc, pie, childNum), expandNodes);
    LeaveFits(s, s2, depth, childNum, pie, anc, expandNodes);
  }

  /** The children of b from slot j on, each with its slot number as its childNum. */
  function VisitChildren(s: StatsState, b: Bucket, j: nat, depth: nat, expanded: bool, anc: seq<int>,
                         expandNodes: seq<int>): (t: StatsState)
    requires CanVisitChildren(s, b, j, depth, expanded, anc, expandNodes)
    ensures Extends(s, t)
    ensures !expanded ==> |t.branch| == |s.branch|
    decreases b, |b.keys| + 1 - j
  {
    if j > |b.keys| then s
    else if j < |b.keys| && !b.keys[j].used then
      NextChildFits(s, s, b, j, depth, expanded, anc, expandNodes);
      VisitChildren(s, b, j + 1, depth, expanded, anc, expandNodes)
    else
      var child := if j == |b.keys| then b.nextChild else b.keys[j].prevChild;
      ChildFits(s, b, j, depth, expanded, anc, expandNodes);
      var s1 := Visit(s, child, depth + 1, j, expanded, anc, expandNodes);
      NextChildFits(s, s1, b, j, depth, expanded, anc, expandNodes);
      VisitChildren(s1, b, j + 1, depth, expanded, anc, expandNodes)
  }

  /** `addStats` on the entry of every expanded ancestor from index d on. */
  function AddToAncestors(branch: seq<seq<AreaStats>>, anc: seq<int>, d: nat, keyCount: int, usedKeyCount: int)
    : (r: seq<seq<AreaStats>>)
    requires d <= |anc| && AncestorsInBranch(branch, anc)
    ensures |r| == |branch| && forall i :: 0 <= i < |r| ==> |r[i]| == |branch[i]|
    decreases |anc| - d
  {
    if d == |anc| then branch
    else
      var k := anc[d];
      var level := branch[d];
      var updated := branch[d := level[k := AddStats(level[k], keyCount, usedKeyCount)]];
      AncestorsInWider(branch, updated, anc);
      AddToAncestors(updated, anc, d + 1, keyCount, usedKeyCount)
  }

  /** The per-level list grown with empty levels until it has n entries. */
  function PadLevels(levels: seq<AreaStats>, n: int): (r: seq<AreaStats>)
    ensures |r| == Max(|levels|, n)
    ensures r[..|levels|] == levels
    ensures forall i :: |levels| <= i < |r| ==> r[i] == EmptyArea
  {
    if |levels| >= n then levels else levels + EmptyLevel(n - |levels|)
  }

  /** Leaving a bucket: fold it into its ancestors' entries, the whole tree, its nodeInfo and its level. */
  function Leave(s: StatsState, b: Bucket, depth: nat, childNum: int, parentIsExpanded: bool, anc: seq<int>)
    : (t: StatsState)
    requires AncestorsInBranch(s.branch, anc)
    requires parentIsExpanded ==> depth < |s.branch| && 0 <= childNum < |s.branch[depth]|
    ensures Extends(s, t) && |t.branch| == |s.branch|
  {
    var keyCount := |b.keys|;
    var usedKeyCount := CountUsed(b.keys);
    var branch := AddToAncestors(s.branch, anc, 0, keyCount, usedKeyCount);
    var branch' :=
      if parentIsExpanded then
        branch[depth := branch[depth][childNum := branch[depth][childNum].(nodeInfo := Some(NodeInfoOf(b, childNum, depth)))]]
      else branch;
    var levels := PadLevels(s.perLevel, depth + 1);
    s.(branch := branch',
       wholeTree := AddStats(s.wholeTree, keyCount, usedKeyCount),
       perLevel := levels[depth := AddStats(levels[depth], keyCount, usedKeyCount)])
  }

  /** Number of buckets the walk inspects below and including dl. */
  function Count(dl: Loc): nat
    decreases dl, 0
  {
    match dl
    case Null => 0
    case At(b) => 1 + CountChildren(b, 0)
  }

  function CountChildren(b: Bucket, j: nat): nat
    decreases b, |b.keys| + 1 - j
  {
    if j > |b.keys| then 0
    else if j < |b.keys| && !b.keys[j].used then CountChildren(b, j + 1)
    else
      var child := if j == |b.keys| then b.nextChild else b.keys[j].prevChild;
      Count(child) + CountChildren(b, j + 1)
  }

  /** The key counts of the inspected buckets, children before parents. */
  function KeyCounts(dl: Loc): seq<int>
    decreases dl, 0
  {
    match dl
    case Null => []
    case At(b) => ChildrenKeyCounts(b, 0) + [|b.keys|]
  }

  function ChildrenKeyCounts(b: Bucket, j: nat): seq<int>
    decreases b, |b.keys| + 1 - j
  {
    if j > |b.keys| then []
    else if j < |b.keys| && !b.keys[j].used then ChildrenKeyCounts(b, j + 1)
    else
      var child := if j == |b.keys| then b.nextChild else b.keys[j].prevChild;
      KeyCounts(child) + ChildrenKeyCounts(b, j + 1)
  }

  /** Depth of the deepest inspected bucket below a bucket at `depth`; -1 for a null location. */
  function Deepest(dl: Loc, depth: nat): int
    decreases dl, 0
  {
    match dl
    case Null => -1
    case At(b) => Max(depth, DeepestChild(b, 0, depth))
  }

  function DeepestChild(b: Bucket, j: nat, depth: nat): int
    decreases b, |b.keys| + 1 - j
  {
    if j > |b.keys| then -1
    else if j < |b.keys| && !b.keys[j].used then DeepestChild(b, j + 1, depth)
    else
      var child := if j == |b.keys| then b.nextChild else b.keys[j].prevChild;
      Max(Deepest(child, depth + 1), DeepestChild(b, j + 1, depth))
  }

  /** Total numBuckets over a list of levels. */
  function SumBuckets(levels: seq<AreaStats>): int {
    if |levels| == 0 then 0 else SumBuckets(levels[..|levels| - 1]) + levels[|levels| - 1].numBuckets
  }

  /** The whole-tree statistics gain one bucket per inspected bucket. */
  lemma {:induction false} VisitWholeTreeBuckets(s: StatsState, dl: Loc, depth: nat, childNum: int, pie: bool,
                                                 anc: seq<int>, expandNodes: seq<int>)
    requires CanVisit(s, depth, childNum, pie, anc, expandNodes)
    ensures Visit(s, dl, depth, childNum, pie, anc, expandNodes).wholeTree.numBuckets ==
            s.wholeTree.numBuckets + Count(dl)
    decreases dl, 0
  {
    match dl
    case Null =>
    case At(b) =>
      var expanded := pie && Expands(expandNodes, depth, childNum);
      var s1 := Enter(s, b, depth, expanded);
      ChildrenWholeTreeBuckets(s1, b, 0, depth, expanded, Push(anc, pie, childNum), expandNodes);
  }

  lemma {:induction false} ChildrenWholeTreeBuckets(s: StatsState, b: Bucket, j: nat, depth: nat, expanded: bool,
                                                    anc: seq<int>, expandNodes: seq<int>)
    requires CanVisitChildren(s, b, j, depth, expanded, anc, expandNodes)
    ensures VisitChildren(s, b, j, depth, expanded, anc, expandNodes).wholeTree.numBuckets ==
            s.wholeTree.numBuckets + CountChildren(b, j)
    decreases b, |b.keys| + 1 - j
  {
    if j > |b.keys| {
    } else if j < |b.keys| && !b.keys[j].used {
      assert VisitChildren(s, b, j, depth, expanded, anc, expandNodes).wholeTree.numBuckets ==
             s.wholeTree.numBuckets + CountChildren(b, j + 1) by {
        SkipStep(s, b, j, depth, expanded, anc, expandNodes);
        ChildrenWholeTreeBuckets(s, b, j + 1, depth, expanded, anc, expandNodes);
      }
    } else {
      var child := if j == |b.keys| then b.nextChild else b.keys[j].prevChild;
      ChildFits(s, b, j, depth, expanded, anc, expandNodes);
      var s1 := Visit(s, child, depth + 1, j, expanded, anc, expandNodes);
      assert s1.wholeTree.numBuckets == s.wholeTree.numBuckets + Count(child) by {
        VisitWholeTreeBuckets(s, child, depth + 1, j, expanded, anc, expandNodes);
      }
      assert VisitChildren(s, b, j, depth, expanded, anc, expandNodes).wholeTree.numBuckets ==
             s1.wholeTree.numBuckets + CountChildren(b, j + 1) by {
        DescendStep(s, s1, b, j, depth, expanded, anc, expandNodes);
        ChildrenWholeTreeBuckets(s1, b, j + 1, depth, expanded, anc, expandNodes);
      }
    }
  }

  /** The whole tree observes the inspected buckets' key counts in the order the walk finishes them. */
  lemma {:induction false} VisitWholeTreeKeys(s: StatsState, dl: Loc, depth: nat, childNum: int, pie: bool,
                                              anc: seq<int>, expandNodes: seq<int>)
    requires CanVisit(s, depth, childNum, pie, anc, expandNodes)
    ensures Visit(s, dl, depth, childNum, pie, anc, expandNodes).wholeTree.keyCount ==
            s.wholeTree.keyCount + KeyCounts(dl)
    decreases dl, 0
  {
    match dl
    case Null =>
    case At(b) =>
      var expanded := pie && Expands(expandNodes, depth, childNum);
      var s1 := Enter(s, b, depth, expanded);
      ChildrenWholeTreeKeys(s1, b, 0, depth, expanded, Push(anc, pie, childNum), expandNodes);
  }

  lemma {:induction false} ChildrenWholeTreeKeys(s: StatsState, b: Bucket, j: nat, depth: nat, expanded: bool,
                                                 anc: seq<int>, expandNodes: seq<int>)
    requires CanVisitChildren(s, b, j, depth, expanded, anc, expandNodes)
    ensures VisitChildren(s, b, j, depth, expanded, anc, expandNodes).wholeTree.keyCount ==
            s.wholeTree.keyCount + ChildrenKeyCounts(b, j)
    decreases b, |b.keys| + 1 - j
  {
    if j > |b.keys| {
    } else if j < |b.keys| && !b.keys[j].used {
      assert VisitChildren(s, b, j, depth, expanded, anc, expandNodes).wholeTree.keyCount ==
             s.wholeTree.keyCount + ChildrenKeyCounts(b, j + 1) by {
        SkipStep(s, b, j, depth, expanded, anc, expandNodes);
        ChildrenWholeTreeKeys(s, b, j + 1, depth, expanded, anc, expandNodes);
      }
    } else {
      var child := if j == |b.keys| then b.nextChild else b.keys[j].prevChild;
      ChildFits(s, b, j, depth, expanded, anc, expandNodes);
      var s1 := Visit(s, child, depth + 1, j, expanded, anc, expandNodes);
      assert s1.wholeTree.keyCount == s.wholeTree.keyCount + KeyCounts(child) by {
        VisitWholeTreeKeys(s, child, depth + 1, j, expanded, anc, expandNodes);
      }
      DescendStep(s, s1, b, j, depth, expanded, anc, expandNodes);
      ChildrenWholeTreeKeys(s1, b, j + 1, depth, expanded, anc, expandNodes);
      assert ChildrenKeyCounts(b, j) == KeyCounts(child) + ChildrenKeyCounts(b, j + 1);
      ConcatAssoc(s.wholeTree.keyCount, KeyCounts(child), ChildrenKeyCounts(b, j + 1));
    }
  }

  lemma ConcatAssoc(a: seq<int>, b: seq<int>, c: seq<int>)
    ensures a + (b + c) == (a + b) + c
  {
  }

  /** Padding with empty levels adds no buckets. */
  lemma {:induction false} SumBucketsPad(levels: seq<AreaStats>, n: int)
    ensures SumBuckets(PadLevels(levels, n)) == SumBuckets(levels)
  {
    if |levels| < n {
      SumBucketsEmptyTail(levels, EmptyLevel(n - |levels|));
    }
  }

  lemma {:induction false} SumBucketsEmptyTail(levels: seq<AreaStats>, tail: seq<AreaStats>)
    requires forall i :: 0 <= i < |tail| ==> tail[i] == EmptyArea
    ensures SumBuckets(levels + tail) == SumBuckets(levels)
  {
    if |tail| > 0 {
      var longer := levels + tail;
      assert longer[..|longer| - 1] == levels + tail[..|tail| - 1];
      assert longer[|longer| - 1] == tail[|tail| - 1] == EmptyArea;
      SumBucketsEmptyTail(levels, tail[..|tail| - 1]);
    } else {
      assert levels + tail == levels;
    }
  }

  /** Adding one bucket to one level adds one to the levels' total. */
  lemma {:induction false} SumBucketsAddOne(levels: seq<AreaStats>, d: nat, keyCount: int, usedKeyCount: int)
    requires d < |levels|
    ensures SumBuckets(levels[d := AddStats(levels[d], keyCount, usedKeyCount)]) == SumBuckets(levels) + 1
  {
    var m := |levels| - 1;
    var updated := levels[d := AddStats(levels[d], keyCount, usedKeyCount)];
    if d == m {
      assert updated[..m] == levels[..m];
    } else {
      assert updated[..m] == levels[..m][d := AddStats(levels[d], keyCount, usedKeyCount)];
      SumBucketsAddOne(levels[..m], d, keyCount, usedKeyCount);
    }
  }

  /** The per-level statistics together gain one bucket per inspected bucket. */
  lemma {:induction false} VisitLevels(s: StatsState, dl: Loc, depth: nat, childNum: int, pie: bool,
                                       anc: seq<int>, expandNodes: seq<int>)
    requires CanVisit(s, depth, childNum, pie, anc, expandNodes)
    ensures SumBuckets(Visit(s, dl, depth, childNum, pie, anc, expandNodes).perLevel) ==
            SumBuckets(s.perLevel) + Count(dl)
    decreases dl, 0
  {
    match dl
    case Null =>
    case At(b) =>
      var expanded := pie && Expands(expandNodes, depth, childNum);
      var s1 := Enter(s, b, depth, expanded);
      var anc1 := Push(anc, pie, childNum);
      VisitAt(s, b, depth, childNum, pie, anc, expandNodes);
      var s2 := VisitChildren(s1, b, 0, depth, expanded, anc1, expandNodes);
      assert SumBuckets(s2.perLevel) == SumBuckets(s.perLevel) + CountChildren(b, 0) by {
        ChildrenLevels(s1, b, 0, depth, expanded, anc1, expandNodes);
      }
      assert SumBuckets(Leave(s2, b, depth, childNum, pie, anc).perLevel) == SumBuckets(s2.perLevel) + 1 by {
        SumBucketsPad(s2.perLevel, depth + 1);
        SumBucketsAddOne(PadLevels(s2.perLevel, depth + 1), depth, |b.keys|, CountUsed(b.keys));
      }
  }

  lemma {:induction false} ChildrenLevels(s: StatsState, b: Bucket, j: nat, depth: nat, expanded: bool,
                                          anc: seq<int>, expandNodes: seq<int>)
    requires CanVisitChildren(s, b, j, depth, expanded, anc, expandNodes)
    ensures SumBuckets(VisitChildren(s, b, j, depth, expanded, anc, expandNodes).perLevel) ==
            SumBuckets(s.perLevel) + CountChildren(b, j)
    decreases b, |b.keys| + 1 - j
  {
    if j > |b.keys| {
    } else if j < |b.keys| && !b.keys[j].used {
      assert SumBuckets(VisitChildren(s, b, j, depth, expanded, anc, expandNodes).perLevel) ==
             SumBuckets(s.perLevel) + CountChildren(b, j + 1) by {
        SkipStep(s, b, j, depth, expanded, anc, expandNodes);
        ChildrenLevels(s, b, j + 1, depth, expanded, anc, expandNodes);
      }
    } else {
      var child := if j == |b.keys| then b.nextChild else b.keys[j].prevChild;
      ChildFits(s, b, j, depth, expanded, anc, expandNodes);
      var s1 := Visit(s, child, depth + 1, j, expanded, anc, expandNodes);
      assert CountChildren(b, j) == Count(child) + CountChildren(b, j + 1);
      assert SumBuckets(s1.perLevel) == SumBuckets(s.perLevel) + Count(child) by {
        VisitLevels(s, child, depth + 1, j, expanded, anc, expandNodes);
      }
      assert SumBuckets(VisitChildren(s, b, j, depth, expanded, anc, expandNodes).perLevel) ==
             SumBuckets(s1.perLevel) + CountChildren(b, j + 1) by {
        DescendStep(s, s1, b, j, depth, expanded, anc, expandNodes);
        ChildrenLevels(s1, b, j + 1, depth, expanded, anc, expandNodes);
      }
    }
  }

  /** The recorded depth becomes the depth of the deepest inspected bucket. */
  lemma {:induction false} VisitDepth(s: StatsState, dl: Loc, depth: nat, childNum: int, pie: bool,
                                      anc: seq<int>, expandNodes: seq<int>)
    requires CanVisit(s, depth, childNum, pie, anc, expandNodes)
    ensures Visit(s, dl, depth, childNum, pie, anc, expandNodes).depth == Max(s.depth, Deepest(dl, depth))
    decreases dl, 0
  {
    match dl
    case Null =>
    case At(b) =>
      var expanded := pie && Expands(expandNodes, depth, childNum);
      EnterFits(s, b, depth, childNum, pie, anc, expandNodes);
      ChildrenDepth(Enter(s, b, depth, expanded), b, 0, depth, expanded, Push(anc, pie, childNum), expandNodes);
  }

  lemma {:induction false} ChildrenDepth(s: StatsState, b: Bucket, j: nat, depth: nat, expanded: bool,
                                         anc: seq<int>, expandNodes: seq<int>)
    requires CanVisitChildren(s, b, j, depth, expanded, anc, expandNodes)
    ensures VisitChildren(s, b, j, depth, expanded, anc, expandNodes).depth == Max(s.depth, DeepestChild(b, j, depth))
    decreases b, |b.keys| + 1 - j
  {
    if j > |b.keys| {
    } else if j < |b.keys| && !b.keys[j].used {
      assert VisitChildren(s, b, j, depth, expanded, anc, expandNodes).depth == Max(s.depth, DeepestChild(b, j + 1, depth)) by {
        SkipStep(s, b, j, depth, expanded, anc, expandNodes);
        ChildrenDepth(s, b, j + 1, depth, expanded, anc, expandNodes);
      }
    } else {
      var child := if j == |b.keys| then b.nextChild else b.keys[j].prevChild;
      ChildFits(s, b, j, depth, expanded, anc, expandNodes);
      var s1 := Visit(s, child, depth + 1, j, expanded, anc, expandNodes);
      var deepest := Deepest(child, depth + 1);
      assert DeepestChild(b, j, depth) == Max(deepest, DeepestChild(b, j + 1, depth));
      assert s1.depth == Max(s.depth, deepest) by {
        VisitDepth(s, child, depth + 1, j, expanded, anc, expandNodes);
      }
      assert VisitChildren(s, b, j, depth, expanded, anc, expandNodes).depth == Max(s1.depth, DeepestChild(b, j + 1, depth)) by {
        DescendStep(s, s1, b, j, depth, expanded, anc, expandNodes);
        ChildrenDepth(s1, b, j + 1, depth, expanded, anc, expandNodes);
      }
    }
  }

  /** The per-level list grows to one level past the deepest inspected bucket. */
  lemma {:induction false} VisitLevelCount(s: StatsState, dl: Loc, depth: nat, childNum: int, pie: bool,
                                      anc: seq<int>, expandNodes: seq<int>)
    requires CanVisit(s, depth, childNum, pie, anc, expandNodes)
    ensures |Visit(s, dl, depth, childNum, pie, anc, expandNodes).perLevel| ==
            Max(|s.perLevel|, Deepest(dl, depth) + 1)
    decreases dl, 0
  {
    match dl
    case Null =>
    case At(b) =>
      var expanded := pie && Expands(expandNodes, depth, childNum);
      EnterFits(s, b, depth, childNum, pie, anc, expandNodes);
      ChildrenLevelCount(Enter(s, b, depth, expanded), b, 0, depth, expanded, Push(anc, pie, childNum), expandNodes);
  }

  lemma {:induction false} ChildrenLevelCount(s: StatsState, b: Bucket, j: nat, depth: nat, expanded: bool,
                                         anc: seq<int>, expandNodes: seq<int>)
    requires CanVisitChildren(s, b, j, depth, expanded, anc, expandNodes)
    ensures |VisitChildren(s, b, j, depth, expanded, anc, expandNodes).perLevel| ==
            Max(|s.perLevel|, DeepestChild(b, j, depth) + 1)
    decreases b, |b.keys| + 1 - j
  {
    if j > |b.keys| {
    } else if j < |b.keys| && !b.keys[j].used {
      assert |VisitChildren(s, b, j, depth, expanded, anc, expandNodes).perLevel| ==
             Max(|s.perLevel|, DeepestChild(b, j + 1, depth) + 1) by {
        SkipStep(s, b, j, depth, expanded, anc, expandNodes);
        ChildrenLevelCount(s, b, j + 1, depth, expanded, anc, expandNodes);
      }
    } else {
      var child := if j == |b.keys| then b.nextChild else b.keys[j].prevChild;
      ChildFits(s, b, j, depth, expanded, anc, expandNodes);
      var s1 := Visit(s, child, depth + 1, j, expanded, anc, expandNodes);
      var deepest := Deepest(child, depth + 1);
      assert DeepestChild(b, j, depth) == Max(deepest, DeepestChild(b, j + 1, depth));
      assert |s1.perLevel| == Max(|s.perLevel|, deepest + 1) by {
        VisitLevelCount(s, child, depth + 1, j, expanded, anc, expandNodes);
      }
      assert |VisitChildren(s, b, j, depth, expanded, anc, expandNodes).perLevel| ==
             Max(|s1.perLevel|, DeepestChild(b, j + 1, depth) + 1) by {
        DescendStep(s, s1, b, j, depth, expanded, anc, expandNodes);
        ChildrenLevelCount(s1, b, j + 1, depth, expanded, anc, expandNodes);
      }
    }
  }

  /**
   * The buckets one call adds to an existing branch entry (d, k): the whole
   * subtree when (d, k) is one of its expanded ancestors, the subtree without
   * the bucket itself when (d, k) is the bucket's own entry, nothing otherwise.
   */
  function Share(dl: Loc, d: int, k: int, childNum: int, parentIsExpanded: bool, anc: seq<int>): int {
    if dl.Null? then 0
    else if 0 <= d < |anc| then (if anc[d] == k then Count(dl) else 0)
    else if d == |anc| && parentIsExpanded && k == childNum then Count(dl) - 1
    else 0
  }

  /** Folding into the ancestors adds one bucket exactly to the entries the ancestors name. */
  lemma {:induction false} AddToAncestorsEntry(branch: seq<seq<AreaStats>>, anc: seq<int>, from: nat,
                                               keyCount: int, usedKeyCount: int, d: int, k: int)
    requires from <= |anc| && AncestorsInBranch(branch, anc)
    requires 0 <= d < |branch| && 0 <= k < |branch[d]|
    ensures AddToAncestors(branch, anc, from, keyCount, usedKeyCount)[d][k].numBuckets ==
            branch[d][k].numBuckets + (if from <= d < |anc| && anc[d] == k then 1 else 0)
    ensures AddToAncestors(branch, anc, from, keyCount, usedKeyCount)[d][k].nodeInfo == branch[d][k].nodeInfo
    decreases |anc| - from
  {
    if from < |anc| {
      var a := anc[from];
      var level := branch[from];
      var updated := branch[from := level[a := AddStats(level[a], keyCount, usedKeyCount)]];
      AncestorsInWider(branch, updated, anc);
      AddToAncestorsEntry(updated, anc, from + 1, keyCount, usedKeyCount, d, k);
    }
  }

  /**
   * Each call adds its Share to every branch entry that exists when it
   * starts: a bucket's statistics reach the entries of its expanded
   * ancestors, and an entry of the expanded branch collects exactly the
   * buckets strictly below its own.
   */
  lemma {:induction false} VisitBranchEntry(s: StatsState, dl: Loc, depth: nat, childNum: int, pie: bool,
                                            anc: seq<int>, expandNodes: seq<int>, d: int, k: int)
    requires CanVisit(s, depth, childNum, pie, anc, expandNodes)
    requires 0 <= d < |s.branch| && 0 <= k < |s.branch[d]|
    ensures Visit(s, dl, depth, childNum, pie, anc, expandNodes).branch[d][k].numBuckets ==
            s.branch[d][k].numBuckets + Share(dl, d, k, childNum, pie, anc)
    decreases dl, 0
  {
    match dl
    case Null =>
    case At(b) =>
      var expanded := pie && Expands(expandNodes, depth, childNum);
      var s1 := Enter(s, b, depth, expanded);
      var anc1 := Push(anc, pie, childNum);
      VisitAt(s, b, depth, childNum, pie, anc, expandNodes);
      var s2 := VisitChildren(s1, b, 0, depth, expanded, anc1, expandNodes);
      assert s2.branch[d][k].numBuckets ==
             s.branch[d][k].numBuckets + (if d < |anc1| && anc1[d] == k then CountChildren(b, 0) else 0) by {
        ChildrenBranchEntry(s1, b, 0, depth, expanded, anc1, expandNodes, d, k);
      }
      AddToAncestorsEntry(s2.branch, anc, 0, |b.keys|, CountUsed(b.keys), d, k);
  }

  lemma {:induction false} ChildrenBranchEntry(s: StatsState, b: Bucket, j: nat, depth: nat, expanded: bool,
                                               anc: seq<int>, expandNodes: seq<int>, d: int, k: int)
    requires CanVisitChildren(s, b, j, depth, expanded, anc, expandNodes)
    requires 0 <= d < |s.branch| && 0 <= k < |s.branch[d]|
    requires !(expanded && d == depth + 1 && j <= k)
    ensures VisitChildren(s, b, j, depth, expanded, anc, expandNodes).branch[d][k].numBuckets ==
            s.branch[d][k].numBuckets + (if d < |anc| && anc[d] == k then CountChildren(b, j) else 0)
    decreases b, |b.keys| + 1 - j, 1
  {
    if j > |b.keys| {
    } else if j < |b.keys| && !b.keys[j].used {
      SkipStep(s, b, j, depth, expanded, anc, expandNodes);
      ChildrenBranchEntry(s, b, j + 1, depth, expanded, anc, expandNodes, d, k);
    } else {
      DescendBranchEntry(s, b, j, depth, expanded, anc, expandNodes, d, k);
    }
  }

  /** The step of ChildrenBranchEntry that inspects the child at slot j. */
  lemma {:induction false} DescendBranchEntry(s: StatsState, b: Bucket, j: nat, depth: nat, expanded: bool,
                                              anc: seq<int>, expandNodes: seq<int>, d: int, k: int)
    requires CanVisitChildren(s, b, j, depth, expanded, anc, expandNodes)
    requires j == |b.keys| || (j < |b.keys| && b.keys[j].used)
    requires 0 <= d < |s.branch| && 0 <= k < |s.branch[d]|
    requires !(expanded && d == depth + 1 && j <= k)
    ensures VisitChildren(s, b, j, depth, expanded, anc, expandNodes).branch[d][k].numBuckets ==
            s.branch[d][k].numBuckets + (if d < |anc| && anc[d] == k then CountChildren(b, j) else 0)
    decreases b, |b.keys| + 1 - j, 0
  {
    var child := if j == |b.keys| then b.nextChild else b.keys[j].prevChild;
    ChildFits(s, b, j, depth, expanded, anc, expandNodes);
    var s1 := Visit(s, child, depth + 1, j, expanded, anc, expandNodes);
    var mine := if d < |anc| && anc[d] == k then Count(child) else 0;
    assert s1.branch[d][k].numBuckets == s.branch[d][k].numBuckets + mine by {
      SiblingShare(child, d, k, j, depth, expanded, anc);
      VisitBranchEntry(s, child, depth + 1, j, expanded, anc, expandNodes, d, k);
    }
    DescendStep(s, s1, b, j, depth, expanded, anc, expandNodes);
    ChildrenBranchEntry(s1, b, j + 1, depth, expanded, anc, expandNodes, d, k);
    assert CountChildren(b, j) == Count(child) + CountChildren(b, j + 1);
  }

  /** A child's call adds to an entry only when the entry is an expanded ancestor's, or the child's own. */
  lemma SiblingShare(child: Loc, d: int, k: int, j: int, depth: nat, expanded: bool, anc: seq<int>)
    requires 0 <= d && |anc| <= depth + 1 && (expanded ==> |anc| == depth + 1)
    requires !(expanded && d == depth + 1 && j <= k)
    ensures Share(child, d, k, j, expanded, anc) == (if d < |anc| && anc[d] == k then Count(child) else 0)
  {
  }

  /**
   * Each call leaves the nodeInfo of every branch entry that exists when it
   * starts, except its own entry, which then describes the bucket.
   */
  lemma {:induction false} VisitNodeInfo(s: StatsState, dl: Loc, depth: nat, childNum: int, pie: bool,
                                         anc: seq<int>, expandNodes: seq<int>, d: int, k: int)
    requires CanVisit(s, depth, childNum, pie, anc, expandNodes)
    requires 0 <= d < |s.branch| && 0 <= k < |s.branch[d]|
    ensures Visit(s, dl, depth, childNum, pie, anc, expandNodes).branch[d][k].nodeInfo ==
            if dl.At? && pie && d == depth && k == childNum then Some(NodeInfoOf(dl.bucket, childNum, depth))
            else s.branch[d][k].nodeInfo
    decreases dl, 0
  {
    match dl
    case Null =>
    case At(b) =>
      var expanded := pie && Expands(expandNodes, depth, childNum);
      var s1 := Enter(s, b, depth, expanded);
      var anc1 := Push(anc, pie, childNum);
      VisitAt(s, b, depth, childNum, pie, anc, expandNodes);
      var s2 := VisitChildren(s1, b, 0, depth, expanded, anc1, expandNodes);
      ChildrenNodeInfo(s1, b, 0, depth, expanded, anc1, expandNodes, d, k);
      AddToAncestorsEntry(s2.branch, anc, 0, |b.keys|, CountUsed(b.keys), d, k);
  }

  lemma {:induction false} ChildrenNodeInfo(s: StatsState, b: Bucket, j: nat, depth: nat, expanded: bool,
                                            anc: seq<int>, expandNodes: seq<int>, d: int, k: int)
    requires CanVisitChildren(s, b, j, depth, expanded, anc, expandNodes)
    requires 0 <= d < |s.branch| && 0 <= k < |s.branch[d]|
    requires !(expanded && d == depth + 1 && j <= k)
    ensures VisitChildren(s, b, j, depth, expanded, anc, expandNodes).branch[d][k].nodeInfo == s.branch[d][k].nodeInfo
    decreases b, |b.keys| + 1 - j
  {
    if j > |b.keys| {
    } else if j < |b.keys| && !b.keys[j].used {
      SkipStep(s, b, j, depth, expanded, anc, expandNodes);
      ChildrenNodeInfo(s, b, j + 1, depth, expanded, anc, expandNodes, d, k);
    } else {
      var child := if j == |b.keys| then b.nextChild else b.keys[j].prevChild;
      ChildFits(s, b, j, depth, expanded, anc, expandNodes);
      var s1 := Visit(s, child, depth + 1, j, expanded, anc, expandNodes);
      VisitNodeInfo(s, child, depth + 1, j, expanded, anc, expandNodes, d, k);
      DescendStep(s, s1, b, j, depth, expanded, anc, expandNodes);
      ChildrenNodeInfo(s1, b, j + 1, depth, expanded, anc, expandNodes, d, k);
    }
  }

  /** The child the walk inspects from slot k: the right child, the left child of a used slot, or none. */
  function Slot(b: Bucket, k: int): Loc
    requires 0 <= k <= |b.keys|
  {
    if k == |b.keys| then b.nextChild else if b.keys[k].used then b.keys[k].prevChild else Null
  }

  /**
   * The branch entry for slot k of an expanded bucket p, at the level below
   * p's: empty when no bucket is inspected from that slot; otherwise it
   * describes that child and counts the buckets strictly below it.
   */
  predicate DescribesSlot(a: AreaStats, p: Bucket, k: int, depth: int)
    requires 0 <= k <= |p.keys|
  {
    match Slot(p, k)
    case Null => a.nodeInfo == None && a.numBuckets == 0
    case At(c) => a.nodeInfo == Some(NodeInfoOf(c, k, depth)) && a.numBuckets == Count(At(c)) - 1
  }

  /** The children loop of an expanded bucket fills each entry of its fresh level from that slot's child. */
  lemma {:induction false} ChildrenNewLevel(s: StatsState, b: Bucket, j: nat, depth: nat, anc: seq<int>,
                                            expandNodes: seq<int>, k: int)
    requires CanVisitChildren(s, b, j, depth, true, anc, expandNodes)
    requires j <= k <= |b.keys|
    requires s.branch[depth + 1][k].nodeInfo == None && s.branch[depth + 1][k].numBuckets == 0
    ensures DescribesSlot(VisitChildren(s, b, j, depth, true, anc, expandNodes).branch[depth + 1][k], b, k, depth + 1)
    decreases |b.keys| + 1 - j
  {
    if j < |b.keys| && !b.keys[j].used {
      SkipStep(s, b, j, depth, true, anc, expandNodes);
      if j < k {
        ChildrenNewLevel(s, b, j + 1, depth, anc, expandNodes, k);
      } else {
        ChildrenBranchEntry(s, b, j + 1, depth, true, anc, expandNodes, depth + 1, k);
        ChildrenNodeInfo(s, b, j + 1, depth, true, anc, expandNodes, depth + 1, k);
      }
    } else {
      var child := if j == |b.keys| then b.nextChild else b.keys[j].prevChild;
      ChildFits(s, b, j, depth, true, anc, expandNodes);
      var s1 := Visit(s, child, depth + 1, j, true, anc, expandNodes);
      VisitBranchEntry(s, child, depth + 1, j, true, anc, expandNodes, depth + 1, k);
      VisitNodeInfo(s, child, depth + 1, j, true, anc, expandNodes, depth + 1, k);
      DescendStep(s, s1, b, j, depth, true, anc, expandNodes);
      if j < k {
        ChildrenNewLevel(s1, b, j + 1, depth, anc, expandNodes, k);
      } else {
        ChildrenBranchEntry(s1, b, j + 1, depth, true, anc, expandNodes, depth + 1, k);
        ChildrenNodeInfo(s1, b, j + 1, depth, true, anc, expandNodes, depth + 1, k);
      }
    }
  }

  /**
   * The call for an expanded bucket leaves the branch level below it with
   * one entry per slot, each describing the child inspected from that slot.
   */
  lemma ExpandedLevel(s: StatsState, b: Bucket, depth: nat, childNum: int, anc: seq<int>, expandNodes: seq<int>,
                      k: int)
    requires CanVisit(s, depth, childNum, true, anc, expandNodes) && Expands(expandNodes, depth, childNum)
    requires 0 <= k <= |b.keys|
    ensures var t := Visit(s, At(b), depth, childNum, true, anc, expandNodes);
            depth + 1 < |t.branch| && |t.branch[depth + 1]| == |b.keys| + 1 &&
            DescribesSlot(t.branch[depth + 1][k], b, k, depth + 1)
  {
    var s1 := Enter(s, b, depth, true);
    var anc1 := Push(anc, true, childNum);
    VisitAt(s, b, depth, childNum, true, anc, expandNodes);
    assert s1.branch[depth + 1] == EmptyLevel(|b.keys| + 1);
    ChildrenNewLevel(s1, b, 0, depth, anc1, expandNodes, k);
    var s2 := VisitChildren(s1, b, 0, depth, true, anc1, expandNodes);
    AddToAncestorsEntry(s2.branch, anc, 0, |b.keys|, CountUsed(b.keys), depth + 1, k);
  }

  /**
   * The bucket the walk expands at depth d, given that it expands b at
   * `depth`: each next one is the child inspected from the slot that
   * expandNodes names for its depth. None once that slot is out of range,
   * unused or empty, since the walk then expands nothing deeper.
   */
  function PathBucket(b: Bucket, depth: nat, expandNodes: seq<int>, d: nat): Option<Bucket>
    requires depth <= d
    decreases d - depth
  {
    if d == depth then Some(b)
    else if depth + 1 < |expandNodes| && 0 <= expandNodes[depth + 1] <= |b.keys| &&
            Slot(b, expandNodes[depth + 1]).At? then
      PathBucket(Slot(b, expandNodes[depth + 1]).bucket, depth + 1, expandNodes, d)
    else None
  }

  /**
   * The call for an expanded bucket b fills, for every bucket p it expands
   * at some depth d, the branch level d + 1 with one entry per slot of p,
   * each describing the child inspected from that slot.
   */
  lemma {:induction false} VisitPathLevel(s: StatsState, b: Bucket, depth: nat, childNum: int, anc: seq<int>,
                                          expandNodes: seq<int>, d: nat, k: int)
    requires CanVisit(s, depth, childNum, true, anc, expandNodes) && Expands(expandNodes, depth, childNum)
    requires depth <= d && PathBucket(b, depth, expandNodes, d).Some?
    requires 0 <= k <= |PathBucket(b, depth, expandNodes, d).value.keys|
    ensures var t := Visit(s, At(b), depth, childNum, true, anc, expandNodes);
            var p := PathBucket(b, depth, expandNodes, d).value;
            d + 1 < |t.branch| && |t.branch[d + 1]| == |p.keys| + 1 && DescribesSlot(t.branch[d + 1][k], p, k, d + 1)
    decreases b, |b.keys| + 2
  {
    if d == depth {
      ExpandedLevel(s, b, depth, childNum, anc, expandNodes, k);
    } else {
      var s1 := Enter(s, b, depth, true);
      var anc1 := Push(anc, true, childNum);
      VisitAt(s, b, depth, childNum, true, anc, expandNodes);
      ChildrenPathLevel(s1, b, 0, depth, anc1, expandNodes, d, k);
      var s2 := VisitChildren(s1, b, 0, depth, true, anc1, expandNodes);
      LeaveKeepsDeeper(s2, b, depth, childNum, true, anc, d + 1);
    }
  }

  /** Leaving a bucket changes no branch level below its own and its ancestors'. */
  lemma LeaveKeepsDeeper(s: StatsState, b: Bucket, depth: nat, childNum: int, pie: bool, anc: seq<int>, d: nat)
    requires AncestorsInBranch(s.branch, anc)
    requires pie ==> depth < |s.branch| && 0 <= childNum < |s.branch[depth]|
    requires depth < d < |s.branch| && |anc| <= d
    ensures Leave(s, b, depth, childNum, pie, anc).branch[d] == s.branch[d]
  {
    AddToAncestorsDeeper(s.branch, anc, 0, |b.keys|, CountUsed(b.keys), d);
  }

  /** Folding into the ancestors leaves every level from the ancestors' count on as it was. */
  lemma {:induction false} AddToAncestorsDeeper(branch: seq<seq<AreaStats>>, anc: seq<int>, from: nat,
                                                keyCount: int, usedKeyCount: int, d: nat)
    requires from <= |anc| && AncestorsInBranch(branch, anc)
    requires |anc| <= d < |branch|
    ensures AddToAncestors(branch, anc, from, keyCount, usedKeyCount)[d] == branch[d]
    decreases |anc| - from
  {
    if from < |anc| {
      var a := anc[from];
      var level := branch[from];
      var updated := branch[from := level[a := AddStats(level[a], keyCount, usedKeyCount)]];
      AncestorsInWider(branch, updated, anc);
      AddToAncestorsDeeper(updated, anc, from + 1, keyCount, usedKeyCount, d);
    }
  }

  lemma {:induction false} ChildrenPathLevel(s: StatsState, b: Bucket, j: nat, depth: nat, anc: seq<int>,
                                             expandNodes: seq<int>, d: nat, k: int)
    requires CanVisitChildren(s, b, j, depth, true, anc, expandNodes)
    requires depth + 1 < |expandNodes| && j <= expandNodes[depth + 1] <= |b.keys|
    requires Slot(b, expandNodes[depth + 1]).At?
    requires depth + 1 <= d && PathBucket(Slot(b, expandNodes[depth + 1]).bucket, depth + 1, expandNodes, d).Some?
    requires 0 <= k <= |PathBucket(Slot(b, expandNodes[depth + 1]).bucket, depth + 1, expandNodes, d).value.keys|
    ensures var t := VisitChildren(s, b, j, depth, true, anc, expandNodes);
            var p := PathBucket(Slot(b, expandNodes[depth + 1]).bucket, depth + 1, expandNodes, d).value;
            d + 1 < |t.branch| && |t.branch[d + 1]| == |p.keys| + 1 && DescribesSlot(t.branch[d + 1][k], p, k, d + 1)
    decreases b, |b.keys| + 1 - j
  {
    var e := expandNodes[depth + 1];
    if j < |b.keys| && !b.keys[j].used {
      SkipStep(s, b, j, depth, true, anc, expandNodes);
      ChildrenPathLevel(s, b, j + 1, depth, anc, expandNodes, d, k);
    } else {
      var child := if j == |b.keys| then b.nextChild else b.keys[j].prevChild;
      ChildFits(s, b, j, depth, true, anc, expandNodes);
      var s1 := Visit(s, child, depth + 1, j, true, anc, expandNodes);
      DescendStep(s, s1, b, j, depth, true, anc, expandNodes);
      if j < e {
        ChildrenPathLevel(s1, b, j + 1, depth, anc, expandNodes, d, k);
      } else {
        VisitPathLevel(s, child.bucket, depth + 1, j, anc, expandNodes, d, k);
        ChildrenBranchEntry(s1, b, j + 1, depth, true, anc, expandNodes, d + 1, k);
        ChildrenNodeInfo(s1, b, j + 1, depth, true, anc, expandNodes, d + 1, k);
      }
    }
  }

  /** The root's call: depth 0, child number 0, counted as the child of an expanded node, no ancestors. */
  function Inspect(root: Loc, expandNodes: seq<int>): StatsState {
    Visit(InitialStats, root, 0, 0, true, [], expandNodes)
  }

  /**
   * After inspecting a non-empty tree, the whole tree and the levels both
   * count every inspected bucket, the depth is the deepest bucket's, and
   * there is one level per depth.
   */
  lemma InspectTotals(root: Loc, expandNodes: seq<int>)
    requires root.At?
    ensures Inspect(root, expandNodes).wholeTree.numBuckets == Count(root)
    ensures SumBuckets(Inspect(root, expandNodes).perLevel) == Count(root)
    ensures Inspect(root, expandNodes).depth == Deepest(root, 0)
    ensures |Inspect(root, expandNodes).perLevel| == Inspect(root, expandNodes).depth + 1
  {
    VisitWholeTreeBuckets(InitialStats, root, 0, 0, true, [], expandNodes);
    VisitLevels(InitialStats, root, 0, 0, true, [], expandNodes);
    VisitDepth(InitialStats, root, 0, 0, true, [], expandNodes);
    VisitLevelCount(InitialStats, root, 0, 0, true, [], expandNodes);
  }

  /**
   * The root's entry of the branch table describes the root and counts
   * every inspected bucket except the root itself.
   */
  lemma InspectRootEntry(b: Bucket, expandNodes: seq<int>)
    ensures |Inspect(At(b), expandNodes).branch| >= 1 && |Inspect(At(b), expandNodes).branch[0]| == 1
    ensures Inspect(At(b), expandNodes).branch[0][0].numBuckets == Count(At(b)) - 1
    ensures Inspect(At(b), expandNodes).branch[0][0].nodeInfo == Some(NodeInfoOf(b, 0, 0))
  {
    VisitBranchEntry(InitialStats, At(b), 0, 0, true, [], expandNodes, 0, 0);
  }

  /**
   * Along the expansion path: for every bucket the inspection expands, at
   * depth d, the branch table's level d + 1 has one entry per slot of that
   * bucket, describing the child inspected from the slot and counting the
   * buckets strictly below it.
   */
  lemma InspectBranchLevel(b: Bucket, expandNodes: seq<int>, d: nat, k: int)
    requires Expands(expandNodes, 0, 0) && PathBucket(b, 0, expandNodes, d).Some?
    requires 0 <= k <= |PathBucket(b, 0, expandNodes, d).value.keys|
    ensures var t := Inspect(At(b), expandNodes);
            var p := PathBucket(b, 0, expandNodes, d).value;
            d + 1 < |t.branch| && |t.branch[d + 1]| == |p.keys| + 1 && DescribesSlot(t.branch[d + 1][k], p, k, d + 1)
  {
    VisitPathLevel(InitialStats, b, 0, 0, [], expandNodes, d, k);
  }

  /** Inspecting an empty tree changes nothing. */
  lemma InspectEmpty(expandNodes: seq<int>)
    ensures Inspect(Null, expandNodes) == InitialStats
  {
  }

  /**
   * Without nodes to expand the branch table keeps its single level with
   * the root's single entry, so no expanded nodes are reported.
   */
  lemma NoExpansionKeepsRootOnly(root: Loc)
    ensures |Inspect(root, []).branch| == 1 && |Inspect(root, []).branch[0]| == 1
  {
  }
}
