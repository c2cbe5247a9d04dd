/** Compaction of a long log by a binary tree of blocks, one task per inner block. */
module ParallelCompaction {
  import opened Arithmetic
  import opened PutRule
  import opened Operations
  import opened Compaction

  class Block {
    const firstPhase: bool
    const operationsFirstPhase: seq<Write>
    var left: Block?
    var right: Block?

    constructor Node()
      ensures !firstPhase && operationsFirstPhase == []
    {
      firstPhase, operationsFirstPhase, left, right := false, [], null, null;
    }

    /** A block holding the `numberBlock`-th share of the log; the last share takes what is left over. */
    constructor Leaf(uncompacted: seq<Write>, numberBlock: nat, totalBlocks: nat)
      requires numberBlock < totalBlocks
      ensures firstPhase && operationsFirstPhase == Share(uncompacted, numberBlock, totalBlocks)
    {
      ShareBounds(uncompacted, numberBlock, totalBlocks);
      var logsPerBlock := |uncompacted| / totalBlocks;
      var begin := logsPerBlock * numberBlock;
      var end := if numberBlock + 1 != totalBlocks then logsPerBlock * (numberBlock + 1) else |uncompacted|;
      firstPhase, operationsFirstPhase, left, right := true, uncompacted[begin..end], null, null;
    }
  }

  /** Where the shares of a log cut into `total` parts begin and end. */
  function Cut(n: nat, i: nat, total: nat): nat
    requires total > 0
  {
    if i >= total then n else (n / total) * i
  }

  lemma CutGrows(n: nat, i: nat, j: nat, total: nat)
    requires total > 0 && i <= j
    ensures Cut(n, i, total) <= Cut(n, j, total) <= n
  {
    var per := n / total;
    assert n == per * total + n % total;
    if j < total {
      ProductGrows(per, i, j);
      ProductGrows(per, j, total);
    } else if i < total {
      ProductGrows(per, i, total);
    }
  }

  lemma ShareBounds(log: seq<Write>, i: nat, total: nat)
    requires i < total
    ensures Cut(|log|, i, total) <= Cut(|log|, i + 1, total) <= |log|
  {
    CutGrows(|log|, i, i + 1, total);
  }

  function Share(log: seq<Write>, i: nat, total: nat): seq<Write>
    requires i < total
  {
    ShareBounds(log, i, total);
    log[Cut(|log|, i, total)..Cut(|log|, i + 1, total)]
  }

  /** The rounded-down binary logarithm. */
  function Log2(n: nat): nat
    requires n > 0
  {
    if n == 1 then 0 else 1 + Log2(n / 2)
  }

  /** The tree has as many levels as the number of threads has binary digits, and one more. */
  lemma {:induction false} Log2Bounds(n: nat)
    requires n > 0
    ensures Pow2(Log2(n)) <= n < 2 * Pow2(Log2(n))
  {
    if n == 1 {
    } else {
      Log2Bounds(n / 2);
    }
  }

  type Phases = seq<seq<Block>>

  /** Phase p holds 2^p blocks, all different; the last phase holds the shares of the log in order. */
  ghost predicate Laid(phases: Phases, log: seq<Write>) {
    |phases| >= 2 &&
    (forall p :: 0 <= p < |phases| ==> |phases[p]| == Pow2(p)) &&
    (forall p, j :: 0 <= p < |phases| && 0 <= j < |phases[p]| ==>
       phases[p][j].firstPhase == (p + 1 == |phases|) &&
       (p + 1 == |phases| ==> phases[p][j].operationsFirstPhase == Share(log, j, Pow2(p))))
  }

  ghost predicate AllDifferent(phases: Phases) {
    forall p, j, q, i ::
      (0 <= p < |phases| && 0 <= j < |phases[p]| && 0 <= q < |phases| && 0 <= i < |phases[q]| && (p != q || j != i)
       ==> phases[p][j] != phases[q][i])
  }

  /** The block's children are the two blocks below it. */
  ghost predicate LinkedAt(phases: Phases, p: nat, j: nat)
    requires p + 1 < |phases| && j < |phases[p]| && 2 * j + 1 < |phases[p + 1]|
    reads phases[p][j]
  {
    phases[p][j].left == phases[p + 1][2 * j] && phases[p][j].right == phases[p + 1][2 * j + 1]
  }

  method CreatePhase(uncompacted: seq<Write>, total: nat, lastPhase: bool) returns (row: seq<Block>)
    ensures |row| == total
    ensures forall j :: 0 <= j < total ==>
              fresh(row[j]) && row[j].firstPhase == lastPhase &&
              (lastPhase ==> row[j].operationsFirstPhase == Share(uncompacted, j, total))
    ensures forall j, k :: 0 <= j < total && 0 <= k < total && j != k ==> row[j] != row[k]
  {
    row := [];
    for i := 0 to total
      invariant |row| == i
      invariant forall j :: 0 <= j < i ==>
        fresh(row[j]) && row[j].firstPhase == lastPhase &&
        (lastPhase ==> row[j].operationsFirstPhase == Share(uncompacted, j, total))
      invariant forall j, k :: 0 <= j < i && 0 <= k < i && j != k ==> row[j] != row[k]
    {
      var block: Block;
      if lastPhase {
        block := new Block.Leaf(uncompacted, i, total);
      } else {
        block := new Block.Node();
      }
      row := row + [block];
    }
  }

  method CreateBlocksByPhase(uncompacted: seq<Write>, height: nat) returns (phases: Phases)
    requires height >= 2
    ensures Laid(phases, uncompacted) && |phases| == height && AllDifferent(phases)
    ensures forall p, j :: 0 <= p < |phases| && 0 <= j < |phases[p]| ==> fresh(phases[p][j])
  {
    phases := [];
    for actualPhase := 0 to height
      invariant |phases| == actualPhase
      invariant forall p :: 0 <= p < actualPhase ==> |phases[p]| == Pow2(p)
      invariant forall p, j :: 0 <= p < actualPhase && 0 <= j < |phases[p]| ==>
        fresh(phases[p][j]) && phases[p][j].firstPhase == (p + 1 == height) &&
        (p + 1 == height ==> phases[p][j].operationsFirstPhase == Share(uncompacted, j, Pow2(p)))
      invariant AllDifferent(phases)
    {
      var row := CreatePhase(uncompacted, Pow2(actualPhase), actualPhase + 1 == height);
      phases := phases + [row];
    }
  }

  /** Every block above the last phase has its children below it. */
  ghost predicate Linked(phases: Phases, log: seq<Write>)
    requires Laid(phases, log)
    reads set p, j | 0 <= p < |phases| && 0 <= j < |phases[p]| :: phases[p][j]
  {
    forall p, j :: 0 <= p < |phases| - 1 && 0 <= j < |phases[p]| ==> LinkedAt(phases, p, j)
  }

  method FillTreeChilds(phases: Phases, ghost log: seq<Write>)
    requires Laid(phases, log) && AllDifferent(phases)
    modifies set p, j | 0 <= p < |phases| && 0 <= j < |phases[p]| :: phases[p][j]
    ensures Linked(phases, log)
  {
    for phase := 0 to |phases| - 1
      invariant forall p, j :: 0 <= p < phase && 0 <= j < |phases[p]| ==> LinkedAt(phases, p, j)
    {
      for i := 0 to |phases[phase]|
        invariant forall p, j :: 0 <= p < phase && 0 <= j < |phases[p]| ==> LinkedAt(phases, p, j)
        invariant forall j :: 0 <= j < i ==> LinkedAt(phases, phase, j)
      {
        phases[phase][i].left := phases[phase + 1][i * 2];
        phases[phase][i].right := phases[phase + 1][i * 2 + 1];
      }
    }
  }

  /** The log as the leaves below a block hold it, from left to right. */
  ghost function InOrder(phases: Phases, log: seq<Write>, p: nat, j: nat): seq<Write>
    requires Laid(phases, log) && p < |phases| && j < |phases[p]|
    decreases |phases| - p
  {
    if p + 1 == |phases| then phases[p][j].operationsFirstPhase
    else InOrder(phases, log, p + 1, 2 * j) + InOrder(phases, log, p + 1, 2 * j + 1)
  }

  lemma HalfSteps(j: nat, half: nat)
    ensures 2 * j * half == j * (2 * half) && (2 * j + 1) * half == j * (2 * half) + half
  {}

  /** The leaves below a block are consecutive, and hold one stretch of the log. */
  lemma {:induction false} InOrderIsStretch(phases: Phases, log: seq<Write>, p: nat, j: nat, low: nat, width: nat)
    requires Laid(phases, log) && p < |phases| && j < |phases[p]| && width == Pow2(|phases| - 1 - p) && low == j * width
    ensures Cut(|log|, low, Pow2(|phases| - 1)) <= Cut(|log|, low + width, Pow2(|phases| - 1)) <= |log|
    ensures InOrder(phases, log, p, j) ==
            log[Cut(|log|, low, Pow2(|phases| - 1))..Cut(|log|, low + width, Pow2(|phases| - 1))]
    decreases |phases| - p
  {
    CutGrows(|log|, low, low + width, Pow2(|phases| - 1));
    if p + 1 < |phases| {
      var half := Pow2(|phases| - 2 - p);
      assert |phases[p + 1]| == 2 * |phases[p]|;
      HalfSteps(j, half);
      InOrderIsStretch(phases, log, p + 1, 2 * j, low, half);
      InOrderIsStretch(phases, log, p + 1, 2 * j + 1, low + half, half);
      Joined(log, Cut(|log|, low, Pow2(|phases| - 1)), Cut(|log|, low + half, Pow2(|phases| - 1)),
             Cut(|log|, low + width, Pow2(|phases| - 1)));
    } else {
      assert low == j;
    }
  }

  lemma Joined(log: seq<Write>, a: nat, b: nat, c: nat)
    requires a <= b <= c <= |log|
    ensures log[a..b] + log[b..c] == log[a..c]
  {}

  /** The leaves partition the log in order, and the links keep that order. */
  lemma RootHoldsLog(phases: Phases, log: seq<Write>)
    requires Laid(phases, log)
    ensures InOrder(phases, log, 0, 0) == log
  {
    InOrderIsStretch(phases, log, 0, 0, 0, Pow2(|phases| - 1));
  }

  /** What a block hands up for one name, given what the leaves below it hold: some of those operations, and the
      last of them if it is the newest. */
  predicate Faithful(all: seq<Write>, out: seq<Write>) {
    (forall x :: x in out ==> x in all) && (all != [] ==> out != []) &&
    (LastIsNewest(all) && all != [] ==> Last(out) == Last(all))
  }

  /** What an inner block hands up for one name: that, and nothing else. */
  predicate Decided(all: seq<Write>, out: seq<Write>) {
    (forall x :: x in out ==> x in all) && (all != [] ==> out != []) &&
    (LastIsNewest(all) ==> out == if all == [] then [] else [Last(all)])
  }

  /** The merge of one name: newer operations first, then older ones. */
  function Merged(left: seq<Write>, right: seq<Write>): seq<Write> {
    One(Survivor(right, None)) + One(Survivor(left, SeenAfter(right, None)))
  }

  function Shares(log: seq<Write>, total: nat): (shares: seq<seq<Write>>)
    ensures |shares| == total && forall j :: 0 <= j < total ==> shares[j] == Share(log, j, total)
  {
    seq(total, j requires 0 <= j < total => Share(log, j, total))
  }

  /** What the tree keeps for one name, below the j-th block of a phase. */
  function TreeKept(shares: seq<seq<Write>>, height: nat, p: nat, j: nat, name: Bytes): seq<Write>
    requires p < height && j < Pow2(p) && |shares| == Pow2(height - 1)
    decreases height - p
  {
    if p + 1 == height then OfName(shares[j], name)
    else Merged(TreeKept(shares, height, p + 1, 2 * j, name), TreeKept(shares, height, p + 1, 2 * j + 1, name))
  }

  /** What the whole tree keeps for one name. */
  function RootKept(log: seq<Write>, threads: nat, name: Bytes): seq<Write>
    requires threads > 0
  {
    var height := Log2(threads) + 2;
    TreeKept(Shares(log, Pow2(height - 1)), height, 0, 0, name)
  }

  lemma SharesIn(log: seq<Write>, total: nat)
    ensures forall i :: 0 <= i < total ==> AllIn(Shares(log, total)[i], log)
  {
    forall i | 0 <= i < total ensures AllIn(Shares(log, total)[i], log) {
      ShareBounds(log, i, total);
      SliceIn(log, Cut(|log|, i, total), Cut(|log|, i + 1, total));
    }
  }

  lemma SliceIn(log: seq<Write>, a: nat, b: nat)
    requires a <= b <= |log|
    ensures AllIn(log[a..b], log)
  {}

  predicate AllIn(ops: seq<Write>, log: seq<Write>) {
    forall i :: 0 <= i < |ops| ==> ops[i] in log
  }

  lemma MergedIn(left: seq<Write>, right: seq<Write>, log: seq<Write>)
    requires AllIn(left, log) && AllIn(right, log)
    ensures AllIn(Merged(left, right), log)
  {
    var all := Merged(left, right);
    forall i | 0 <= i < |all| ensures all[i] in log {
      MergedWithin(left, right, all[i]);
    }
  }

  lemma NamedIn(ops: seq<Write>, name: Bytes, log: seq<Write>)
    requires AllIn(ops, log)
    ensures AllIn(OfName(ops, name), log)
  {
    WhereWithin(ops, Name, name);
    forall i | 0 <= i < |OfName(ops, name)| ensures OfName(ops, name)[i] in log {
      assert OfName(ops, name)[i] in OfName(ops, name);
    }
  }

  lemma {:induction false} TreeKeptIn(shares: seq<seq<Write>>, height: nat, p: nat, j: nat, name: Bytes, log: seq<Write>)
    requires p < height && j < Pow2(p) && |shares| == Pow2(height - 1)
    requires forall i :: 0 <= i < |shares| ==> AllIn(shares[i], log)
    ensures AllIn(TreeKept(shares, height, p, j, name), log)
    decreases height - p
  {
    if p + 1 == height {
      NamedIn(shares[j], name, log);
    } else {
      TreeKeptIn(shares, height, p + 1, 2 * j, name, log);
      TreeKeptIn(shares, height, p + 1, 2 * j + 1, name, log);
      MergedIn(TreeKept(shares, height, p + 1, 2 * j, name), TreeKept(shares, height, p + 1, 2 * j + 1, name), log);
    }
  }

  lemma RootKeptIn(log: seq<Write>, threads: nat, name: Bytes)
    requires threads > 0
    ensures AllIn(RootKept(log, threads, name), log)
  {
    var total := Pow2(Log2(threads) + 1);
    SharesIn(log, total);
    TreeKeptIn(Shares(log, total), Log2(threads) + 2, 0, 0, name, log);
  }

  lemma SurvivorWithin(ops: seq<Write>, seen: Option<nat>)
    ensures Survivor(ops, seen).Some? ==> Survivor(ops, seen).value in ops
  {
    if seen.Some? {
      NoneAbove(ops, seen.value);
    } else if ops != [] {
      SurvivorIsLast(ops);
    }
  }

  lemma EmptyWithin(out: seq<Write>)
    requires forall x :: x in out ==> x in []
    ensures out == []
  {
    assert multiset(out) == multiset{} by {
      assert forall x :: x in multiset(out) ==> x in out;
    }
    assert |multiset(out)| == 0;
  }

  lemma MergedWithin(left: seq<Write>, right: seq<Write>, x: Write)
    requires x in Merged(left, right)
    ensures x in left || x in right
  {
    SurvivorWithin(right, None);
    SurvivorWithin(left, SeenAfter(right, None));
  }

  lemma NewestWithin(all: seq<Write>, out: seq<Write>)
    requires Faithful(all, out) && LastIsNewest(all) && all != []
    ensures out != [] && LastIsNewest(out) && Last(out) == Last(all)
  {
    forall i | 0 <= i < |out| ensures out[i].timestamp <= Last(out).timestamp {
      assert out[i] in all;
    }
  }

  /** Merging keeps faith: the last of the right part is kept, or of the left part when the right is empty. */
  lemma MergedDecides(leftAll: seq<Write>, rightAll: seq<Write>, left: seq<Write>, right: seq<Write>)
    requires Faithful(leftAll, left) && Faithful(rightAll, right)
    ensures Decided(leftAll + rightAll, Merged(left, right))
  {
    var all := leftAll + rightAll;
    forall x | x in Merged(left, right) ensures x in all {
      MergedWithin(left, right, x);
    }
    if right != [] {
      SurvivorIsLast(right);
    } else if left != [] {
      SurvivorIsLast(left);
    }
    if LastIsNewest(all) && all == [] {
      EmptyWithin(Merged(left, right));
    } else if LastIsNewest(all) {
      if rightAll != [] {
        RightDecides(leftAll, rightAll, left, right);
      } else {
        assert all == leftAll;
        EmptyWithin(right);
        NewestWithin(leftAll, left);
        SurvivorIsLast(left);
      }
    }
  }

  lemma NewestOfBoth(a: seq<Write>, b: seq<Write>)
    requires b != [] && LastIsNewest(a + b)
    ensures LastIsNewest(b) && Last(b) == Last(a + b) && forall x :: x in a ==> x.timestamp <= Last(b).timestamp
  {
    var all := a + b;
    assert all[|all| - 1] == b[|b| - 1];
    forall i | 0 <= i < |b| ensures b[i].timestamp <= Last(b).timestamp {
      assert b[i] == all[|a| + i];
    }
    forall i | 0 <= i < |a| ensures a[i].timestamp <= Last(b).timestamp {
      assert a[i] == all[i];
    }
  }

  lemma RightDecides(leftAll: seq<Write>, rightAll: seq<Write>, left: seq<Write>, right: seq<Write>)
    requires Faithful(leftAll, left) && Faithful(rightAll, right) && rightAll != [] && LastIsNewest(leftAll + rightAll)
    ensures Merged(left, right) == [Last(leftAll + rightAll)]
  {
    NewestOfBoth(leftAll, rightAll);
    NewestWithin(rightAll, right);
    SurvivorIsLast(right);
    forall i | 0 <= i < |left| ensures left[i].timestamp <= Last(right).timestamp {
      assert left[i] in leftAll;
    }
    NoneAbove(left, Last(right).timestamp);
  }

  /** The task of an inner block. */
  method MergeAndCompact(left: seq<Write>, right: seq<Write>) returns (compacted: seq<Write>)
    ensures forall k :: OfName(compacted, k) == Merged(OfName(left, k), OfName(right, k))
  {
    var timestampsByKeys: Timestamps := map[];
    compacted, timestampsByKeys := Compact(right, [], timestampsByKeys);
    compacted, timestampsByKeys := Compact(left, compacted, timestampsByKeys);
  }

  /** Runs the tree below a block; the ghosts say which block it is and what its leaves hold. */
  method Get(block: Block, ghost phases: Phases, ghost log: seq<Write>, ghost p: nat, ghost j: nat)
    returns (out: seq<Write>)
    requires Laid(phases, log) && Linked(phases, log)
    requires p < |phases| && j < |phases[p]| && phases[p][j] == block
    ensures forall k :: OfName(out, k) == TreeKept(Shares(log, Pow2(|phases| - 1)), |phases|, p, j, k)
    ensures forall k :: Faithful(OfName(InOrder(phases, log, p, j), k), OfName(out, k))
    ensures p + 1 < |phases| ==> forall k :: Decided(OfName(InOrder(phases, log, p, j), k), OfName(out, k))
    decreases |phases| - p
  {
    if block.firstPhase {
      return block.operationsFirstPhase;
    }
    assert LinkedAt(phases, p, j);
    var left := Get(block.left, phases, log, p + 1, 2 * j);
    var right := Get(block.right, phases, log, p + 1, 2 * j + 1);
    out := MergeAndCompact(left, right);
    ghost var l, r := InOrder(phases, log, p + 1, 2 * j), InOrder(phases, log, p + 1, 2 * j + 1);
    forall k ensures Decided(OfName(l + r, k), OfName(out, k)) {
      WhereAppend(l, r, Name, k);
      MergedDecides(OfName(l, k), OfName(r, k), OfName(left, k), OfName(right, k));
    }
  }

  /** Builds a tree of a height over a log and runs it. */
  method RunTree(log: seq<Write>, height: nat) returns (out: seq<Write>)
    requires height >= 2
    ensures forall k :: OfName(out, k) == TreeKept(Shares(log, Pow2(height - 1)), height, 0, 0, k)
    ensures forall k :: Decided(OfName(log, k), OfName(out, k))
  {
    var phases := CreateBlocksByPhase(log, height);
    FillTreeChilds(phases, log);
    out := RunRoot(phases, log);
  }

  method RunRoot(phases: Phases, ghost log: seq<Write>) returns (out: seq<Write>)
    requires Laid(phases, log) && Linked(phases, log) && |phases| >= 2
    ensures forall k :: OfName(out, k) == TreeKept(Shares(log, Pow2(|phases| - 1)), |phases|, 0, 0, k)
    ensures forall k :: Decided(OfName(log, k), OfName(out, k))
  {
    out := Get(phases[0][0], phases, log, 0, 0);
    RootHoldsLog(phases, log);
  }

  lemma DecidedKeepsLasts(log: seq<Write>, out: seq<Write>)
    requires LastNamesAreNewest(log) && forall k :: Decided(OfName(log, k), OfName(out, k))
    ensures KeepsLastNames(log, out)
  {
    forall k ensures OfName(out, k) == if OfName(log, k) == [] then [] else [Last(OfName(log, k))] {
      assert Decided(OfName(log, k), OfName(out, k)) && LastIsNewest(OfName(log, k));
    }
  }

  /** The parallel compaction of a log, for any number of hardware threads. */
  method CompactInParallel(log: seq<Write>, threads: nat) returns (out: seq<Write>)
    requires threads > 0
    ensures forall k :: OfName(out, k) == RootKept(log, threads, k)
    ensures forall k :: Decided(OfName(log, k), OfName(out, k))
    ensures LastNamesAreNewest(log) ==> KeepsLastNames(log, out)
  {
    out := RunTree(log, Log2(threads) + 2);
    if LastNamesAreNewest(log) {
      DecidedKeepsLasts(log, out);
    }
  }

  lemma SurvivorDecides(ops: seq<Write>)
    ensures Decided(ops, One(Survivor(ops, None)))
  {
    if ops != [] {
      SurvivorIsLast(ops);
    }
  }

  /** Long logs go to the tree, short ones to one pass. */
  method CompactAny(log: seq<Write>, threads: nat) returns (out: seq<Write>)
    requires threads > 0
    ensures forall k :: Decided(OfName(log, k), OfName(out, k))
    ensures if |log| <= 10 then KeepsSurvivors(log, out)
            else forall k :: OfName(out, k) == RootKept(log, threads, k)
  {
    if |log| > 10 {
      out := CompactInParallel(log, threads);
    } else {
      out := CompactLog(log);
      forall k ensures Decided(OfName(log, k), OfName(out, k)) {
        SurvivorDecides(OfName(log, k));
      }
    }
  }
}
