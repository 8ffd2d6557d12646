/**
 Class `SumHeap`: the up-sweep run by the constructor, `sum`, and the
 down-sweep run by `prefixSums`. Both source files implement the same design
 and differ in their leaf test, fork threshold, starting level and the way a
 forked call is joined; each is one `Variant` here. A forked call
 (`std::async` on the left child, the right child inline, then a join) is
 modelled as running the right child to completion before the left one: the
 two write disjoint slots and read only `data` and `interior`, so every
 interleaving leaves the same buffer. The unforked branch runs left before
 right, and an exception in the left child skips the right one.
 */
module Sweeps {
  import opened Heaper
  import opened Subtree

  /** `PARALLEL_LEVELS` of hw2-1. */
  const ParallelLevels := 4
  /** `SumHeap::N_THREADS` of hw2-2. */
  const NThreads := 8

  /** When a call at a given recursion level forks its left child. */
  datatype ForkRule =
    | Below(limit: int)   // `level < limit`
    | AtMost(limit: int)  // `level <= limit`

  /** The first recursion level that runs its children inline. */
  function ForkDepth(rule: ForkRule): int {
    match rule
    case Below(limit) => limit
    case AtMost(limit) => limit + 1
  }

  function Forks(rule: ForkRule, level: int): bool {
    match rule
    case Below(limit) => level < limit
    case AtMost(limit) => level <= limit
  }

  /** A call forks exactly on the levels above `ForkDepth`: once a level runs
      inline every deeper one does, which is what bounds the number of threads. */
  lemma DeeperLevelsRunInline(rule: ForkRule, level: int, deeper: int)
    requires level <= deeper
    ensures Forks(rule, level) <==> level < ForkDepth(rule)
    ensures !Forks(rule, level) ==> !Forks(rule, deeper)
  {
  }

  datatype LeafTest = ByIndex | ByRightChild

  /** How a forked call waits for its left child: `get()` rethrows an
      exception the child ended with, `wait()` drops it. */
  datatype Join = Get | Wait

  datatype Variant = Variant(leafTest: LeafTest, fork: ForkRule, rootLevel: int, join: Join)

  /** hw2-1: leaf when `right(i) >= size()`, fork when `level < PARALLEL_LEVELS`,
      start at level 0, join with `wait()`. */
  const LevelsVariant := Variant(ByRightChild, Below(ParallelLevels), 0, Wait)
  /** hw2-2: leaf when `i >= n - 1`, fork when `level <= N_THREADS / 2`,
      start at level 1, join with `get()`. */
  const ThreadsVariant := Variant(ByIndex, AtMost(NThreads / 2), 1, Get)

  /** The leaf test a variant uses; every variant classifies every node alike. */
  function LeafIn(v: Variant, n: int, i: int): (r: bool)
    ensures r <==> IsLeaf(n, i)
  {
    match v.leafTest
    case ByIndex => IsLeaf(n, i)
    case ByRightChild => IsLeafByRight(n, i)
  }

  /** Every interior slot holds the sum of its node's subtree. */
  ghost predicate Summed(h: SumHeap)
    requires h.Valid()
  {
    forall j :: 0 <= j < |h.interior| ==> h.interior[j] == SubtreeSum(h.data, j)
  }

  /** The heap invariant as the source states it: every interior slot holds
      `value(left(i)) + value(right(i))`. */
  ghost predicate PairSummed(h: SumHeap)
    requires h.Valid()
  {
    forall i :: 0 <= i < |h.interior| ==>
      Value(h, Left(i)).Success? && Value(h, Right(i)).Success? &&
      h.interior[i] == Value(h, Left(i)).value + Value(h, Right(i)).value
  }

  /** `calcSum(i, level)`: fills the interior slots of subtree `i` bottom-up.
      Exactly the interior slots under `i` change, each to its subtree's sum. */
  function CalcSum(v: Variant, h: SumHeap, i: int, level: int): (r: SumHeap)
    requires h.Valid() && 0 <= i < Size(|h.data|)
    ensures r.Valid() && r.data == h.data
    ensures forall j :: 0 <= j < |r.interior| ==>
      r.interior[j] == if InSubtree(i, j) then SubtreeSum(h.data, j) else h.interior[j]
    decreases Size(|h.data|) - i
  {
    if LeafIn(v, |h.data|, i) then
      assert forall j :: 0 <= j < |h.interior| ==> !InSubtree(i, j);
      h
    else
      var forked := Forks(v.fork, level);
      var first, second := if forked then Right(i) else Left(i), if forked then Left(i) else Right(i);
      var afterFirst := CalcSum(v, h, first, level + 1);
      var h' := CalcSum(v, afterFirst, second, level + 1);
      JoinSums(h, afterFirst, h', i, first, second);
      ParentWrite(h, h', i)
  }

  /** Once both children's calls return, in either order, exactly the interior
      slots under the two children hold their subtrees' sums. */
  lemma JoinSums(h: SumHeap, a: SumHeap, h': SumHeap, i: int, first: int, second: int)
    requires h.Valid() && a.Valid() && h'.Valid() && a.data == h.data && h'.data == h.data
    requires 0 <= i < |h.interior|
    requires (first, second) == (Left(i), Right(i)) || (first, second) == (Right(i), Left(i))
    requires forall j :: 0 <= j < |a.interior| ==>
      a.interior[j] == if InSubtree(first, j) then SubtreeSum(h.data, j) else h.interior[j]
    requires forall j :: 0 <= j < |h'.interior| ==>
      h'.interior[j] == if InSubtree(second, j) then SubtreeSum(h.data, j) else a.interior[j]
    ensures forall j :: 0 <= j < |h'.interior| ==>
      h'.interior[j] == if InSubtree(Left(i), j) || InSubtree(Right(i), j) then SubtreeSum(h.data, j) else h.interior[j]
  {
  }

  /** The last step of `calcSum` at interior node `i`, once both children's
      subtrees are summed: `interior[i] = value(left(i)) + value(right(i))`. */
  function ParentWrite(h: SumHeap, h': SumHeap, i: int): (r: SumHeap)
    requires h.Valid() && h'.Valid() && h'.data == h.data
    requires 0 <= i < |h.interior|
    requires forall j :: 0 <= j < |h'.interior| ==>
        h'.interior[j] == if InSubtree(Left(i), j) || InSubtree(Right(i), j) then SubtreeSum(h.data, j) else h.interior[j]
    ensures r.Valid() && r.data == h.data
    ensures forall j :: 0 <= j < |r.interior| ==>
      r.interior[j] == if InSubtree(i, j) then SubtreeSum(h.data, j) else h.interior[j]
  {
    assert InSubtree(Left(i), Left(i)) && InSubtree(Right(i), Right(i));
    var sum := Value(h', Left(i)).value + Value(h', Right(i)).value;
    assert sum == SubtreeSum(h.data, i);
    forall j | 0 <= j < |h.interior| {
      SubtreeChildren(i, j);
    }
    h'.(interior := h'.interior[i := sum])
  }

  /** The `SumHeap` constructor: allocate `n - 1` zeroed interior slots and run
      the up-sweep from the root. With no data the allocation throws. */
  function Build(v: Variant, data: seq<int>): (r: Result<SumHeap>)
    ensures r.Success? <==> |data| >= 1
    ensures r.Failure? ==> r.error == LengthError
    ensures r.Success? ==> r.value.Valid() && r.value.data == data
    ensures r.Success? ==> Summed(r.value)
  {
    if |data| == 0 then Failure(LengthError)
    else
      var h := CalcSum(v, SumHeap(data, seq(|data| - 1, _ => 0)), 0, v.rootLevel);
      assert forall j :: 0 <= j < |h.interior| ==> InSubtree(0, j) by {
        forall j | 0 <= j < |h.interior| {
          RootCoversAll(j);
        }
      }
      Success(h)
  }

  /** `sum(node)`: the value held at a node (the total at the default node 0). */
  function Sum(h: SumHeap, node: int): (r: Result<int>)
    requires h.Valid()
    ensures r.Success? <==> 0 <= node < Size(|h.data|)
    ensures r.Success? && Summed(h) ==> r.value == SubtreeSum(h.data, node)
  {
    Value(h, node)
  }

  /** Leaf `l` of subtree `i` writes output slot `l - (n - 1)`; every such
      slot exists. */
  ghost predicate SubtreeFits(n: int, i: nat, len: int) {
    forall l :: n - 1 <= l < Size(n) && InSubtree(i, l) ==> l - (n - 1) < len
  }

  /** Output slot `j` belongs to a leaf of subtree `i`. */
  ghost predicate LeafSlotOf(n: int, i: nat, j: int) {
    0 <= j < n && InSubtree(i, j + (n - 1))
  }

  /** What a down-sweep call leaves behind: the output buffer, with whatever
      writes happened before any exception, and whether an `out_of_range`
      escapes the call. */
  datatype Sweep = Sweep(written: seq<int>, threw: bool)

  /** `calcPrefix(i, top, level, output)`: every leaf of subtree `i` gets `top`
      plus the sums of the leaves before it in the subtree plus the leaf's own
      input; a slot past the
      end of the output buffer makes `at()` throw. A forked left child runs
      even when the right child throws, and its own exception escapes only
      through a `get()` join. */
  function CalcPrefix(v: Variant, h: SumHeap, i: int, top: int, level: int, out: seq<int>): (r: Sweep)
    requires h.Valid() && 0 <= i < Size(|h.data|)
    ensures |r.written| == |out|
    decreases Size(|h.data|) - i
  {
    var n := |h.data|;
    if LeafIn(v, n, i) then
      var slot := i - (n - 1);
      if slot < |out| then Sweep(out[slot := top + Value(h, i).value], false) else Sweep(out, true)
    else
      // The left child continues from `top`, the right child from `top` plus
      // the left subtree's sum; a fork runs the right child first.
      var rightTop := top + Value(h, Left(i)).value;
      var forked := Forks(v.fork, level);
      var first := CalcPrefix(v, h, if forked then Right(i) else Left(i), if forked then rightTop else top, level + 1, out);
      if first.threw && !forked then first
      else
        var next := CalcPrefix(v, h, if forked then Left(i) else Right(i), if forked then top else rightTop, level + 1, first.written);
        Sweep(next.written, first.threw || (next.threw && (!forked || v.join == Get)))
  }

  /** For any leaf count, the down-sweep of subtree `i` writes no slot but its
      own leaves' (sibling subtrees write disjoint slots), and throws nothing
      when every leaf has its slot. When every join rethrows, it throws exactly
      when some leaf lacks its slot. */
  lemma CalcPrefixWritesOwnLeaves(v: Variant, h: SumHeap, i: int, top: int, level: int, out: seq<int>)
    requires h.Valid() && 0 <= i < Size(|h.data|)
    ensures SubtreeFits(|h.data|, i, |out|) ==> !CalcPrefix(v, h, i, top, level, out).threw
    ensures v.join == Get ==> (CalcPrefix(v, h, i, top, level, out).threw <==> !SubtreeFits(|h.data|, i, |out|))
    ensures forall j :: 0 <= j < |out| && !LeafSlotOf(|h.data|, i, j) ==> CalcPrefix(v, h, i, top, level, out).written[j] == out[j]
  {
    OwnLeaves(v, h, i, top, level, out);
  }

  lemma {:induction false} OwnLeaves(v: Variant, h: SumHeap, i: int, top: int, level: int, out: seq<int>)
    requires h.Valid() && 0 <= i < Size(|h.data|)
    ensures OwnLeavesOnly(|h.data|, i, v.join, out, CalcPrefix(v, h, i, top, level, out))
    decreases Size(|h.data|) - i, 1
  {
    var n := |h.data|;
    if LeafIn(v, n, i) {
      LeafOwnLeaves(n, i, v.join, out, top + Value(h, i).value, CalcPrefix(v, h, i, top, level, out));
    } else if Forks(v.fork, level) {
      ForkedOwnLeaves(v, h, i, top, level, out);
    } else {
      SequentialOwnLeaves(v, h, i, top, level, out);
    }
  }

  /** The forking branch: the right child, then the left one on what it left. */
  lemma {:induction false} ForkedOwnLeaves(v: Variant, h: SumHeap, i: int, top: int, level: int, out: seq<int>)
    requires h.Valid() && 0 <= i < |h.interior| && Forks(v.fork, level)
    ensures OwnLeavesOnly(|h.data|, i, v.join, out, CalcPrefix(v, h, i, top, level, out))
    decreases Size(|h.data|) - i, 0
  {
    var rightTop := top + Value(h, Left(i)).value;
    OwnLeaves(v, h, Right(i), rightTop, level + 1, out);
    var r1 := CalcPrefix(v, h, Right(i), rightTop, level + 1, out);
    OwnLeaves(v, h, Left(i), top, level + 1, r1.written);
    var r2 := CalcPrefix(v, h, Left(i), top, level + 1, r1.written);
    JoinOwnLeaves(|h.data|, i, true, v.join, out, r1, r2, CalcPrefix(v, h, i, top, level, out));
  }

  /** The inline branch: the left child, then the right one unless the left threw. */
  lemma {:induction false} SequentialOwnLeaves(v: Variant, h: SumHeap, i: int, top: int, level: int, out: seq<int>)
    requires h.Valid() && 0 <= i < |h.interior| && !Forks(v.fork, level)
    ensures OwnLeavesOnly(|h.data|, i, v.join, out, CalcPrefix(v, h, i, top, level, out))
    decreases Size(|h.data|) - i, 0
  {
    var rightTop := top + Value(h, Left(i)).value;
    OwnLeaves(v, h, Left(i), top, level + 1, out);
    var r1 := CalcPrefix(v, h, Left(i), top, level + 1, out);
    OwnLeaves(v, h, Right(i), rightTop, level + 1, r1.written);
    var r2 := CalcPrefix(v, h, Right(i), rightTop, level + 1, r1.written);
    JoinOwnLeaves(|h.data|, i, false, v.join, out, r1, r2, CalcPrefix(v, h, i, top, level, out));
  }

  /** A leaf writes only its own slot, and throws exactly when that slot is missing. */
  lemma LeafOwnLeaves(n: int, i: nat, join: Join, out: seq<int>, x: int, r: Sweep)
    requires n - 1 <= i < Size(n)
    requires r == if i - (n - 1) < |out| then Sweep(out[i - (n - 1) := x], false) else Sweep(out, true)
    ensures OwnLeavesOnly(n, i, join, out, r)
  {
    SubtreeOfLeafOrChildren(n, i);
    assert InSubtree(i, i);
  }

  /** The outcome of a down-sweep call that the frame and the exception rules allow. */
  ghost predicate OwnLeavesOnly(n: int, i: nat, join: Join, out: seq<int>, r: Sweep) {
    && |r.written| == |out|
    && (SubtreeFits(n, i, |out|) ==> !r.threw)
    && (join == Get ==> (r.threw <==> !SubtreeFits(n, i, |out|)))
    && forall j :: 0 <= j < |out| && !LeafSlotOf(n, i, j) ==> r.written[j] == out[j]
  }

  /** The two children's outcomes, in the order the branch runs them, combine
      into an outcome of the parent that keeps its frame and exception rules. */
  lemma JoinOwnLeaves(n: int, i: nat, forked: bool, join: Join, out: seq<int>, r1: Sweep, r2: Sweep, r: Sweep)
    requires n >= 1 && i < n - 1
    requires OwnLeavesOnly(n, if forked then Right(i) else Left(i), join, out, r1)
    requires OwnLeavesOnly(n, if forked then Left(i) else Right(i), join, r1.written, r2)
    requires r == if r1.threw && !forked then r1 else Sweep(r2.written, r1.threw || (r2.threw && (!forked || join == Get)))
    ensures OwnLeavesOnly(n, i, join, out, r)
  {
    SubtreeOfLeafOrChildren(n, i);
    SubtreeOfLeafOrChildren(n, Left(i));
  }


  /** The leaves under a leaf are itself; the leaves under an interior node are
      those under its two children. */
  lemma SubtreeOfLeafOrChildren(n: int, i: nat)
    ensures IsLeaf(n, i) ==> forall l :: n - 1 <= l < Size(n) ==> (InSubtree(i, l) <==> l == i)
    ensures !IsLeaf(n, i) ==> forall l :: n - 1 <= l < Size(n) ==>
      (InSubtree(i, l) <==> InSubtree(Left(i), l) || InSubtree(Right(i), l))
  {
    forall l | n - 1 <= l < Size(n)
      ensures IsLeaf(n, i) ==> (InSubtree(i, l) <==> l == i)
      ensures !IsLeaf(n, i) ==> (InSubtree(i, l) <==> InSubtree(Left(i), l) || InSubtree(Right(i), l))
    {
      SubtreeChildren(i, l);
      if InSubtree(Left(i), l) {
        SubtreeBelowRoot(Left(i), l);
      }
      if InSubtree(Right(i), l) {
        SubtreeBelowRoot(Right(i), l);
      }
    }
  }

  /** The whole tree fits exactly when the buffer has a slot per leaf. */
  lemma RootFits(n: int, len: int)
    requires n >= 1
    ensures SubtreeFits(n, 0, len) <==> len >= n
  {
    RootCoversAll(Size(n) - 1);
    forall l | n - 1 <= l < Size(n) {
      RootCoversAll(l);
    }
  }

  /** `prefixSums(output)`: the down-sweep from the root with nothing before it.
      An exception that escapes it is reported; a dropped one is not. */
  function PrefixSums(v: Variant, h: SumHeap, out: seq<int>): (r: Result<seq<int>>)
    requires h.Valid()
    ensures |out| >= |h.data| ==> r.Success?
    ensures v.join == Get ==> (r.Success? <==> |out| >= |h.data|)
    ensures r.Failure? ==> r.error == OutOfRange
    ensures r.Success? ==> |r.value| == |out| && forall j :: |h.data| <= j < |out| ==> r.value[j] == out[j]
  {
    var n := |h.data|;
    RootFits(n, |out|);
    CalcPrefixWritesOwnLeaves(v, h, 0, 0, v.rootLevel, out);
    var s := CalcPrefix(v, h, 0, 0, v.rootLevel, out);
    if s.threw then Failure(OutOfRange) else Success(s.written)
  }

  /** `prefixSums` reports the root down-sweep `s`: its exception, or its buffer. */
  lemma PrefixSumsOfRoot(v: Variant, h: SumHeap, out: seq<int>, s: Sweep)
    requires h.Valid() && s == CalcPrefix(v, h, 0, 0, v.rootLevel, out)
    ensures PrefixSums(v, h, out) == if s.threw then Failure(OutOfRange) else Success(s.written)
  {
  }
}
