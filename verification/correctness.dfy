/**
 What the sum heap computes. For every leaf count the up-sweep leaves the
 heap invariant `interior[i] == value(left(i)) + value(right(i))` and `sum()`
 is the total. When the leaf count is a power of two every node holds the sum
 of a contiguous run of the input, and `prefixSums` writes the inclusive
 prefix sums under either join; with three leaves it does not. With three
 leaves and a buffer one slot short, hw2-1's `wait()` join drops the
 exception that hw2-2's `get()` join reports. That the schedule cannot change
 a result into a full-size buffer is proved separately, in module `Schedule`.
 */
module Correctness {
  import opened Heaper
  import opened Subtree
  import opened Sweeps
  import opened Schedule

  /** In a summed heap every node, leaf or interior, holds its subtree's sum. */
  lemma ValueOfSummed(h: SumHeap, c: int)
    requires h.Valid() && Summed(h) && 0 <= c < Size(|h.data|)
    ensures Value(h, c) == Success(SubtreeSum(h.data, c))
  {
  }

  /** Under the source's local invariant, every node holds its subtree's sum. */
  lemma {:induction false} PairSummedValue(h: SumHeap, c: int)
    requires h.Valid() && PairSummed(h) && 0 <= c < Size(|h.data|)
    ensures Value(h, c) == Success(SubtreeSum(h.data, c))
    decreases Size(|h.data|) - c
  {
    if !IsLeaf(|h.data|, c) {
      PairSummedValue(h, Left(c));
      PairSummedValue(h, Right(c));
    }
  }

  /** The local pair-sum invariant and "every slot holds its subtree's sum" are the same. */
  lemma PairSummedIffSummed(h: SumHeap)
    requires h.Valid()
    ensures PairSummed(h) <==> Summed(h)
  {
    if PairSummed(h) {
      forall j | 0 <= j < |h.interior|
        ensures h.interior[j] == SubtreeSum(h.data, j)
      {
        PairSummedValue(h, j);
      }
    }
    if Summed(h) {
      forall i | 0 <= i < |h.interior|
        ensures Value(h, Left(i)).Success? && Value(h, Right(i)).Success?
        ensures h.interior[i] == Value(h, Left(i)).value + Value(h, Right(i)).value
      {
        ValueOfSummed(h, Left(i));
        ValueOfSummed(h, Right(i));
      }
    }
  }

  /** The constructor leaves every interior slot equal to the sum of its two children. */
  lemma BuildIsPairSummed(v: Variant, data: seq<int>)
    requires |data| >= 1
    ensures Build(v, data).Success? && PairSummed(Build(v, data).value)
  {
    PairSummedIffSummed(Build(v, data).value);
  }

  /** With `2^k` leaves, `sum(node)` of node `p` on level `d` is the sum of its run of the input. */
  lemma SumOfNode(h: SumHeap, k: nat, d: nat, p: nat)
    requires h.Valid() && Summed(h) && |h.data| == Pow2(k) && d <= k && p < Pow2(d)
    ensures FirstLeaf(k, d, p) < FirstLeaf(k, d, p + 1) <= |h.data|
    ensures Sum(h, NodeAt(d, p)) == Success(RangeSum(h.data, FirstLeaf(k, d, p), FirstLeaf(k, d, p + 1)))
  {
    SubtreeSumIsRangeSum(h.data, k, d, p);
  }

  /** For any non-empty input, `sum()` of the built heap is the total of the input. */
  lemma SumIsTotal(v: Variant, data: seq<int>)
    requires |data| >= 1
    ensures Build(v, data).Success?
    ensures Sum(Build(v, data).value, 0) == Success(RangeSum(data, 0, |data|))
  {
    RootSumIsTotal(data);
  }

  /** Output `r` is `out` with slots `[lo, hi)` holding `top` plus the inputs
      from `lo` up to and including the slot. */
  ghost predicate PrefixRun(data: seq<int>, lo: int, hi: int, top: int, out: seq<int>, r: seq<int>)
    requires 0 <= lo <= hi <= |data|
  {
    && |r| == |out| && hi <= |out|
    && (forall j :: lo <= j < hi ==> r[j] == top + RangeSum(data, lo, j + 1))
    && (forall j :: 0 <= j < |out| && !(lo <= j < hi) ==> r[j] == out[j])
  }

  /** A slot in the right half of a run: the left half's sum plus the right
      half's prefix is the prefix of the whole run. */
  lemma PrefixStep(data: seq<int>, lo: int, mid: int, j: int, top: int, x: int)
    requires 0 <= lo <= mid <= j < |data|
    requires x == top + RangeSum(data, lo, mid) + RangeSum(data, mid, j + 1)
    ensures x == top + RangeSum(data, lo, j + 1)
  {
    RangeSumSplit(data, lo, mid, j + 1);
  }

  /** Writing the left half of a run and then the right half, with the left half's sum carried over. */
  lemma LeftThenRight(data: seq<int>, lo: int, mid: int, hi: int, top: int, out: seq<int>, r1: seq<int>, r2: seq<int>)
    requires 0 <= lo <= mid <= hi <= |data|
    requires PrefixRun(data, lo, mid, top, out, r1)
    requires PrefixRun(data, mid, hi, top + RangeSum(data, lo, mid), r1, r2)
    ensures PrefixRun(data, lo, hi, top, out, r2)
  {
    forall j | mid <= j < hi
      ensures r2[j] == top + RangeSum(data, lo, j + 1)
    {
      PrefixStep(data, lo, mid, j, top, r2[j]);
    }
    assert forall j :: lo <= j < mid ==> r2[j] == top + RangeSum(data, lo, j + 1);
    assert forall j :: 0 <= j < |out| && !(lo <= j < hi) ==> r2[j] == out[j];
  }

  /** Writing the right half of a run first and then the left half gives the same. */
  lemma RightThenLeft(data: seq<int>, lo: int, mid: int, hi: int, top: int, out: seq<int>, r1: seq<int>, r2: seq<int>)
    requires 0 <= lo <= mid <= hi <= |data|
    requires PrefixRun(data, mid, hi, top + RangeSum(data, lo, mid), out, r1)
    requires PrefixRun(data, lo, mid, top, r1, r2)
    ensures PrefixRun(data, lo, hi, top, out, r2)
  {
    forall j | mid <= j < hi
      ensures r2[j] == top + RangeSum(data, lo, j + 1)
    {
      PrefixStep(data, lo, mid, j, top, r1[j]);
    }
    assert forall j :: lo <= j < mid ==> r2[j] == top + RangeSum(data, lo, j + 1);
    assert forall j :: 0 <= j < |out| && !(lo <= j < hi) ==> r2[j] == out[j];
  }

  /** Node `p` of level `d`'s down-sweep outcome `r`, from offset `top` on
      buffer `out`: it throws exactly when the node's run of the input does not
      fit in the buffer, and otherwise writes the run's prefix sums offset by
      `top`. */
  ghost predicate PrefixOfNode(h: SumHeap, k: nat, d: nat, p: nat, top: int, out: seq<int>, r: Sweep)
    requires h.Valid() && |h.data| == Pow2(k) && d <= k && p < Pow2(d)
  {
    NodeRun(k, d, p);
    && |r.written| == |out|
    && (r.threw <==> |out| < FirstLeaf(k, d, p + 1))
    && (!r.threw ==> PrefixRun(h.data, FirstLeaf(k, d, p), FirstLeaf(k, d, p + 1), top, out, r.written))
  }

  /** The down-sweep of node `p` on level `d` writes into each slot of the
      node's run of the input `top` plus the inputs of the run up to and
      including that slot, and leaves every other slot alone. It throws exactly
      when the run does not fit in the output buffer, whichever join the
      variant uses: the last slot of a run is written by its rightmost leaf,
      which no fork ever leaves to a joined child. */
  lemma {:induction false} CalcPrefixComputesPrefixes(v: Variant, h: SumHeap, k: nat, d: nat, p: nat, top: int, level: int, out: seq<int>)
      returns (r: Sweep)
    requires h.Valid() && Summed(h) && |h.data| == Pow2(k) && d <= k && p < Pow2(d)
    ensures NodeAt(d, p) < Size(|h.data|)
    ensures r == CalcPrefix(v, h, NodeAt(d, p), top, level, out)
    ensures PrefixOfNode(h, k, d, p, top, out, r)
    decreases k - d, 2
  {
    NodeShape(k, d, p);
    NodeRun(k, d, p);
    r := CalcPrefix(v, h, NodeAt(d, p), top, level, out);
    if d < k {
      if Forks(v.fork, level) {
        r := ForkedPrefix(v, h, k, d, p, top, level, out);
      } else {
        r := SequentialPrefix(v, h, k, d, p, top, level, out);
      }
    }
  }

  /** A forked step of the down-sweep: the right child first, then the left. */
  lemma {:induction false} ForkedPrefix(v: Variant, h: SumHeap, k: nat, d: nat, p: nat, top: int, level: int, out: seq<int>)
      returns (r: Sweep)
    requires h.Valid() && Summed(h) && |h.data| == Pow2(k) && d < k && p < Pow2(d)
    requires Forks(v.fork, level)
    ensures NodeAt(d, p) < Size(|h.data|)
    ensures r == CalcPrefix(v, h, NodeAt(d, p), top, level, out)
    ensures PrefixOfNode(h, k, d, p, top, out, r)
    decreases k - d, 1
  {
    NodeShape(k, d, p);
    var leftSum := LeftChildSum(h, k, d, p);
    var rightTop := top + leftSum;
    var first := CalcPrefixComputesPrefixes(v, h, k, d + 1, 2 * p + 1, rightTop, level + 1, out);
    r := ForkedThenLeft(v, h, k, d, p, top, leftSum, rightTop, level, out, first);
  }

  /** The second half of a forked step: the left child runs on whatever the
      right child wrote, whether or not the right child threw. */
  lemma {:induction false} ForkedThenLeft(v: Variant, h: SumHeap, k: nat, d: nat, p: nat, top: int, leftSum: int, rightTop: int,
                                          level: int, out: seq<int>, first: Sweep) returns (r: Sweep)
    requires h.Valid() && Summed(h) && |h.data| == Pow2(k) && d < k && p < Pow2(d) && 2 * p + 1 < Pow2(d + 1)
    requires Forks(v.fork, level)
    requires NodeAt(d, p) < |h.interior| && Value(h, Left(NodeAt(d, p))) == Success(leftSum)
    requires NodeAt(d + 1, 2 * p) == Left(NodeAt(d, p)) && NodeAt(d + 1, 2 * p + 1) == Right(NodeAt(d, p))
    requires FirstLeaf(k, d, p) <= FirstLeaf(k, d + 1, 2 * p + 1) <= |h.data|
    requires leftSum == RangeSum(h.data, FirstLeaf(k, d, p), FirstLeaf(k, d + 1, 2 * p + 1)) && rightTop == top + leftSum
    requires first == CalcPrefix(v, h, NodeAt(d + 1, 2 * p + 1), rightTop, level + 1, out)
    requires PrefixOfNode(h, k, d + 1, 2 * p + 1, rightTop, out, first)
    ensures r == CalcPrefix(v, h, NodeAt(d, p), top, level, out)
    ensures PrefixOfNode(h, k, d, p, top, out, r)
    decreases k - d, 0
  {
    var second := CalcPrefixComputesPrefixes(v, h, k, d + 1, 2 * p, top, level + 1, first.written);
    r := Sweep(second.written, first.threw || (second.threw && v.join == Get));
    ForkedStep(v, h, NodeAt(d, p), NodeAt(d + 1, 2 * p), NodeAt(d + 1, 2 * p + 1), leftSum, top, rightTop, level, out, first, second);
    RightThenLeftNode(h, k, d, p, top, rightTop, out, first, second, r);
  }

  /** An unforked step of the down-sweep: the left child first, then the right. */
  lemma {:induction false} SequentialPrefix(v: Variant, h: SumHeap, k: nat, d: nat, p: nat, top: int, level: int, out: seq<int>)
      returns (r: Sweep)
    requires h.Valid() && Summed(h) && |h.data| == Pow2(k) && d < k && p < Pow2(d)
    requires !Forks(v.fork, level)
    ensures NodeAt(d, p) < Size(|h.data|)
    ensures r == CalcPrefix(v, h, NodeAt(d, p), top, level, out)
    ensures PrefixOfNode(h, k, d, p, top, out, r)
    decreases k - d, 1
  {
    NodeShape(k, d, p);
    var leftSum := LeftChildSum(h, k, d, p);
    var rightTop := top + leftSum;
    var first := CalcPrefixComputesPrefixes(v, h, k, d + 1, 2 * p, top, level + 1, out);
    if !first.threw {
      r := SequentialThenRight(v, h, k, d, p, top, leftSum, rightTop, level, out, first);
    } else {
      r := first;
      SequentialStep(v, h, NodeAt(d, p), NodeAt(d + 1, 2 * p), NodeAt(d + 1, 2 * p + 1), leftSum, top, rightTop, level, out, first, r);
      LeftThenRightNode(h, k, d, p, top, rightTop, out, first, r);
    }
  }

  /** The second half of an unforked step, once the left child has returned normally. */
  lemma {:induction false} SequentialThenRight(v: Variant, h: SumHeap, k: nat, d: nat, p: nat, top: int, leftSum: int, rightTop: int,
                                               level: int, out: seq<int>, first: Sweep) returns (r: Sweep)
    requires h.Valid() && Summed(h) && |h.data| == Pow2(k) && d < k && p < Pow2(d) && 2 * p + 1 < Pow2(d + 1)
    requires !Forks(v.fork, level)
    requires NodeAt(d, p) < |h.interior| && Value(h, Left(NodeAt(d, p))) == Success(leftSum)
    requires NodeAt(d + 1, 2 * p) == Left(NodeAt(d, p)) && NodeAt(d + 1, 2 * p + 1) == Right(NodeAt(d, p))
    requires FirstLeaf(k, d, p) <= FirstLeaf(k, d + 1, 2 * p + 1) <= |h.data|
    requires leftSum == RangeSum(h.data, FirstLeaf(k, d, p), FirstLeaf(k, d + 1, 2 * p + 1)) && rightTop == top + leftSum
    requires !first.threw && first == CalcPrefix(v, h, NodeAt(d + 1, 2 * p), top, level + 1, out)
    requires PrefixOfNode(h, k, d + 1, 2 * p, top, out, first)
    ensures r == CalcPrefix(v, h, NodeAt(d, p), top, level, out)
    ensures PrefixOfNode(h, k, d, p, top, out, r)
    decreases k - d, 0
  {
    r := CalcPrefixComputesPrefixes(v, h, k, d + 1, 2 * p + 1, rightTop, level + 1, first.written);
    SequentialStep(v, h, NodeAt(d, p), NodeAt(d + 1, 2 * p), NodeAt(d + 1, 2 * p + 1), leftSum, top, rightTop, level, out, first, r);
    LeftThenRightNode(h, k, d, p, top, rightTop, out, first, r);
  }

  /** A forked step of `calcPrefix` at interior node `i` with children `li`
      and `ri`: the right child's down-sweep from `top` plus the left child's
      value, then the left child's from `top` on what that wrote; the left
      child's exception escapes only through `get()`. */
  lemma ForkedStep(v: Variant, h: SumHeap, i: int, li: int, ri: int, leftSum: int, top: int, rightTop: int, level: int,
                   out: seq<int>, first: Sweep, second: Sweep)
    requires h.Valid() && 0 <= i < |h.interior| && li == Left(i) && ri == Right(i)
    requires Value(h, li) == Success(leftSum) && rightTop == top + leftSum
    requires Forks(v.fork, level)
    requires first == CalcPrefix(v, h, ri, rightTop, level + 1, out)
    requires second == CalcPrefix(v, h, li, top, level + 1, first.written)
    ensures CalcPrefix(v, h, i, top, level, out) == Sweep(second.written, first.threw || (second.threw && v.join == Get))
  {
  }

  /** An unforked step of `calcPrefix` at interior node `i` with children `li`
      and `ri`: the left child's down-sweep from `top`, then, unless that
      threw, the right child's from `top` plus the left child's value on what
      the left child wrote. */
  lemma SequentialStep(v: Variant, h: SumHeap, i: int, li: int, ri: int, leftSum: int, top: int, rightTop: int, level: int,
                       out: seq<int>, first: Sweep, second: Sweep)
    requires h.Valid() && 0 <= i < |h.interior| && li == Left(i) && ri == Right(i)
    requires Value(h, li) == Success(leftSum) && rightTop == top + leftSum
    requires !Forks(v.fork, level)
    requires first == CalcPrefix(v, h, li, top, level + 1, out)
    requires !first.threw ==> second == CalcPrefix(v, h, ri, rightTop, level + 1, first.written)
    requires first.threw ==> second == first
    ensures CalcPrefix(v, h, i, top, level, out) == second
  {
  }

  /** The right child's down-sweep followed by the left child's is the node's
      down-sweep, whether or not the join rethrows the left child's exception. */
  lemma RightThenLeftNode(h: SumHeap, k: nat, d: nat, p: nat, top: int, rightTop: int, out: seq<int>,
                          first: Sweep, second: Sweep, r: Sweep)
    requires h.Valid() && |h.data| == Pow2(k) && d < k && p < Pow2(d)
    requires FirstLeaf(k, d, p) <= FirstLeaf(k, d + 1, 2 * p + 1) <= |h.data|
    requires rightTop == top + RangeSum(h.data, FirstLeaf(k, d, p), FirstLeaf(k, d + 1, 2 * p + 1))
    requires 2 * p + 1 < Pow2(d + 1)
    requires PrefixOfNode(h, k, d + 1, 2 * p + 1, rightTop, out, first)
    requires PrefixOfNode(h, k, d + 1, 2 * p, top, first.written, second)
    requires r.written == second.written && (first.threw ==> r.threw) && (r.threw ==> first.threw || second.threw)
    ensures PrefixOfNode(h, k, d, p, top, out, r)
  {
    NodeRun(k, d, p);
    if !r.threw {
      RightThenLeft(h.data, FirstLeaf(k, d, p), FirstLeaf(k, d + 1, 2 * p + 1), FirstLeaf(k, d, p + 1),
        top, out, first.written, second.written);
    }
  }

  /** The left child's down-sweep followed by the right child's is the node's down-sweep. */
  lemma LeftThenRightNode(h: SumHeap, k: nat, d: nat, p: nat, top: int, rightTop: int, out: seq<int>,
                          first: Sweep, second: Sweep)
    requires h.Valid() && |h.data| == Pow2(k) && d < k && p < Pow2(d)
    requires FirstLeaf(k, d, p) <= FirstLeaf(k, d + 1, 2 * p + 1) <= |h.data|
    requires rightTop == top + RangeSum(h.data, FirstLeaf(k, d, p), FirstLeaf(k, d + 1, 2 * p + 1))
    requires 2 * p + 1 < Pow2(d + 1)
    requires PrefixOfNode(h, k, d + 1, 2 * p, top, out, first)
    requires !first.threw ==> PrefixOfNode(h, k, d + 1, 2 * p + 1, rightTop, first.written, second)
    requires first.threw ==> second == first
    ensures PrefixOfNode(h, k, d, p, top, out, second)
  {
    NodeRun(k, d, p);
    if !first.threw && !second.threw {
      LeftThenRight(h.data, FirstLeaf(k, d, p), FirstLeaf(k, d + 1, 2 * p + 1), FirstLeaf(k, d, p + 1),
        top, out, first.written, second.written);
    }
  }

  /** The offset handed to the right child: the left child's value, which is
      the sum of the left half of the node's run. */
  lemma LeftChildSum(h: SumHeap, k: nat, d: nat, p: nat) returns (leftSum: int)
    requires h.Valid() && Summed(h) && |h.data| == Pow2(k) && d < k && p < Pow2(d)
    ensures NodeAt(d, p) < |h.interior|
    ensures NodeAt(d + 1, 2 * p) < Size(|h.data|) && NodeAt(d + 1, 2 * p + 1) < Size(|h.data|)
    ensures FirstLeaf(k, d, p) < FirstLeaf(k, d + 1, 2 * p + 1) < FirstLeaf(k, d, p + 1) <= |h.data|
    ensures Value(h, Left(NodeAt(d, p))) == Success(leftSum)
    ensures leftSum == RangeSum(h.data, FirstLeaf(k, d, p), FirstLeaf(k, d + 1, 2 * p + 1))
  {
    NodeShape(k, d, p);
    NodeRun(k, d, p);
    SubtreeSumIsRangeSum(h.data, k, d + 1, 2 * p);
    NodeShape(k, d + 1, 2 * p + 1);
    ValueOfSummed(h, Left(NodeAt(d, p)));
    leftSum := Value(h, Left(NodeAt(d, p))).value;
  }

  /** For a power-of-two input, `prefixSums` on the built heap succeeds exactly
      when the output buffer holds `n` slots, and then slot `j` receives
      `data[0] + ... + data[j]`. This holds for both joins: with a short buffer
      the rightmost leaf, which writes the last slot, always throws on a path
      of right children that no join drops. */
  lemma PrefixSumsCorrect(v: Variant, data: seq<int>, out: seq<int>)
    requires IsPowerOfTwo(|data|)
    ensures Build(v, data).Success?
    ensures PrefixSums(v, Build(v, data).value, out).Success? <==> |out| >= |data|
    ensures PrefixSums(v, Build(v, data).value, out).Success? ==>
      forall j :: 0 <= j < |data| ==> PrefixSums(v, Build(v, data).value, out).value[j] == RangeSum(data, 0, j + 1)
  {
    var r := RootPrefixes(v, Build(v, data).value, out);
  }

  /** The down-sweep from the root of a summed heap over `2^k` leaves writes
      the inclusive prefix sums of the whole input into the first `n` slots. */
  lemma RootPrefixes(v: Variant, h: SumHeap, out: seq<int>) returns (r: Result<seq<int>>)
    requires h.Valid() && Summed(h) && IsPowerOfTwo(|h.data|)
    ensures PrefixSums(v, h, out) == r
    ensures r.Success? <==> |out| >= |h.data|
    ensures r.Success? ==> PrefixRun(h.data, 0, |h.data|, 0, out, r.value)
  {
    var s := RootSweep(v, h, Log2(|h.data|), out);
    PrefixSumsOfRoot(v, h, out, s);
    r := if s.threw then Failure(OutOfRange) else Success(s.written);
  }

  /** The root's run is the whole input. */
  lemma RootSweep(v: Variant, h: SumHeap, k: nat, out: seq<int>) returns (s: Sweep)
    requires h.Valid() && Summed(h) && |h.data| == Pow2(k)
    ensures s == CalcPrefix(v, h, 0, 0, v.rootLevel, out)
    ensures s.threw <==> |out| < |h.data|
    ensures !s.threw ==> PrefixRun(h.data, 0, |h.data|, 0, out, s.written)
  {
    // The root is node 0 of level 0; naming the coordinates keeps the solver
    // from evaluating the sweep below a literal node index.
    var d: nat, p: nat := 0, 0;
    s := CalcPrefixComputesPrefixes(v, h, k, d, p, 0, v.rootLevel, out);
    RootRunThrows(h, k, d, p, out, s);
    RootRunPrefixes(h, k, d, p, out, s);
    assert s == CalcPrefix(v, h, 0, 0, v.rootLevel, out) by {
      RootIsNodeZero(d, p);
    }
  }

  /** Node 0 of level 0 is the root. */
  lemma RootIsNodeZero(d: nat, p: nat)
    requires d == 0 && p == 0
    ensures NodeAt(d, p) == 0
  { }

  /** The root's down-sweep throws exactly when the buffer is shorter than the input. */
  lemma RootRunThrows(h: SumHeap, k: nat, d: nat, p: nat, out: seq<int>, s: Sweep)
    requires h.Valid() && |h.data| == Pow2(k) && d == 0 && p == 0
    requires PrefixOfNode(h, k, d, p, 0, out, s)
    ensures s.threw <==> |out| < |h.data|
  {
    FirstLeafPastLevel(k, d);
  }

  /** The root's run is the whole input. */
  lemma RootRunPrefixes(h: SumHeap, k: nat, d: nat, p: nat, out: seq<int>, s: Sweep)
    requires h.Valid() && |h.data| == Pow2(k) && d == 0 && p == 0
    requires PrefixOfNode(h, k, d, p, 0, out, s)
    ensures !s.threw ==> PrefixRun(h.data, 0, |h.data|, 0, out, s.written)
  {
    FirstLeafPastLevel(k, d);
  }

  lemma {:induction false} RangeSumOfOnes(data: seq<int>, j: nat)
    requires j <= |data| && forall m :: 0 <= m < |data| ==> data[m] == 1
    ensures RangeSum(data, 0, j) == j
  {
    if j > 0 {
      RangeSumOfOnes(data, j - 1);
    }
  }

  /** The check in `main`: an all-ones input of power-of-two length, written
      into an all-ones buffer of the same length, gives `j + 1` in slot `j`,
      and `sum()` gives the length. */
  lemma AllOnes(v: Variant, ones: seq<int>)
    requires IsPowerOfTwo(|ones|) && forall m :: 0 <= m < |ones| ==> ones[m] == 1
    ensures Build(v, ones).Success?
    ensures Sum(Build(v, ones).value, 0) == Success(|ones|)
    ensures PrefixSums(v, Build(v, ones).value, ones) == Success(seq(|ones|, j => j + 1))
  {
    SumIsTotal(v, ones);
    RangeSumOfOnes(ones, |ones|);
    PrefixSumsCorrect(v, ones, ones);
    CountingPrefixes(ones, PrefixSums(v, Build(v, ones).value, ones).value);
  }

  /** The prefix sums of an all-ones input count up from one. */
  lemma CountingPrefixes(ones: seq<int>, r: seq<int>)
    requires forall m :: 0 <= m < |ones| ==> ones[m] == 1
    requires |r| == |ones| && forall j :: 0 <= j < |ones| ==> r[j] == RangeSum(ones, 0, j + 1)
    ensures r == seq(|ones|, j => j + 1)
  {
    forall j | 0 <= j < |ones|
      ensures r[j] == j + 1
    {
      RangeSumOfOnes(ones, j + 1);
    }
  }

  /** Four leaves `[3, 1, 4, 1]`: prefix sums `[3, 4, 8, 9]` and total 9. */
  lemma FourLeaves(v: Variant)
    ensures Build(v, [3, 1, 4, 1]).Success?
    ensures Sum(Build(v, [3, 1, 4, 1]).value, 0) == Success(9)
    ensures PrefixSums(v, Build(v, [3, 1, 4, 1]).value, [0, 0, 0, 0]) == Success([3, 4, 8, 9])
  {
    var data := [3, 1, 4, 1];
    assert IsPowerOfTwo(4) by {
      assert IsPowerOfTwo(2);
    }
    SumIsTotal(v, data);
    PrefixSumsCorrect(v, data, [0, 0, 0, 0]);
    FourPrefixes(PrefixSums(v, Build(v, data).value, [0, 0, 0, 0]).value);
  }

  lemma FourPrefixes(r: seq<int>)
    requires |r| == 4 && forall j :: 0 <= j < 4 ==> r[j] == RangeSum([3, 1, 4, 1], 0, j + 1)
    ensures r == [3, 4, 8, 9]
  {
    assert r[0] == 3 && r[1] == 4 && r[2] == 8 && r[3] == 9;
  }

  /** One leaf: the interior is empty, and both `sum()` and slot 0 of the output are the input. */
  lemma SingleLeaf(v: Variant, x: int, out: seq<int>)
    requires |out| >= 1
    ensures Build(v, [x]).Success? && Build(v, [x]).value.interior == []
    ensures Sum(Build(v, [x]).value, 0) == Success(x)
    ensures PrefixSums(v, Build(v, [x]).value, out) == Success(out[0 := x])
  {
    SumIsTotal(v, [x]);
    PrefixSumsCorrect(v, [x], out);
  }

  /** Three leaves, a count that is not a power of two: the leaf of node 2,
      input position 0, is the root's right child and comes after the other
      two in the down-sweep's order, so slot 0 receives the total, and slots 1
      and 2 receive the prefixes of the inputs after it. Only a power-of-two
      leaf count gives prefix sums. */
  lemma ThreeLeaves(v: Variant, x: int, y: int, z: int)
    ensures Build(v, [x, y, z]).Success?
    ensures PrefixSums(v, Build(v, [x, y, z]).value, [0, 0, 0]) == Success([x + y + z, y, y + z])
  {
    var data := [x, y, z];
    var h := Build(v, data).value;
    var v0 := Variant(ByIndex, Below(0), 0, Get);
    PrefixSumsThresholdFree(v, v0, h, [0, 0, 0]);
    assert Value(h, 1) == Success(y + z) by {
      assert SubtreeSum(data, 1) == y + z;
    }
    assert h.data == data;
    var o1 := CalcPrefix(v0, h, 3, 0, 2, [0, 0, 0]);
    assert Value(h, 3) == Success(y);
    assert o1 == Sweep([0, 0, 0][1 := y], false);
    assert [0, 0, 0][1 := y] == [0, y, 0];
    var o2 := CalcPrefix(v0, h, 4, y, 2, o1.written);
    assert Value(h, 4) == Success(z);
    assert o2 == Sweep([0, y, 0][2 := y + z], false);
    assert [0, y, 0][2 := y + z] == [0, y, y + z];
    assert CalcPrefix(v0, h, 1, 0, 1, [0, 0, 0]) == o2;
    var o3 := CalcPrefix(v0, h, 2, y + z, 1, o2.written);
    assert Value(h, 2) == Success(x);
    assert o3 == Sweep([0, y, y + z][0 := y + z + x], false);
    assert [0, y, y + z][0 := y + z + x] == [x + y + z, y, y + z];
    assert CalcPrefix(v0, h, 0, 0, 0, [0, 0, 0]) == o3;
  }

  /** Three ones give `[3, 1, 2]`, not the `[1, 2, 3]` the check in `main` expects. */
  lemma ThreeOnesMisordered(v: Variant)
    ensures PrefixSums(v, Build(v, [1, 1, 1]).value, [0, 0, 0]) == Success([3, 1, 2])
  {
    ThreeLeaves(v, 1, 1, 1);
  }

  /** Three leaves into a two-slot buffer, where leaf 4 (input position 2) has
      no slot. In hw2-1 that leaf is the inline right child of node 1, whose
      exception ends node 1's task; the root joins that task with `wait()`,
      which drops the exception, so `prefixSums` returns normally with both
      slots written. hw2-2 joins with `get()` and throws, and so does hw2-1
      when `PARALLEL_LEVELS` is 0, since nothing then forks. */
  lemma ThreeLeavesShortBuffer(x: int, y: int, z: int)
    ensures Build(LevelsVariant, [x, y, z]).Success? && Build(ThreadsVariant, [x, y, z]).Success?
    ensures PrefixSums(LevelsVariant, Build(LevelsVariant, [x, y, z]).value, [0, 0]) == Success([x + y + z, y])
    ensures PrefixSums(ThreadsVariant, Build(ThreadsVariant, [x, y, z]).value, [0, 0]) == Failure(OutOfRange)
    ensures PrefixSums(Variant(ByRightChild, Below(0), 0, Wait), Build(LevelsVariant, [x, y, z]).value, [0, 0])
      == Failure(OutOfRange)
  {
    var data := [x, y, z];
    var v := LevelsVariant;
    var h := Build(v, data).value;
    assert h.data == data;
    assert Value(h, 1) == Success(y + z) by {
      assert SubtreeSum(data, 1) == y + z;
    }
    assert Value(h, 2) == Success(x) && Value(h, 3) == Success(y) && Value(h, 4) == Success(z);
    // hw2-1: the root forks at level 0 and node 1 at level 1.
    var right := CalcPrefix(v, h, 2, y + z, 1, [0, 0]);
    assert right == Sweep([0, 0][0 := y + z + x], false);
    assert [0, 0][0 := y + z + x] == [x + y + z, 0];
    var leaf4 := CalcPrefix(v, h, 4, y, 2, [x + y + z, 0]);
    assert leaf4 == Sweep([x + y + z, 0], true);
    var leaf3 := CalcPrefix(v, h, 3, 0, 2, [x + y + z, 0]);
    assert leaf3 == Sweep([x + y + z, 0][1 := y], false);
    assert [x + y + z, 0][1 := y] == [x + y + z, y];
    assert CalcPrefix(v, h, 1, 0, 1, [x + y + z, 0]) == Sweep([x + y + z, y], true);
    assert CalcPrefix(v, h, 0, 0, 0, [0, 0]) == Sweep([x + y + z, y], false);
    // hw2-2 rethrows.
    VariantsAgree(data, [0, 0]);
    // hw2-1 with no forks: node 1 runs leaf 3, then leaf 4 throws.
    var v0 := Variant(ByRightChild, Below(0), 0, Wait);
    var first := CalcPrefix(v0, h, 3, 0, 2, [0, 0]);
    assert first == Sweep([0, 0][1 := y], false);
    assert CalcPrefix(v0, h, 4, y, 2, first.written).threw;
    assert CalcPrefix(v0, h, 1, 0, 1, [0, 0]).threw;
    assert CalcPrefix(v0, h, 0, 0, 0, [0, 0]).threw;
  }

  /** For a power-of-two input the two source files agree on every buffer:
      the dropped exceptions of hw2-1 only ever come with a short buffer,
      where the rightmost leaf throws in both. */
  lemma VariantsAgreeOnPowersOfTwo(data: seq<int>, out: seq<int>)
    requires IsPowerOfTwo(|data|)
    ensures Build(LevelsVariant, data).Success?
    ensures PrefixSums(LevelsVariant, Build(LevelsVariant, data).value, out)
      == PrefixSums(ThreadsVariant, Build(ThreadsVariant, data).value, out)
  {
    VariantsAgree(data, out);
    PrefixSumsCorrect(LevelsVariant, data, out);
    PrefixSumsCorrect(ThreadsVariant, data, out);
  }
}
