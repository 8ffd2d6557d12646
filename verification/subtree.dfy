/**
 Shape of the implicit tree: which nodes lie under which, the sum a fully
 built heap holds at every node (the inputs of the leaves below it, for any
 leaf count), and, when the leaf count is a power of two, the contiguous run
 of input positions each subtree covers.
 */
module Subtree {
  import opened Heaper

  /** Node `j` lies in the subtree rooted at `i`: following parent links from `j` reaches `i`. */
  predicate InSubtree(i: nat, j: nat)
    decreases j
  {
    if j <= i then j == i else InSubtree(i, Parent(j))
  }

  /** A subtree consists of its root and the subtrees of its two children. */
  lemma {:induction false} SubtreeChildren(i: nat, j: nat)
    ensures InSubtree(i, j) <==> j == i || InSubtree(Left(i), j) || InSubtree(Right(i), j)
    decreases j
  {
    if j > Right(i) {
      var q := Parent(j);
      SubtreeChildren(i, q);
      assert q > i;
    } else if j > i && j < Left(i) {
      assert Parent(j) < i;
    }
  }

  /** Two subtrees that share a node are nested: the one with the smaller root contains the other. */
  lemma {:induction false} SubtreeNested(a: nat, b: nat, j: nat)
    requires a <= b && InSubtree(a, j) && InSubtree(b, j)
    ensures InSubtree(a, b)
    decreases j
  {
    if j != b {
      SubtreeNested(a, b, Parent(j));
    }
  }

  /** The subtrees of two siblings share no node, and neither contains the parent. */
  lemma ChildrenDisjoint(i: nat, j: nat)
    ensures !(InSubtree(Left(i), j) && InSubtree(Right(i), j))
    ensures !InSubtree(Left(i), i) && !InSubtree(Right(i), i)
  {
    if InSubtree(Left(i), j) && InSubtree(Right(i), j) {
      SubtreeNested(Left(i), Right(i), j);
    }
  }

  /** Every node lies under the root. */
  lemma {:induction false} RootCoversAll(j: nat)
    ensures InSubtree(0, j)
    decreases j
  {
    if j > 0 {
      RootCoversAll(Parent(j));
    }
  }

  /** The value a fully summed heap holds at node `i`: the input at a leaf,
      the sum of the two children at an interior node. */
  function SubtreeSum(data: seq<int>, i: int): int
    requires |data| >= 1 && 0 <= i < Size(|data|)
    decreases Size(|data|) - i
  {
    if IsLeaf(|data|, i) then data[i - (|data| - 1)]
    else SubtreeSum(data, Left(i)) + SubtreeSum(data, Right(i))
  }

  /** A node lies under a subtree only if it is numbered no lower than the subtree's root. */
  lemma SubtreeBelowRoot(i: nat, j: nat)
    requires InSubtree(i, j)
    ensures i <= j
  {
  }

  /** Sum of the inputs at positions below `hi` whose leaves lie under node `i`. */
  function LeafSum(data: seq<int>, i: nat, hi: int): int
    requires 0 <= hi <= |data|
  {
    if hi == 0 then 0
    else LeafSum(data, i, hi - 1) + (if InSubtree(i, hi - 1 + (|data| - 1)) then data[hi - 1] else 0)
  }

  /** The leaves under an interior node are split between its two children. */
  lemma {:induction false} LeafSumChildren(data: seq<int>, i: nat, hi: int)
    requires 0 <= hi <= |data| && i < |data| - 1
    ensures LeafSum(data, i, hi) == LeafSum(data, Left(i), hi) + LeafSum(data, Right(i), hi)
  {
    if hi > 0 {
      LeafSumChildren(data, i, hi - 1);
      SubtreeChildren(i, hi - 1 + (|data| - 1));
      ChildrenDisjoint(i, hi - 1 + (|data| - 1));
    }
  }

  /** The only leaf under a leaf is itself. */
  lemma {:induction false} LeafSumOfLeaf(data: seq<int>, i: nat, hi: int)
    requires |data| - 1 <= i < Size(|data|) && 0 <= hi <= |data|
    ensures LeafSum(data, i, hi) == if i - (|data| - 1) < hi then data[i - (|data| - 1)] else 0
  {
    if hi > 0 {
      LeafSumOfLeaf(data, i, hi - 1);
      var l := hi - 1 + (|data| - 1);
      SubtreeChildren(i, l);
      if InSubtree(Left(i), l) {
        SubtreeBelowRoot(Left(i), l);
      }
      if InSubtree(Right(i), l) {
        SubtreeBelowRoot(Right(i), l);
      }
    }
  }

  /** For any leaf count, the value a summed heap holds at node `i` is the sum
      of the inputs whose leaves lie under `i`. */
  lemma {:induction false} SubtreeSumIsLeafSum(data: seq<int>, i: int)
    requires |data| >= 1 && 0 <= i < Size(|data|)
    ensures SubtreeSum(data, i) == LeafSum(data, i, |data|)
    decreases Size(|data|) - i
  {
    if IsLeaf(|data|, i) {
      LeafSumOfLeaf(data, i, |data|);
    } else {
      SubtreeSumIsLeafSum(data, Left(i));
      SubtreeSumIsLeafSum(data, Right(i));
      LeafSumChildren(data, i, |data|);
    }
  }

  /** Every leaf lies under the root, so the root's leaf sum is a plain prefix sum. */
  lemma {:induction false} RootLeafSum(data: seq<int>, hi: int)
    requires 0 <= hi <= |data|
    ensures LeafSum(data, 0, hi) == RangeSum(data, 0, hi)
  {
    if hi > 0 {
      RootLeafSum(data, hi - 1);
      RootCoversAll(hi - 1 + (|data| - 1));
    }
  }

  /** For any leaf count, the root of a summed heap holds the total of the input. */
  lemma RootSumIsTotal(data: seq<int>)
    requires |data| >= 1
    ensures SubtreeSum(data, 0) == RangeSum(data, 0, |data|)
  {
    SubtreeSumIsLeafSum(data, 0);
    RootLeafSum(data, |data|);
  }

  /** Sum of the inputs at positions `lo` up to but excluding `hi`. */
  function RangeSum(data: seq<int>, lo: int, hi: int): int
    requires 0 <= lo <= hi <= |data|
    decreases hi - lo
  {
    if lo == hi then 0 else RangeSum(data, lo, hi - 1) + data[hi - 1]
  }

  lemma {:induction false} RangeSumSplit(data: seq<int>, lo: int, mid: int, hi: int)
    requires 0 <= lo <= mid <= hi <= |data|
    ensures RangeSum(data, lo, hi) == RangeSum(data, lo, mid) + RangeSum(data, mid, hi)
    decreases hi - mid
  {
    if hi > mid {
      RangeSumSplit(data, lo, mid, hi - 1);
    }
  }

  function Pow2(d: nat): (r: nat)
    ensures r >= 1
  {
    if d == 0 then 1 else 2 * Pow2(d - 1)
  }

  predicate IsPowerOfTwo(n: int)
    decreases n
  {
    n == 1 || (n > 1 && n % 2 == 0 && IsPowerOfTwo(n / 2))
  }

  /** The depth of a complete tree with `n` leaves. */
  function Log2(n: int): (k: nat)
    requires IsPowerOfTwo(n)
    ensures Pow2(k) == n
    decreases n
  {
    if n == 1 then 0 else 1 + Log2(n / 2)
  }

  /** Every `2^k` is a power of two, and `Log2` recovers `k` from it; with the
      contract of `Log2`, the power-of-two lengths are exactly the `2^k`. */
  lemma {:induction false} Pow2IsPowerOfTwo(k: nat)
    ensures IsPowerOfTwo(Pow2(k))
    ensures Log2(Pow2(k)) == k
  {
    if k > 0 {
      Pow2IsPowerOfTwo(k - 1);
      assert Pow2(k) / 2 == Pow2(k - 1);
    }
  }

  /** Position of node number `p` on level `d`: level `d` starts at index `2^d - 1`. */
  function NodeAt(d: nat, p: nat): nat {
    Pow2(d) - 1 + p
  }

  lemma {:induction false} Pow2Monotone(a: nat, b: nat)
    requires a <= b
    ensures Pow2(a) <= Pow2(b)
    decreases b - a
  {
    if a < b {
      Pow2Monotone(a, b - 1);
    }
  }

  /** With `2^k` leaves, node `p` of level `d` is a leaf exactly on level `k`, and
      its children are nodes `2p` and `2p + 1` of level `d + 1`. */
  lemma NodeShape(k: nat, d: nat, p: nat)
    requires d <= k && p < Pow2(d)
    ensures NodeAt(d, p) < Size(Pow2(k))
    ensures IsLeaf(Pow2(k), NodeAt(d, p)) <==> d == k
    ensures d == k ==> NodeAt(d, p) - (Pow2(k) - 1) == p
    ensures d < k ==> Left(NodeAt(d, p)) == NodeAt(d + 1, 2 * p)
    ensures d < k ==> Right(NodeAt(d, p)) == NodeAt(d + 1, 2 * p + 1)
    ensures d < k ==> 2 * p + 1 < Pow2(d + 1)
  {
    Pow2Monotone(d, k);
    if d < k {
      Pow2Monotone(d + 1, k);
      assert Pow2(d + 1) == 2 * Pow2(d);
    }
  }

  /** The input position of the leftmost leaf under node `p` of level `d`, in a
      tree whose leaves are on level `k`: follow left children down to level `k`. */
  function FirstLeaf(k: nat, d: nat, p: nat): nat
    requires d <= k
    decreases k - d
  {
    if d == k then p else FirstLeaf(k, d + 1, 2 * p)
  }

  /** Neighbouring nodes on a level cover neighbouring runs of `2^(k - d)` inputs. */
  lemma {:induction false} FirstLeafStep(k: nat, d: nat, p: nat)
    requires d <= k
    ensures FirstLeaf(k, d, p + 1) == FirstLeaf(k, d, p) + Pow2(k - d)
    decreases k - d
  {
    if d < k {
      FirstLeafStep(k, d + 1, 2 * p);
      FirstLeafStep(k, d + 1, 2 * p + 1);
      assert Pow2(k - d) == 2 * Pow2(k - (d + 1));
    }
  }

  lemma {:induction false} FirstLeafMonotone(k: nat, d: nat, p: nat, q: nat)
    requires d <= k && p <= q
    ensures FirstLeaf(k, d, p) <= FirstLeaf(k, d, q)
    decreases q - p
  {
    if p < q {
      FirstLeafMonotone(k, d, p, q - 1);
      FirstLeafStep(k, d, q - 1);
    }
  }

  /** The runs of level `d` start at the beginning of the input and end exactly at its end. */
  lemma {:induction false} FirstLeafPastLevel(k: nat, d: nat)
    requires d <= k
    ensures FirstLeaf(k, d, 0) == 0
    ensures FirstLeaf(k, d, Pow2(d)) == Pow2(k)
    decreases k - d
  {
    if d < k {
      FirstLeafPastLevel(k, d + 1);
    }
  }

  /** The run of node `p` on level `d` lies inside the input, and an interior
      node's run is its left child's run followed by its right child's. */
  lemma NodeRun(k: nat, d: nat, p: nat)
    requires d <= k && p < Pow2(d)
    ensures FirstLeaf(k, d, p) < FirstLeaf(k, d, p + 1) <= Pow2(k)
    ensures d < k ==> FirstLeaf(k, d, p) == FirstLeaf(k, d + 1, 2 * p)
    ensures d < k ==> FirstLeaf(k, d, p + 1) == FirstLeaf(k, d + 1, 2 * p + 1 + 1)
    ensures d < k ==> FirstLeaf(k, d, p) < FirstLeaf(k, d + 1, 2 * p + 1) < FirstLeaf(k, d, p + 1)
  {
    FirstLeafStep(k, d, p);
    FirstLeafMonotone(k, d, p + 1, Pow2(d));
    FirstLeafPastLevel(k, d);
    if d < k {
      FirstLeafStep(k, d + 1, 2 * p);
      FirstLeafStep(k, d + 1, 2 * p + 1);
    }
  }

  /** An interior node whose children sum two adjacent runs sums their union. */
  lemma JoinRuns(data: seq<int>, i: int, lo: int, mid: int, hi: int)
    requires |data| >= 1 && 0 <= i < |data| - 1 && 0 <= lo <= mid <= hi <= |data|
    requires SubtreeSum(data, Left(i)) == RangeSum(data, lo, mid)
    requires SubtreeSum(data, Right(i)) == RangeSum(data, mid, hi)
    ensures SubtreeSum(data, i) == RangeSum(data, lo, hi)
  {
    RangeSumSplit(data, lo, mid, hi);
  }

  /** With `2^k` leaves, every subtree sums a contiguous, left-to-right run of the input. */
  lemma {:induction false} SubtreeSumIsRangeSum(data: seq<int>, k: nat, d: nat, p: nat)
    requires |data| == Pow2(k) && d <= k && p < Pow2(d)
    ensures NodeAt(d, p) < Size(|data|)
    ensures FirstLeaf(k, d, p) < FirstLeaf(k, d, p + 1) <= |data|
    ensures SubtreeSum(data, NodeAt(d, p)) == RangeSum(data, FirstLeaf(k, d, p), FirstLeaf(k, d, p + 1))
    decreases k - d
  {
    NodeShape(k, d, p);
    NodeRun(k, d, p);
    var i := NodeAt(d, p);
    if d < k {
      SubtreeSumIsRangeSum(data, k, d + 1, 2 * p);
      SubtreeSumIsRangeSum(data, k, d + 1, 2 * p + 1);
      JoinRuns(data, i, FirstLeaf(k, d, p), FirstLeaf(k, d + 1, 2 * p + 1), FirstLeaf(k, d, p + 1));
    } else {
      assert SubtreeSum(data, i) == data[p];
    }
  }
}
