/**
 Independence from the schedule. Both sweeps fork their left child up to some
 recursion level and run it inline below; the model runs a forked call's
 right child before its left one. Sibling subtrees read nothing the other
 writes and write disjoint slots, so for every leaf count, whatever the fork
 threshold, the starting level or the source variant, the up-sweep builds
 the same heap, and the down-sweep writes the same output into a buffer with
 a slot per leaf. Into a shorter buffer, where some leaf throws, the outcome
 can depend on the schedule and the join; what any down-sweep leaves behind
 is still a subset of the complete writes.
 */
module Schedule {
  import opened Heaper
  import opened Subtree
  import opened Sweeps

  /** The up-sweep's result does not depend on where the forks stop. */
  lemma UpSweepThresholdFree(v1: Variant, v2: Variant, h: SumHeap, i: int, level1: int, level2: int)
    requires h.Valid() && 0 <= i < Size(|h.data|)
    ensures CalcSum(v1, h, i, level1) == CalcSum(v2, h, i, level2)
  {
    var r1, r2 := CalcSum(v1, h, i, level1), CalcSum(v2, h, i, level2);
    assert r1.interior == r2.interior;
  }

  /** What the down-sweep of subtree `i` from offset `top` writes for leaf `l`,
      independent of the order the two children run in: descend towards `l`,
      adding the left child's value whenever the path turns right, and end
      with the leaf's own input. */
  ghost function PrefixAt(h: SumHeap, i: int, top: int, l: nat): int
    requires h.Valid() && 0 <= i < Size(|h.data|)
    decreases Size(|h.data|) - i
  {
    if IsLeaf(|h.data|, i) then top + Value(h, i).value
    else if InSubtree(Left(i), l) then PrefixAt(h, Left(i), top, l)
    else PrefixAt(h, Right(i), top + Value(h, Left(i)).value, l)
  }

  /** Buffer `r` is `out` with every leaf slot of subtree `i` set to its `PrefixAt` value. */
  ghost predicate WrittenFrom(h: SumHeap, i: int, top: int, out: seq<int>, r: seq<int>)
    requires h.Valid() && 0 <= i < Size(|h.data|)
  {
    && |r| == |out|
    && forall j :: 0 <= j < |out| ==>
         r[j] == if LeafSlotOf(|h.data|, i, j) then PrefixAt(h, i, top, j + (|h.data| - 1)) else out[j]
  }

  /** A leaf under an interior node lies under exactly one of its children,
      and `PrefixAt` follows that child with the child's offset. */
  lemma PrefixAtChildren(h: SumHeap, i: int, top: int, l: nat)
    requires h.Valid() && 0 <= i < |h.interior| && |h.data| - 1 <= l
    ensures InSubtree(i, l) <==> InSubtree(Left(i), l) || InSubtree(Right(i), l)
    ensures !(InSubtree(Left(i), l) && InSubtree(Right(i), l))
    ensures InSubtree(Left(i), l) ==> PrefixAt(h, i, top, l) == PrefixAt(h, Left(i), top, l)
    ensures InSubtree(Right(i), l) ==> PrefixAt(h, i, top, l) == PrefixAt(h, Right(i), top + Value(h, Left(i)).value, l)
  {
    SubtreeChildren(i, l);
    ChildrenDisjoint(i, l);
  }

  /** When every leaf of subtree `i` has its slot, the down-sweep throws
      nothing, writes `PrefixAt` into the subtree's leaf slots and leaves every
      other slot as it was. */
  lemma {:induction false} CalcPrefixValues(v: Variant, h: SumHeap, i: int, top: int, level: int, out: seq<int>)
    requires h.Valid() && 0 <= i < Size(|h.data|)
    ensures SubtreeFits(|h.data|, i, |out|) ==>
      !CalcPrefix(v, h, i, top, level, out).threw && WrittenFrom(h, i, top, out, CalcPrefix(v, h, i, top, level, out).written)
    decreases Size(|h.data|) - i
  {
    var n := |h.data|;
    var r := CalcPrefix(v, h, i, top, level, out);
    if SubtreeFits(n, i, |out|) {
      SubtreeOfLeafOrChildren(n, i);
      if LeafIn(v, n, i) {
        assert InSubtree(i, i);
        LeafWrite(h, i, top, out, r.written);
      } else {
        var forked := Forks(v.fork, level);
        var rightTop := top + Value(h, Left(i)).value;
        var first, next := if forked then Right(i) else Left(i), if forked then Left(i) else Right(i);
        var firstTop, nextTop := if forked then rightTop else top, if forked then top else rightTop;
        assert SubtreeFits(n, first, |out|) && SubtreeFits(n, next, |out|);
        CalcPrefixValues(v, h, first, firstTop, level + 1, out);
        var r1 := CalcPrefix(v, h, first, firstTop, level + 1, out);
        CalcPrefixValues(v, h, next, nextTop, level + 1, r1.written);
        var r2 := CalcPrefix(v, h, next, nextTop, level + 1, r1.written);
        assert r == r2;
        JoinWrites(h, i, top, forked, out, r1.written, r.written);
      }
    }
  }

  /** Buffer `r` is `out` with some of subtree `i`'s leaf slots set to their
      `PrefixAt` values. */
  ghost predicate PartlyWrittenFrom(h: SumHeap, i: int, top: int, out: seq<int>, r: seq<int>)
    requires h.Valid() && 0 <= i < Size(|h.data|)
  {
    && |r| == |out|
    && forall j :: 0 <= j < |out| ==>
         r[j] == out[j] || (LeafSlotOf(|h.data|, i, j) && r[j] == PrefixAt(h, i, top, j + (|h.data| - 1)))
  }

  /** Whatever the down-sweep of subtree `i` leaves behind, thrown or not, each
      slot holds either its old content or the value a complete down-sweep
      writes there: an exception cuts writes short but never corrupts one. */
  lemma {:induction false} PartialWritesAreFinal(v: Variant, h: SumHeap, i: int, top: int, level: int, out: seq<int>)
    requires h.Valid() && 0 <= i < Size(|h.data|)
    ensures PartlyWrittenFrom(h, i, top, out, CalcPrefix(v, h, i, top, level, out).written)
    decreases Size(|h.data|) - i
  {
    var n := |h.data|;
    var r := CalcPrefix(v, h, i, top, level, out);
    if LeafIn(v, n, i) {
      if i - (n - 1) < |out| {
        LeafWrite(h, i, top, out, r.written);
      }
    } else {
      var forked := Forks(v.fork, level);
      var rightTop := top + Value(h, Left(i)).value;
      var first, next := if forked then Right(i) else Left(i), if forked then Left(i) else Right(i);
      var firstTop, nextTop := if forked then rightTop else top, if forked then top else rightTop;
      PartialWritesAreFinal(v, h, first, firstTop, level + 1, out);
      var r1 := CalcPrefix(v, h, first, firstTop, level + 1, out);
      if r1.threw && !forked {
        assert r == r1;
        JoinPartialWrites(h, i, top, forked, out, r1.written, r1.written);
      } else {
        PartialWritesAreFinal(v, h, next, nextTop, level + 1, r1.written);
        var r2 := CalcPrefix(v, h, next, nextTop, level + 1, r1.written);
        assert r.written == r2.written;
        JoinPartialWrites(h, i, top, forked, out, r1.written, r2.written);
      }
    }
  }

  /** Partial writes of the two children, in either order, are partial writes of
      the parent. With `forked` the right child runs first, as in the forking branch. */
  lemma JoinPartialWrites(h: SumHeap, i: int, top: int, forked: bool, out: seq<int>, r1: seq<int>, r2: seq<int>)
    requires h.Valid() && 0 <= i < |h.interior|
    requires PartlyWrittenFrom(h, if forked then Right(i) else Left(i),
                               if forked then top + Value(h, Left(i)).value else top, out, r1)
    requires r2 == r1 || PartlyWrittenFrom(h, if forked then Left(i) else Right(i),
                                           if forked then top else top + Value(h, Left(i)).value, r1, r2)
    ensures PartlyWrittenFrom(h, i, top, out, r2)
  {
    var n := |h.data|;
    forall j | 0 <= j < |out|
      ensures r2[j] == out[j] || (LeafSlotOf(n, i, j) && r2[j] == PrefixAt(h, i, top, j + (n - 1)))
    {
      JoinPartialWriteAt(h, i, top, forked, out, r1, r2, j);
    }
  }

  /** One slot of `JoinPartialWrites`. */
  lemma JoinPartialWriteAt(h: SumHeap, i: int, top: int, forked: bool, out: seq<int>, r1: seq<int>, r2: seq<int>, j: int)
    requires h.Valid() && 0 <= i < |h.interior|
    requires PartlyWrittenFrom(h, if forked then Right(i) else Left(i),
                               if forked then top + Value(h, Left(i)).value else top, out, r1)
    requires r2 == r1 || PartlyWrittenFrom(h, if forked then Left(i) else Right(i),
                                           if forked then top else top + Value(h, Left(i)).value, r1, r2)
    requires 0 <= j < |out|
    ensures r2[j] == out[j] || (LeafSlotOf(|h.data|, i, j) && r2[j] == PrefixAt(h, i, top, j + (|h.data| - 1)))
  {
    PrefixAtChildren(h, i, top, j + (|h.data| - 1));
  }

  /** At a leaf the down-sweep writes its offset plus the leaf's value into the leaf's own slot. */
  lemma LeafWrite(h: SumHeap, i: int, top: int, out: seq<int>, r: seq<int>)
    requires h.Valid() && |h.data| - 1 <= i < Size(|h.data|) && i - (|h.data| - 1) < |out|
    requires r == out[i - (|h.data| - 1) := top + Value(h, i).value]
    ensures WrittenFrom(h, i, top, out, r)
  {
    var n := |h.data|;
    SubtreeOfLeafOrChildren(n, i);
  }

  /** The two children's writes, in either order, make up the parent's. */
  lemma JoinWrites(h: SumHeap, i: int, top: int, forked: bool, out: seq<int>, r1: seq<int>, r2: seq<int>)
    requires h.Valid() && 0 <= i < |h.interior|
    requires WrittenFrom(h, if forked then Right(i) else Left(i),
                         if forked then top + Value(h, Left(i)).value else top, out, r1)
    requires WrittenFrom(h, if forked then Left(i) else Right(i),
                         if forked then top else top + Value(h, Left(i)).value, r1, r2)
    ensures WrittenFrom(h, i, top, out, r2)
  {
    var n := |h.data|;
    forall j | 0 <= j < |out|
      ensures r2[j] == if LeafSlotOf(n, i, j) then PrefixAt(h, i, top, j + (n - 1)) else out[j]
    {
      JoinWriteAt(h, i, top, forked, out, r1, r2, j);
    }
  }

  /** One slot of `JoinWrites`. */
  lemma JoinWriteAt(h: SumHeap, i: int, top: int, forked: bool, out: seq<int>, r1: seq<int>, r2: seq<int>, j: int)
    requires h.Valid() && 0 <= i < |h.interior|
    requires WrittenFrom(h, if forked then Right(i) else Left(i),
                         if forked then top + Value(h, Left(i)).value else top, out, r1)
    requires WrittenFrom(h, if forked then Left(i) else Right(i),
                         if forked then top else top + Value(h, Left(i)).value, r1, r2)
    requires 0 <= j < |out|
    ensures r2[j] == if LeafSlotOf(|h.data|, i, j) then PrefixAt(h, i, top, j + (|h.data| - 1)) else out[j]
  {
    PrefixAtChildren(h, i, top, j + (|h.data| - 1));
  }


  /** When every leaf of subtree `i` has its slot, the down-sweep's outcome
      does not depend on where the forks stop, on the starting level or on the
      join: it throws nothing and writes the same buffer. When both variants
      join with `get()`, they also throw in the same cases for any buffer. */
  lemma DownSweepThresholdFree(v1: Variant, v2: Variant, h: SumHeap, i: int, top: int, level1: int, level2: int, out: seq<int>)
    requires h.Valid() && 0 <= i < Size(|h.data|)
    ensures SubtreeFits(|h.data|, i, |out|) ==> CalcPrefix(v1, h, i, top, level1, out) == CalcPrefix(v2, h, i, top, level2, out)
    ensures v1.join == Get && v2.join == Get ==>
      CalcPrefix(v1, h, i, top, level1, out).threw == CalcPrefix(v2, h, i, top, level2, out).threw
  {
    var r1, r2 := CalcPrefix(v1, h, i, top, level1, out), CalcPrefix(v2, h, i, top, level2, out);
    CalcPrefixWritesOwnLeaves(v1, h, i, top, level1, out);
    CalcPrefixWritesOwnLeaves(v2, h, i, top, level2, out);
    if SubtreeFits(|h.data|, i, |out|) {
      CalcPrefixValues(v1, h, i, top, level1, out);
      CalcPrefixValues(v2, h, i, top, level2, out);
      SameWrites(h, i, top, out, r1.written, r2.written);
    }
  }

  lemma SameWrites(h: SumHeap, i: int, top: int, out: seq<int>, r1: seq<int>, r2: seq<int>)
    requires h.Valid() && 0 <= i < Size(|h.data|)
    requires WrittenFrom(h, i, top, out, r1) && WrittenFrom(h, i, top, out, r2)
    ensures r1 == r2
  {
    assert forall j :: 0 <= j < |r1| ==> r1[j] == r2[j];
  }

  /** `prefixSums` gives the same outcome under every variant, for any leaf
      count, when the buffer has a slot per leaf; and for any buffer when both
      variants join with `get()`. */
  lemma PrefixSumsThresholdFree(v1: Variant, v2: Variant, h: SumHeap, out: seq<int>)
    requires h.Valid()
    ensures |out| >= |h.data| ==> PrefixSums(v1, h, out) == PrefixSums(v2, h, out)
    ensures v1.join == Get && v2.join == Get ==> PrefixSums(v1, h, out) == PrefixSums(v2, h, out)
  {
    RootFits(|h.data|, |out|);
    DownSweepThresholdFree(v1, v2, h, 0, 0, v1.rootLevel, v2.rootLevel, out);
  }

  /** hw2-1 and hw2-2 build the same heap from the same input, for any leaf
      count, and their `prefixSums` give the same outcome on it whenever the
      buffer has a slot per leaf. */
  lemma VariantsAgree(data: seq<int>, out: seq<int>)
    ensures Build(LevelsVariant, data) == Build(ThreadsVariant, data)
    ensures Build(LevelsVariant, data).Success? && |out| >= |data| ==>
      PrefixSums(LevelsVariant, Build(LevelsVariant, data).value, out)
      == PrefixSums(ThreadsVariant, Build(ThreadsVariant, data).value, out)
  {
    if |data| >= 1 {
      UpSweepThresholdFree(LevelsVariant, ThreadsVariant,
        SumHeap(data, seq(|data| - 1, _ => 0)), 0, LevelsVariant.rootLevel, ThreadsVariant.rootLevel);
      PrefixSumsThresholdFree(LevelsVariant, ThreadsVariant, Build(LevelsVariant, data).value, out);
    }
  }
}
