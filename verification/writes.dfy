/**
 The slots each sweep writes, in the order it writes them. The up-sweep
 assigns `interior[i]` once its two children are done; the down-sweep
 assigns `output.at(i - (n - 1))` at each leaf. Over the whole tree every
 interior slot and every output slot is written exactly once, so the forked
 calls never write the same slot. The up-sweep is its trace carried out in
 order, and so is the down-sweep when every leaf has its slot in the buffer.
 */
module Writes {
  import opened Heaper
  import opened Subtree
  import opened Sweeps
  import opened Schedule

  /** The interior slots `calcSum(i, level)` assigns, in order. */
  function SumWrites(v: Variant, n: int, i: int, level: int): seq<int>
    requires n >= 1 && 0 <= i < Size(n)
    decreases Size(n) - i
  {
    if LeafIn(v, n, i) then []
    else
      var forked := Forks(v.fork, level);
      SumWrites(v, n, if forked then Right(i) else Left(i), level + 1)
        + SumWrites(v, n, if forked then Left(i) else Right(i), level + 1)
        + [i]
  }

  /** `calcSum(i, level)` writes each interior slot of subtree `i` exactly once and no other slot. */
  lemma {:induction false} SumWritesOnce(v: Variant, n: int, i: int, level: int)
    requires n >= 1 && 0 <= i < Size(n)
    ensures forall j :: multiset(SumWrites(v, n, i, level))[j] == if 0 <= j < n - 1 && InSubtree(i, j) then 1 else 0
    decreases Size(n) - i
  {
    var w := SumWrites(v, n, i, level);
    if LeafIn(v, n, i) {
      forall j | 0 <= j < n - 1 && InSubtree(i, j)
        ensures false
      {
        SubtreeBelowRoot(i, j);
      }
    } else {
      SumWritesOnce(v, n, Left(i), level + 1);
      SumWritesOnce(v, n, Right(i), level + 1);
      var a, b := SumWrites(v, n, Left(i), level + 1), SumWrites(v, n, Right(i), level + 1);
      assert multiset(w) == multiset(a) + multiset(b) + multiset{i};
      JoinSumCounts(n, i, a, b, w);
    }
  }

  /** An interior node's writes are its own slot plus its two children's, in either order. */
  lemma JoinSumCounts(n: int, i: nat, a: seq<int>, b: seq<int>, w: seq<int>)
    requires i < n - 1
    requires multiset(w) == multiset(a) + multiset(b) + multiset{i}
    requires forall j :: multiset(a)[j] == if 0 <= j < n - 1 && InSubtree(Left(i), j) then 1 else 0
    requires forall j :: multiset(b)[j] == if 0 <= j < n - 1 && InSubtree(Right(i), j) then 1 else 0
    ensures forall j :: multiset(w)[j] == if 0 <= j < n - 1 && InSubtree(i, j) then 1 else 0
  {
    forall j
      ensures multiset(w)[j] == if 0 <= j < n - 1 && InSubtree(i, j) then 1 else 0
    {
      if 0 <= j {
        SubtreeChildren(i, j);
        ChildrenDisjoint(i, j);
      }
    }
  }

  /** From the root, the constructor's up-sweep writes every one of the `n - 1` interior slots exactly once. */
  lemma UpSweepWritesEachSlotOnce(v: Variant, n: int)
    requires n >= 1
    ensures forall j :: multiset(SumWrites(v, n, 0, v.rootLevel))[j] == if 0 <= j < n - 1 then 1 else 0
  {
    SumWritesOnce(v, n, 0, v.rootLevel);
    forall j | 0 <= j {
      RootCoversAll(j);
    }
  }

  /** The up-sweep's assignment `interior[i] = value(left(i)) + value(right(i))`,
      reading both children from the heap as it stands. */
  function SumStep(h: SumHeap, i: int): (r: SumHeap)
    requires h.Valid() && 0 <= i < |h.interior|
    ensures r.Valid() && r.data == h.data
    ensures forall j :: 0 <= j < |r.interior| && j != i ==> r.interior[j] == h.interior[j]
  {
    h.(interior := h.interior[i := Value(h, Left(i)).value + Value(h, Right(i)).value])
  }

  /** Carry out the writes `w` in order, each one a `SumStep` on the heap left by
      the writes before it; slots outside `w` keep their contents. */
  function Replay(h: SumHeap, w: seq<int>): (r: SumHeap)
    requires h.Valid() && forall m :: 0 <= m < |w| ==> 0 <= w[m] < |h.interior|
    ensures r.Valid() && r.data == h.data
    ensures forall j :: 0 <= j < |r.interior| && j !in w ==> r.interior[j] == h.interior[j]
    decreases |w|
  {
    if w == [] then h
    else
      var r := Replay(SumStep(h, w[0]), w[1..]);
      assert forall j :: j in w <==> j == w[0] || j in w[1..];
      r
  }

  /** Replaying two lists of writes one after the other is replaying their concatenation. */
  lemma {:induction false} ReplayAppend(h: SumHeap, a: seq<int>, b: seq<int>)
    requires h.Valid() && forall m :: 0 <= m < |a + b| ==> 0 <= (a + b)[m] < |h.interior|
    ensures forall m :: 0 <= m < |a| ==> 0 <= a[m] < |h.interior|
    ensures forall m :: 0 <= m < |b| ==> 0 <= b[m] < |h.interior|
    ensures Replay(h, a + b) == Replay(Replay(h, a), b)
    decreases |a|
  {
    assert forall m :: 0 <= m < |a| ==> a[m] == (a + b)[m];
    assert forall m :: 0 <= m < |b| ==> b[m] == (a + b)[|a| + m];
    if a != [] {
      assert (a + b)[1..] == a[1..] + b;
      ReplayAppend(SumStep(h, a[0]), a[1..], b);
    } else {
      assert a + b == b;
    }
  }

  /** The slots in the up-sweep's trace of subtree `i` are its interior nodes. */
  lemma SumTraceSlots(v: Variant, n: int, i: int, level: int)
    requires n >= 1 && 0 <= i < Size(n)
    ensures forall j :: j in SumWrites(v, n, i, level) <==> 0 <= j < n - 1 && InSubtree(i, j)
    ensures forall m :: 0 <= m < |SumWrites(v, n, i, level)| ==> 0 <= SumWrites(v, n, i, level)[m] < n - 1
  {
    var w := SumWrites(v, n, i, level);
    SumWritesOnce(v, n, i, level);
    forall j
      ensures j in w <==> 0 <= j < n - 1 && InSubtree(i, j)
    {
      assert j in w <==> j in multiset(w);
    }
    assert forall m :: 0 <= m < |w| ==> w[m] in w;
  }

  /** The up-sweep of subtree `i` is exactly its trace of writes carried out in
      order, each write adding the children's values as they stand at that moment. */
  lemma {:induction false} CalcSumReplaysTrace(v: Variant, h: SumHeap, i: int, level: int)
    requires h.Valid() && 0 <= i < Size(|h.data|)
    ensures forall m :: 0 <= m < |SumWrites(v, |h.data|, i, level)| ==>
      0 <= SumWrites(v, |h.data|, i, level)[m] < |h.interior|
    ensures CalcSum(v, h, i, level) == Replay(h, SumWrites(v, |h.data|, i, level))
    decreases Size(|h.data|) - i
  {
    var n := |h.data|;
    SumTraceSlots(v, n, i, level);
    if !LeafIn(v, n, i) {
      var forked := Forks(v.fork, level);
      var first, second := if forked then Right(i) else Left(i), if forked then Left(i) else Right(i);
      var a := CalcSum(v, h, first, level + 1);
      var h' := CalcSum(v, a, second, level + 1);
      var wa, wb := SumWrites(v, n, first, level + 1), SumWrites(v, n, second, level + 1);
      assert SumWrites(v, n, i, level) == wa + wb + [i];
      JoinSums(h, a, h', i, first, second);
      assert CalcSum(v, h, i, level) == ParentWrite(h, h', i);
      ParentWriteIsSumStep(h, h', i);
      CalcSumReplaysTrace(v, h, first, level + 1);
      CalcSumReplaysTrace(v, a, second, level + 1);
      ReplayJoin(h, wa, wb, i);
    }
  }

  /** The up-sweep's final assignment at node `i` is the source's `SumStep`. */
  lemma ParentWriteIsSumStep(h: SumHeap, h': SumHeap, i: int)
    requires h.Valid() && h'.Valid() && h'.data == h.data
    requires 0 <= i < |h.interior|
    requires forall j :: 0 <= j < |h'.interior| ==>
        h'.interior[j] == if InSubtree(Left(i), j) || InSubtree(Right(i), j) then SubtreeSum(h.data, j) else h.interior[j]
    ensures ParentWrite(h, h', i) == SumStep(h', i)
  { }

  /** The trace of an interior node replays its first child's writes, then its
      second child's on the heap they leave, then its own `SumStep`. */
  lemma ReplayJoin(h: SumHeap, wa: seq<int>, wb: seq<int>, i: int)
    requires h.Valid() && 0 <= i < |h.interior|
    requires forall m :: 0 <= m < |wa| ==> 0 <= wa[m] < |h.interior|
    requires forall m :: 0 <= m < |wb| ==> 0 <= wb[m] < |h.interior|
    ensures forall m :: 0 <= m < |wa + wb + [i]| ==> 0 <= (wa + wb + [i])[m] < |h.interior|
    ensures Replay(h, wa + wb + [i]) == SumStep(Replay(Replay(h, wa), wb), i)
  {
    var w := wa + wb + [i];
    assert forall m :: 0 <= m < |w| ==> w[m] == if m < |wa| then wa[m] else if m < |wa| + |wb| then wb[m - |wa|] else i;
    ReplayAppend(h, wa + wb, [i]);
    ReplayAppend(h, wa, wb);
    var h' := Replay(Replay(h, wa), wb);
    assert Replay(h', [i]) == SumStep(h', i);
  }

  /** The output slots `calcPrefix(i, top, level, output)` assigns, in order. */
  function PrefixWrites(v: Variant, n: int, i: int, level: int): seq<int>
    requires n >= 1 && 0 <= i < Size(n)
    decreases Size(n) - i
  {
    if LeafIn(v, n, i) then [i - (n - 1)]
    else
      var forked := Forks(v.fork, level);
      PrefixWrites(v, n, if forked then Right(i) else Left(i), level + 1)
        + PrefixWrites(v, n, if forked then Left(i) else Right(i), level + 1)
  }

  /** `calcPrefix(i, …)` writes the output slot of each leaf of subtree `i` exactly once and no other slot. */
  lemma {:induction false} PrefixWritesOnce(v: Variant, n: int, i: int, level: int)
    requires n >= 1 && 0 <= i < Size(n)
    ensures forall j :: multiset(PrefixWrites(v, n, i, level))[j] == if LeafSlotOf(n, i, j) then 1 else 0
    decreases Size(n) - i
  {
    var w := PrefixWrites(v, n, i, level);
    if LeafIn(v, n, i) {
      SubtreeOfLeafOrChildren(n, i);
      assert forall j :: LeafSlotOf(n, i, j) <==> j == i - (n - 1);
    } else {
      PrefixWritesOnce(v, n, Left(i), level + 1);
      PrefixWritesOnce(v, n, Right(i), level + 1);
      var a, b := PrefixWrites(v, n, Left(i), level + 1), PrefixWrites(v, n, Right(i), level + 1);
      assert multiset(w) == multiset(a) + multiset(b);
      JoinPrefixCounts(n, i, a, b, w);
    }
  }

  /** An interior node's leaf slots are its two children's, in either order. */
  lemma JoinPrefixCounts(n: int, i: nat, a: seq<int>, b: seq<int>, w: seq<int>)
    requires i < n - 1
    requires multiset(w) == multiset(a) + multiset(b)
    requires forall j :: multiset(a)[j] == if LeafSlotOf(n, Left(i), j) then 1 else 0
    requires forall j :: multiset(b)[j] == if LeafSlotOf(n, Right(i), j) then 1 else 0
    ensures forall j :: multiset(w)[j] == if LeafSlotOf(n, i, j) then 1 else 0
  {
    SubtreeOfLeafOrChildren(n, i);
    forall j
      ensures multiset(w)[j] == if LeafSlotOf(n, i, j) then 1 else 0
    {
      if 0 <= j {
        ChildrenDisjoint(i, j + (n - 1));
      }
    }
  }

  /** Every output slot `0 .. n - 1` belongs to a leaf under the root. */
  lemma RootLeafSlots(n: int)
    ensures forall j :: LeafSlotOf(n, 0, j) <==> 0 <= j < n
  {
    forall j | 0 <= j < n
      ensures LeafSlotOf(n, 0, j)
    {
      RootCoversAll(j + (n - 1));
    }
  }

  /** Carry out the down-sweep writes `w` of subtree `i` from offset `top` in
      order: each sets its output slot to the value `PrefixAt` gives its leaf. */
  ghost function ReplayPrefix(h: SumHeap, i: int, top: int, out: seq<int>, w: seq<int>): (r: seq<int>)
    requires h.Valid() && 0 <= i < Size(|h.data|)
    requires forall m :: 0 <= m < |w| ==> 0 <= w[m] < |out|
    ensures |r| == |out|
    ensures forall j :: 0 <= j < |out| ==>
      r[j] == if j in w then PrefixAt(h, i, top, j + (|h.data| - 1)) else out[j]
    decreases |w|
  {
    if w == [] then out
    else
      var r := ReplayPrefix(h, i, top, out[w[0] := PrefixAt(h, i, top, w[0] + (|h.data| - 1))], w[1..]);
      assert forall j :: j in w <==> j == w[0] || j in w[1..];
      r
  }

  /** The slots in the down-sweep's trace of subtree `i` are its leaves' slots. */
  lemma PrefixTraceSlots(v: Variant, n: int, i: int, level: int)
    requires n >= 1 && 0 <= i < Size(n)
    ensures forall j :: j in PrefixWrites(v, n, i, level) <==> LeafSlotOf(n, i, j)
    ensures forall m :: 0 <= m < |PrefixWrites(v, n, i, level)| ==> 0 <= PrefixWrites(v, n, i, level)[m] < n
  {
    var w := PrefixWrites(v, n, i, level);
    PrefixWritesOnce(v, n, i, level);
    forall j
      ensures j in w <==> LeafSlotOf(n, i, j)
    {
      assert j in w <==> j in multiset(w);
    }
    assert forall m :: 0 <= m < |w| ==> w[m] in w;
  }

  /** When every leaf of subtree `i` has its slot, the down-sweep of the
      subtree is exactly its trace of writes carried out in order, each with
      the value `PrefixAt` gives. */
  lemma CalcPrefixReplaysTrace(v: Variant, h: SumHeap, i: int, top: int, level: int, out: seq<int>)
    requires h.Valid() && 0 <= i < Size(|h.data|)
    ensures SubtreeFits(|h.data|, i, |out|) ==> forall m :: 0 <= m < |PrefixWrites(v, |h.data|, i, level)| ==>
      0 <= PrefixWrites(v, |h.data|, i, level)[m] < |out|
    ensures SubtreeFits(|h.data|, i, |out|) ==>
      CalcPrefix(v, h, i, top, level, out) == Sweep(ReplayPrefix(h, i, top, out, PrefixWrites(v, |h.data|, i, level)), false)
  {
    var n := |h.data|;
    var w := PrefixWrites(v, n, i, level);
    PrefixTraceSlots(v, n, i, level);
    if SubtreeFits(n, i, |out|) {
      assert forall j :: LeafSlotOf(n, i, j) ==> j < |out|;
      forall m | 0 <= m < |w|
        ensures w[m] < |out|
      {
        assert w[m] in w;
      }
      CalcPrefixValues(v, h, i, top, level, out);
      PrefixReplayAgrees(h, i, top, out, w, CalcPrefix(v, h, i, top, level, out).written, ReplayPrefix(h, i, top, out, w));
    }
  }

  /** Two buffers that both set exactly the slots of `w`, the leaf slots of
      subtree `i`, to their `PrefixAt` values are the same buffer. */
  lemma PrefixReplayAgrees(h: SumHeap, i: int, top: int, out: seq<int>, w: seq<int>, r1: seq<int>, r2: seq<int>)
    requires h.Valid() && 0 <= i < Size(|h.data|)
    requires forall j :: j in w <==> LeafSlotOf(|h.data|, i, j)
    requires WrittenFrom(h, i, top, out, r1)
    requires |r2| == |out| && forall j :: 0 <= j < |out| ==>
      r2[j] == if j in w then PrefixAt(h, i, top, j + (|h.data| - 1)) else out[j]
    ensures r1 == r2
  {
    assert forall j :: 0 <= j < |r1| ==> r1[j] == r2[j];
  }

  /** From the root, `prefixSums` writes each of the output slots `0 .. n - 1`
      exactly once and no other slot. It returns normally whenever every slot
      it writes exists in the buffer; when every join rethrows, only then. */
  lemma DownSweepWritesEachSlotOnce(v: Variant, h: SumHeap, out: seq<int>)
    requires h.Valid()
    ensures forall j :: multiset(PrefixWrites(v, |h.data|, 0, v.rootLevel))[j] == if 0 <= j < |h.data| then 1 else 0
    ensures (forall j :: j in PrefixWrites(v, |h.data|, 0, v.rootLevel) ==> j < |out|) ==> PrefixSums(v, h, out).Success?
    ensures v.join == Get ==>
      (PrefixSums(v, h, out).Success? <==> forall j :: j in PrefixWrites(v, |h.data|, 0, v.rootLevel) ==> j < |out|)
  {
    var n := |h.data|;
    var w := PrefixWrites(v, n, 0, v.rootLevel);
    PrefixWritesOnce(v, n, 0, v.rootLevel);
    RootLeafSlots(n);
    assert multiset(w)[n - 1] == 1;
    assert n - 1 in multiset(w);
    forall j | j in w
      ensures 0 <= j < n
    {
      assert j in multiset(w);
    }
    assert (forall j :: j in w ==> j < |out|) <==> n <= |out| by {
      if n <= |out| {
        assert forall j :: j in w ==> j < |out|;
      } else {
        assert n - 1 in w && !(n - 1 < |out|);
      }
    }
  }
}
