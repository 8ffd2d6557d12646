/**
 The implicit complete binary tree of class `Heaper`: a flat index space of
 `2n - 1` nodes over `n` data leaves. Indices below `n - 1` are interior nodes
 stored in `interior`; index `i >= n - 1` is leaf `i - (n - 1)` of `data`.
 */
module Heaper {

  /** The two exceptions the C++ code can raise: `std::length_error` when the
      interior vector of `n - 1` slots is allocated with `n == 0`, and
      `std::out_of_range` from a `vector::at` call with a bad index. */
  datatype HeapError = LengthError | OutOfRange

  /** Outcome of an operation that may throw one of the above. */
  datatype Result<+T> = Success(value: T) | Failure(error: HeapError)

  /** C++ `int` division by two, which truncates toward zero (Dafny's `/` is Euclidean). */
  function Half(a: int): int {
    if a >= 0 then a / 2 else -((-a) / 2)
  }

  /** `size()`: the number of nodes in the flattened tree over `n` leaves. */
  function Size(n: int): int {
    (n - 1) + n
  }

  /** The index space ends just past the right child of the last interior node,
      and holds the `n - 1` interior nodes followed by the `n` leaves. */
  lemma SizeEndsAtLastChild(n: int)
    requires n >= 1
    ensures Size(n) == Right(n - 2) + 1
    ensures Size(n) - (n - 1) == n
  {
  }

  function Left(i: int): (r: int)
    ensures i >= 0 ==> r > i
    ensures Parent(r) == i
  {
    2 * i + 1
  }

  /** `right` as written in hw2-2 (`2i + 2`); hw2-1 writes it as `left(i) + 1`. */
  function Right(i: int): (r: int)
    ensures r == Left(i) + 1
    ensures i >= 0 ==> Parent(r) == i
  {
    2 * i + 2
  }

  /** `(i - 1) / 2` with C++ truncation, so the root is its own parent. */
  function Parent(i: int): (r: int)
    ensures i == 0 ==> r == 0
    ensures i >= 1 ==> 0 <= r < i && (i == 2 * r + 1 || i == 2 * r + 2)
  {
    Half(i - 1)
  }

  /** The leaf test of hw2-2: everything from index `n - 1` on is a leaf. */
  function IsLeaf(n: int, i: int): (r: bool)
    ensures 0 <= i && !r ==> Right(i) < Size(n)
    ensures 0 <= i < Size(n) && r ==> 0 <= i - (n - 1) < n
  {
    i >= n - 1
  }

  /** The leaf test of hw2-1: a node is a leaf when its right child falls off the
      end of the index space. It agrees with the hw2-2 test for every `n` and `i`. */
  function IsLeafByRight(n: int, i: int): (r: bool)
    ensures r <==> IsLeaf(n, i)
  {
    Right(i) >= Size(n)
  }

  /** The largest C++ `int`, which holds every index in both source files. */
  const IntMax := 0x7fff_ffff

  /** hw2-1's leaf test evaluates `right(i)` as an `int` at every node the
      sweeps visit, leaves included; no such evaluation overflows exactly when
      there are at most `2^29` leaves. */
  lemma RightChildFitsInt(n: int)
    requires n >= 1
    ensures (forall i :: 0 <= i < Size(n) ==> Right(i) <= IntMax) <==> n <= 0x2000_0000
  {
    if n > 0x2000_0000 {
      assert Right(Size(n) - 1) > IntMax;
    }
  }

  /** hw2-2 evaluates `left(i)` and `right(i)` only at interior nodes (its leaf
      test is `i >= n - 1`, and it never calls `size()`), so the widest index it
      computes is `right(n - 2) == 2n - 2`; every such index fits in an `int`
      exactly when there are at most `2^30` leaves. */
  lemma InteriorChildrenFitInt(n: int)
    requires n >= 1
    ensures (forall i :: 0 <= i < n - 1 ==> Right(i) <= IntMax) <==> n <= 0x4000_0000
  {
    if n > 0x4000_0000 {
      assert Right(n - 2) > IntMax;
    }
  }

  /** The state of a `SumHeap`: the borrowed input and the owned interior sums. */
  datatype SumHeap = SumHeap(data: seq<int>, interior: seq<int>) {
    predicate Valid() {
      |data| >= 1 && |interior| == |data| - 1
    }
  }

  /** `value(i)`: an interior slot or an input leaf; `at()` throws outside the index space. */
  function Value(h: SumHeap, i: int): (r: Result<int>)
    requires h.Valid()
    ensures r.Success? <==> 0 <= i < Size(|h.data|)
    ensures r.Success? && IsLeaf(|h.data|, i) ==> r.value == h.data[i - (|h.data| - 1)]
    ensures r.Success? && !IsLeaf(|h.data|, i) ==> r.value == h.interior[i]
  {
    var n := |h.data|;
    if i < n - 1 then
      (if 0 <= i then Success(h.interior[i]) else Failure(OutOfRange))
    else
      (if i - (n - 1) < n then Success(h.data[i - (n - 1)]) else Failure(OutOfRange))
  }
}
