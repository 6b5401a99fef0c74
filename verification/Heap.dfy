/** Heights and depths in an implicit binary tree, which bound what the sift loops cost. */
module HeapShape {
  import opened Sizes

  function Parent(idx: nat): nat
    requires idx > 0
  {
    (idx - 1) / 2
  }

  function Left(idx: nat): nat {
    2 * idx + 1
  }

  function Right(idx: nat): nat {
    2 * idx + 2
  }

  /** The binary logarithm, rounded down. */
  function Log2(n: nat): (k: nat)
    requires n > 0
    ensures Pow2(k) <= n < Pow2(k + 1)
  {
    if n == 1 then 0 else 1 + Log2(n / 2)
  }

  /** The number of edges on the way down from `idx`, always to the left, in a tree of `size` nodes. */
  function Height(idx: nat, size: nat): nat
    decreases size - idx
  {
    if Left(idx) < size then 1 + Height(Left(idx), size) else 0
  }

  function Depth(idx: nat): nat {
    if idx == 0 then 0 else 1 + Depth(Parent(idx))
  }

  function Ones(n: nat): nat {
    if n == 0 then 0 else n % 2 + Ones(n / 2)
  }

  function SumOfHeights(lo: nat, hi: nat, size: nat): nat
    decreases hi - lo
  {
    if lo >= hi then 0 else Height(lo, size) + SumOfHeights(lo + 1, hi, size)
  }

  lemma {:induction false} LeftIsHighest(i: nat, j: nat, size: nat)
    requires i <= j
    ensures Height(j, size) <= Height(i, size)
    decreases size - i
  {
    if Left(j) < size {
      LeftIsHighest(Left(i), Left(j), size);
    }
  }

  /** Cutting the tree in half takes one level off every inner node. */
  lemma {:induction false} HeightHalves(i: nat, size: nat)
    requires i < size / 2
    ensures Height(i, size) == 1 + Height(i, size / 2)
    decreases size - i
  {
    if Left(i) < size / 2 {
      HeightHalves(Left(i), size);
    }
  }

  lemma QuotientShrinks(n: nat, p: nat)
    requires p > 0
    ensures n / p <= n
  {
    MultiplyMonotone(n / p, 1, p);
  }

  /** The nodes of height at least `k` are exactly the first size / 2^k. */
  lemma {:induction false} NodesOfHeight(i: nat, size: nat, k: nat)
    requires i < size
    ensures Height(i, size) >= k <==> i < size / Pow2(k)
  {
    if k > 0 {
      DivideTwice(size, Pow2(k - 1));
      if i < size / 2 {
        HeightHalves(i, size);
        NodesOfHeight(i, size / 2, k - 1);
      } else {
        QuotientShrinks(size / 2, Pow2(k - 1));
      }
    }
  }

  lemma {:induction false} RootHeight(size: nat)
    requires size > 0
    ensures Height(0, size) == Log2(size)
  {
    if size > 1 {
      HeightHalves(0, size);
      RootHeight(size / 2);
    }
  }

  lemma {:induction false} DepthIsLogarithm(idx: nat)
    ensures Depth(idx) == Log2(idx + 1)
  {
    if idx > 0 {
      DepthIsLogarithm(Parent(idx));
      assert (idx + 1) / 2 == Parent(idx) + 1;
    }
  }

  lemma {:induction false} HeightsHalve(lo: nat, size: nat)
    requires lo <= size / 2
    ensures SumOfHeights(lo, size / 2, size) == (size / 2 - lo) + SumOfHeights(lo, size / 2, size / 2)
    decreases size / 2 - lo
  {
    if lo < size / 2 {
      HeightHalves(lo, size);
      HeightsHalve(lo + 1, size);
    }
  }

  lemma {:induction false} LeavesHaveNoHeight(lo: nat, size: nat)
    requires lo <= size
    ensures SumOfHeights(lo, size, size) == SumOfHeights(lo, if lo < size / 2 then size / 2 else lo, size)
    decreases size - lo
  {
    if lo < size {
      LeavesHaveNoHeight(lo + 1, size);
    }
  }

  /** The heights of all nodes add up to the size less the number of ones in its binary notation. */
  lemma {:induction false} HeightsSum(size: nat)
    ensures SumOfHeights(0, size, size) == size - Ones(size)
    ensures size >= 1 ==> Ones(size) >= 1
  {
    if size >= 1 {
      HeightsSum(size / 2);
      HeightsHalve(0, size);
      LeavesHaveNoHeight(0, size);
    }
  }
}

/** `Heap<T>`: a binary heap in a vector. */
module Heaps {
  import opened HeapShape
  import opened Options
  import PQ = PriorityQueues

  datatype HeapType = Max | Min

  /** `>` is `<` with its operands exchanged. */
  ghost predicate Converse<T(!new)>(less: (T, T) -> bool, greater: (T, T) -> bool) {
    forall x, y :: greater(x, y) == less(y, x)
  }

  lemma ConverseIsAnOrder<T(!new)>(less: (T, T) -> bool, greater: (T, T) -> bool)
    requires PQ.StrictWeakOrder(less) && Converse(less, greater)
    ensures PQ.StrictWeakOrder(greater)
  {
    forall x, y, z
      ensures PQ.OrderLaw(greater, x, y, z)
    {
      assert PQ.OrderLaw(less, z, y, x) && PQ.OrderLaw(less, y, x, z) && PQ.OrderLaw(less, x, x, x);
      assert greater(x, x) == less(x, x) && greater(x, y) == less(y, x) && greater(y, z) == less(z, y);
      assert greater(x, z) == less(z, x) && greater(z, y) == less(y, z);
    }
  }

  /** `s[i]` and `s[j]` exchanged. */
  function Swapped<T>(s: seq<T>, i: nat, j: nat): (r: seq<T>)
    requires i < |s| && j < |s|
    ensures |r| == |s| && r[i] == s[j] && r[j] == s[i]
    ensures forall k | 0 <= k < |s| && k != i && k != j :: r[k] == s[k]
  {
    s[i := s[j]][j := s[i]]
  }

  lemma SwappedIsPermutation<T>(s: seq<T>, i: nat, j: nat)
    requires i < |s| && j < |s|
    ensures multiset(Swapped(s, i, j)) == multiset(s)
  {
  }

  /** Dropping the old root from the end of a rearranged heap pops it. */
  lemma DroppingPops<T>(before: (T, T) -> bool, s: seq<T>, rearranged: seq<T>)
    requires s != [] && PQ.IsFirst(before, multiset(s), s[0])
    requires |rearranged| == |s| && multiset(rearranged) == multiset(s) && rearranged[|s| - 1] == s[0]
    ensures PQ.Step(before, multiset(s), PQ.Pop, multiset(rearranged[..|s| - 1]), Some(s[0]))
  {
    assert rearranged == rearranged[..|s| - 1] + [s[0]];
  }

  /** The positions below `lo` and those from `hi` on are as they were. */
  ghost predicate SameOutside<T>(s: seq<T>, r: seq<T>, lo: nat, hi: nat) {
    |r| == |s| && forall k | 0 <= k < |s| && (k < lo || hi <= k) :: r[k] == s[k]
  }

  /** Below `size`, no child whose parent is at least `lo` comes before its parent. */
  ghost predicate OrderedFrom<T>(before: (T, T) -> bool, s: seq<T>, lo: nat, size: nat)
    requires size <= |s|
  {
    forall c | 0 < c < size && lo <= Parent(c) :: !before(s[c], s[Parent(c)])
  }

  ghost predicate HeapOrdered<T>(before: (T, T) -> bool, s: seq<T>) {
    OrderedFrom(before, s, 0, |s|)
  }

  lemma {:induction false} RootIsFirst<T(!new)>(before: (T, T) -> bool, s: seq<T>, i: nat)
    requires PQ.StrictWeakOrder(before) && HeapOrdered(before, s) && i < |s|
    ensures !before(s[i], s[0])
  {
    if i == 0 {
      assert PQ.OrderLaw(before, s[0], s[0], s[0]);
    } else {
      RootIsFirst(before, s, Parent(i));
      assert !before(s[i], s[Parent(i)]);
      assert PQ.OrderLaw(before, s[i], s[0], s[Parent(i)]);
    }
  }

  lemma TopIsFirst<T(!new)>(before: (T, T) -> bool, s: seq<T>)
    requires PQ.StrictWeakOrder(before) && HeapOrdered(before, s) && s != []
    ensures PQ.IsFirst(before, multiset(s), s[0])
  {
    assert s[0] in multiset(s);
    forall y | y in multiset(s)
      ensures !before(y, s[0])
    {
      var i: nat :| i < |s| && s[i] == y;
      RootIsFirst(before, s, i);
    }
  }

  // ---------- sifting down ----------

  /** In order from `start` on, but for `idx` and its children; these fit below the parent of `idx`. */
  ghost predicate SiftingDown<T>(before: (T, T) -> bool, s: seq<T>, start: nat, idx: nat, size: nat)
    requires size <= |s|
  {
    && start <= idx < size
    && (forall c | 0 < c < size && start <= Parent(c) && Parent(c) != idx :: !before(s[c], s[Parent(c)]))
    && (idx > start ==> start <= Parent(idx))
    && (idx > start ==> forall c | 0 < c < size && Parent(c) == idx :: !before(s[c], s[Parent(idx)]))
  }

  /** Exchanging the element with the first of its children moves the disorder down. */
  lemma SiftDownStep<T(!new)>(before: (T, T) -> bool, s: seq<T>, start: nat, idx: nat, next: nat, size: nat)
    requires PQ.StrictWeakOrder(before) && size <= |s| && SiftingDown(before, s, start, idx, size)
    requires next < size && (next == Left(idx) || next == Right(idx)) && before(s[next], s[idx])
    requires forall c | c < size && (c == Left(idx) || c == Right(idx)) :: !before(s[c], s[next])
    ensures SiftingDown(before, Swapped(s, idx, next), start, next, size)
  {
    var r := Swapped(s, idx, next);
    assert PQ.OrderLaw(before, s[next], s[idx], s[next]);
    forall c | 0 < c < size && start <= Parent(c) && Parent(c) != next
      ensures !before(r[c], r[Parent(c)])
    {
      if Parent(c) == idx {
        assert c == Left(idx) || c == Right(idx);
      } else if c == idx {
        assert !before(s[next], s[Parent(idx)]);
      } else {
        assert !before(s[c], s[Parent(c)]);
      }
    }
    assert Parent(next) == idx;
    forall c | 0 < c < size && Parent(c) == next
      ensures !before(r[c], r[idx])
    {
      assert !before(s[c], s[Parent(c)]);
    }
  }

  /** The child that the two comparisons of a round choose. */
  lemma NextIsFirst<T(!new)>(before: (T, T) -> bool, s: seq<T>, idx: nat, next: nat, size: nat)
    requires PQ.StrictWeakOrder(before) && Left(idx) < size <= |s|
    requires var kept := if before(s[Left(idx)], s[idx]) then Left(idx) else idx;
             next == if Right(idx) < size && before(s[Right(idx)], s[kept]) then Right(idx) else kept
    ensures next != idx ==> before(s[next], s[idx])
    ensures forall c | c < size && (c == Left(idx) || c == Right(idx)) :: !before(s[c], s[next])
  {
    var l, r := s[Left(idx)], if Right(idx) < size then s[Right(idx)] else s[idx];
    assert PQ.OrderLaw(before, r, l, s[idx]) && PQ.OrderLaw(before, l, r, l) && PQ.OrderLaw(before, l, r, s[idx]);
  }

  lemma SiftDownDone<T>(before: (T, T) -> bool, s: seq<T>, start: nat, idx: nat, size: nat)
    requires size <= |s| && SiftingDown(before, s, start, idx, size)
    requires forall c | c < size && (c == Left(idx) || c == Right(idx)) :: !before(s[c], s[idx])
    ensures OrderedFrom(before, s, start, size)
  {
  }

  // ---------- sifting up ----------

  /** In order but for `idx`, whose children fit below its parent. */
  ghost predicate SiftingUp<T>(before: (T, T) -> bool, s: seq<T>, idx: nat) {
    && idx < |s|
    && (forall c | 0 < c < |s| && c != idx :: !before(s[c], s[Parent(c)]))
    && (idx > 0 ==> forall c | 0 < c < |s| && Parent(c) == idx :: !before(s[c], s[Parent(idx)]))
  }

  lemma SiftUpStep<T(!new)>(before: (T, T) -> bool, s: seq<T>, idx: nat)
    requires PQ.StrictWeakOrder(before) && SiftingUp(before, s, idx) && idx > 0
    requires before(s[idx], s[Parent(idx)])
    ensures SiftingUp(before, Swapped(s, idx, Parent(idx)), Parent(idx))
  {
    var parent := Parent(idx);
    var r := Swapped(s, idx, parent);
    forall c | 0 < c < |r| && c != parent
      ensures !before(r[c], r[Parent(c)])
    {
      if c == idx {
        assert PQ.OrderLaw(before, s[idx], s[parent], s[idx]);
      } else {
        assert !before(s[c], s[Parent(c)]);
        assert PQ.OrderLaw(before, s[c], s[idx], s[parent]);
      }
    }
    if parent > 0 {
      forall c | 0 < c < |r| && Parent(c) == parent
        ensures !before(r[c], r[Parent(parent)])
      {
        assert !before(s[parent], s[Parent(parent)]);
        if c != idx {
          assert !before(s[c], s[parent]);
          assert PQ.OrderLaw(before, s[c], s[Parent(parent)], s[parent]);
        }
      }
    }
  }

  class Heap<T(!new, ==)> {
    const heapType: HeapType
    const less: (T, T) -> bool
    const greater: (T, T) -> bool
    var storage: seq<T>
    ghost var swaps: nat        // exchanges made so far
    ghost var comparisons: nat  // comparator calls made so far

    /** Which of two elements is to come out first. */
    function Before(): (T, T) -> bool {
      if heapType.Min? then less else greater
    }

    /** `<` orders the elements and `>` is its converse. */
    ghost predicate Ordering() {
      PQ.StrictWeakOrder(less) && Converse(less, greater)
    }

    ghost predicate Valid()
      reads this
    {
      Ordering() && HeapOrdered(Before(), storage)
    }

    ghost function Contents(): multiset<T>
      reads this
    {
      multiset(storage)
    }

    lemma BeforeIsAnOrder()
      requires Ordering()
      ensures PQ.StrictWeakOrder(Before())
    {
      ConverseIsAnOrder(less, greater);
    }

    /** What comes out first, in terms of `<`. */
    lemma FirstByLess(bag: multiset<T>, x: T)
      requires Ordering() && PQ.IsFirst(Before(), bag, x)
      ensures x in bag && forall y | y in bag :: if heapType.Min? then !less(y, x) else !less(x, y)
    {
    }

    lemma PopTakesFirst(bag: multiset<T>, after: multiset<T>, value: Option<T>)
      requires Ordering() && PQ.Step(Before(), bag, PQ.Pop, after, value) && |bag| > 0
      ensures value.Some? && bag == after + multiset{value.value}
      ensures forall y | y in after :: if heapType.Min? then !less(y, value.value) else !less(value.value, y)
    {
      FirstByLess(bag, value.value);
    }

    constructor (less: (T, T) -> bool, greater: (T, T) -> bool, heapType: HeapType)
      requires PQ.StrictWeakOrder(less) && Converse(less, greater)
      ensures Valid() && Contents() == multiset{}
      ensures this.less == less && this.greater == greater && this.heapType == heapType
      ensures swaps == 0 && comparisons == 0
    {
      this.less, this.greater, this.heapType := less, greater, heapType;
      storage, swaps, comparisons := [], 0, 0;
    }

    method Swap(lhs: nat, rhs: nat)
      requires lhs < |storage| && rhs < |storage|
      modifies this`storage, this`swaps
      ensures storage == Swapped(old(storage), lhs, rhs) && swaps == old(swaps) + 1
      ensures Contents() == old(Contents())
    {
      SwappedIsPermutation(storage, lhs, rhs);
      storage := Swapped(storage, lhs, rhs);
      swaps := swaps + 1;
    }

    method Comparator(lhs: nat, rhs: nat) returns (r: bool)
      requires lhs < |storage| && rhs < |storage|
      modifies this`comparisons
      ensures r == Before()(storage[lhs], storage[rhs]) && comparisons == old(comparisons) + 1
      ensures r == if heapType.Min? then less(storage[lhs], storage[rhs]) else greater(storage[lhs], storage[rhs])
    {
      comparisons := comparisons + 1;
      if heapType == Min {
        return less(storage[lhs], storage[rhs]);
      } else {
        return greater(storage[lhs], storage[rhs]);
      }
    }

    /** The comparisons of one round: a node, or the child of it that is to be above both others. */
    method FirstOfThree(idx: nat, size: nat) returns (next: nat)
      requires Ordering() && Left(idx) < size <= |storage|
      modifies this`comparisons
      ensures comparisons <= old(comparisons) + 2
      ensures next < size && (next == idx || next == Left(idx) || next == Right(idx))
      ensures next != idx ==> Before()(storage[next], storage[idx])
      ensures forall c | c < size && (c == Left(idx) || c == Right(idx)) :: !Before()(storage[c], storage[next])
    {
      BeforeIsAnOrder();
      next := idx;
      var leftFirst := Comparator(Left(idx), idx);
      if leftFirst {
        next := Left(idx);
      }
      var right := Right(idx);
      if right < size {
        var rightFirst := Comparator(right, next);
        if rightFirst {
          next := right;
        }
      }
      NextIsFirst(Before(), storage, idx, next, size);
    }

    /** Sifts the element at `start` down among the first `size` ones. */
    method Heapify(start: nat, size: nat)
      requires Ordering() && start < size <= |storage|
      requires OrderedFrom(Before(), storage, start + 1, size)
      modifies this`storage, this`swaps, this`comparisons
      ensures |storage| == old(|storage|) && OrderedFrom(Before(), storage, start, size)
      ensures Contents() == old(Contents())
      ensures SameOutside(old(storage), storage, start, size)
      ensures swaps <= old(swaps) + Height(start, size)
      ensures comparisons <= old(comparisons) + 2 * Height(start, size)
    {
      BeforeIsAnOrder();
      var idx := start;
      var left := Left(idx);
      while left < size
        invariant |storage| == old(|storage|) && left == Left(idx)
        invariant SiftingDown(Before(), storage, start, idx, size)
        invariant Contents() == old(Contents())
        invariant SameOutside(old(storage), storage, start, size)
        invariant swaps + Height(idx, size) <= old(swaps) + Height(start, size)
        invariant comparisons + 2 * Height(idx, size) <= old(comparisons) + 2 * Height(start, size)
        decreases size - idx
      {
        var next := FirstOfThree(idx, size);
        if next != idx {
          LeftIsHighest(Left(idx), next, size);
          SiftDownStep(Before(), storage, start, idx, next, size);
          Swap(idx, next);
          idx := next;
          left := Left(idx);
        } else {
          SiftDownDone(Before(), storage, start, idx, size);
          return;
        }
      }
      SiftDownDone(Before(), storage, start, idx, size);
    }

    /** Floyd's construction: sifts every inner node down, from the last to the root. */
    method Build()
      requires Ordering()
      modifies this`storage, this`swaps, this`comparisons
      ensures Valid() && Contents() == old(Contents())
      ensures swaps <= old(swaps) + |storage| - Ones(|storage|)
      ensures comparisons <= old(comparisons) + 2 * (|storage| - Ones(|storage|))
    {
      var size := |storage|;
      var idx: int := size / 2 - 1;
      HeightsSum(size);
      LeavesHaveNoHeight(0, size);
      while idx >= 0
        invariant -1 <= idx < size && |storage| == size
        invariant idx < size / 2
        invariant Contents() == old(Contents())
        invariant OrderedFrom(Before(), storage, idx + 1, size)
        invariant swaps <= old(swaps) + SumOfHeights(idx + 1, size / 2, size)
        invariant comparisons <= old(comparisons) + 2 * SumOfHeights(idx + 1, size / 2, size)
      {
        Heapify(idx, size);
        idx := idx - 1;
      }
    }

    /** Heapifies a list in place, within a linear number of steps. */
    constructor FromList(list: seq<T>, less: (T, T) -> bool, greater: (T, T) -> bool, heapType: HeapType)
      requires PQ.StrictWeakOrder(less) && Converse(less, greater)
      ensures Valid() && Contents() == multiset(list)
      ensures this.less == less && this.greater == greater && this.heapType == heapType
      ensures swaps <= |list| - Ones(|list|)
      ensures comparisons <= 2 * (|list| - Ones(|list|))
      ensures list != [] ==> swaps < |list| && comparisons <= 2 * |list| - 2
    {
      this.less, this.greater, this.heapType := less, greater, heapType;
      storage, swaps, comparisons := list, 0, 0;
      new;
      Build();
      HeightsSum(|list|);
    }

    method Clear()
      requires Valid()
      modifies this`storage
      ensures Valid() && Contents() == multiset{}
    {
      storage := [];
    }

    method Top() returns (value: Option<T>)
      requires Valid()
      ensures value.None? <==> Contents() == multiset{}
      ensures value.Some? ==> value.value in Contents() && forall y | y in Contents() ::
                if heapType.Min? then !less(y, value.value) else !less(value.value, y)
      ensures PQ.Step(Before(), Contents(), PQ.Top, Contents(), value)
    {
      if |storage| == 0 {
        return None;
      }
      BeforeIsAnOrder();
      TopIsFirst(Before(), storage);
      FirstByLess(Contents(), storage[0]);
      return Some(storage[0]);
    }

    /** Sifts the element at `start` up; everything else is in order. */
    method SiftUp(start: nat)
      requires Ordering() && start == |storage| - 1
      requires OrderedFrom(Before(), storage, 0, start)
      modifies this`storage, this`swaps, this`comparisons
      ensures Valid() && Contents() == old(Contents())
      ensures swaps <= old(swaps) + Depth(start)
      ensures comparisons <= old(comparisons) + Depth(start)
    {
      BeforeIsAnOrder();
      var idx := start;
      while idx > 0
        invariant SiftingUp(Before(), storage, idx) && Contents() == old(Contents())
        invariant swaps + Depth(idx) <= old(swaps) + Depth(start)
        invariant comparisons + Depth(idx) <= old(comparisons) + Depth(start)
      {
        var parent := Parent(idx);
        var first := Comparator(idx, parent);
        if !first {
          break;
        }
        SiftUpStep(Before(), storage, idx);
        Swap(idx, parent);
        idx := parent;
      }
    }

    /** Makes at most log2(n + 1) comparisons on n elements. */
    method Push(value: T)
      requires Valid()
      modifies this`storage, this`swaps, this`comparisons
      ensures Valid() && Contents() == old(Contents()) + multiset{value}
      ensures comparisons <= old(comparisons) + Log2(old(|storage|) + 1)
    {
      storage := storage + [value];
      assert Contents() == old(Contents()) + multiset{value};
      DepthIsLogarithm(|storage| - 1);
      SiftUp(|storage| - 1);
    }

    /** Exchanges the root with the last element, and sifts down what is at the root now. */
    method RootToEnd(last: nat)
      requires Valid() && 0 < last == |storage| - 1
      modifies this`storage, this`swaps, this`comparisons
      ensures |storage| == last + 1 && Contents() == old(Contents()) && storage[last] == old(storage[0])
      ensures OrderedFrom(Before(), storage, 0, last)
      ensures comparisons <= old(comparisons) + 2 * Log2(last)
    {
      RootHeight(last);
      Swap(0, last);
      Heapify(0, last);
    }

    /** Makes no comparison on fewer than two elements, and at most 2 log2(n - 1) on n. */
    method Pop() returns (value: Option<T>)
      requires Valid()
      modifies this`storage, this`swaps, this`comparisons
      ensures Valid()
      ensures value.None? <==> old(Contents()) == multiset{}
      ensures value.None? ==> Contents() == multiset{}
      ensures value.Some? ==> old(Contents()) == Contents() + multiset{value.value} && forall y | y in Contents() ::
                if heapType.Min? then !less(y, value.value) else !less(value.value, y)
      ensures PQ.Step(Before(), old(Contents()), PQ.Pop, Contents(), value)
      ensures comparisons <= old(comparisons) + if old(|storage|) < 2 then 0 else 2 * Log2(old(|storage|) - 1)
    {
      var size := |storage|;
      if size < 1 {
        return None;
      }
      BeforeIsAnOrder();
      TopIsFirst(Before(), storage);
      ghost var s := storage;
      size := size - 1;
      if size > 0 {
        RootToEnd(size);
      }
      value := Some(storage[size]);
      DroppingPops(Before(), s, storage);
      PopTakesFirst(multiset(s), multiset(storage[..size]), value);
      storage := storage[..size];
    }

    /** One operation of a priority queue. */
    method Perform(op: PQ.Operation<T>) returns (reply: Option<T>)
      requires Valid()
      modifies this`storage, this`swaps, this`comparisons
      ensures Valid() && PQ.Step(Before(), old(Contents()), op, Contents(), reply)
    {
      match op
      case Push(value) =>
        Push(value);
        reply := None;
      case Pop => reply := Pop();
      case Top => reply := Top();
      case Clear =>
        Clear();
        reply := None;
    }

    /** Any sequence of operations is a run of a priority queue over the contents. */
    method PerformAll(ops: seq<PQ.Operation<T>>) returns (replies: seq<Option<T>>, ghost bags: seq<multiset<T>>)
      requires Valid()
      modifies this`storage, this`swaps, this`comparisons
      ensures Valid() && PQ.Run(Before(), bags, ops, replies)
      ensures bags[0] == old(Contents()) && bags[|ops|] == Contents()
    {
      replies, bags := [], [Contents()];
      for k := 0 to |ops|
        invariant Valid() && |replies| == k && |bags| == k + 1
        invariant bags[0] == old(Contents()) && bags[k] == Contents()
        invariant forall i | 0 <= i < k :: PQ.Step(Before(), bags[i], ops[i], bags[i + 1], replies[i])
      {
        var reply := Perform(ops[k]);
        replies, bags := replies + [reply], bags + [Contents()];
      }
    }
  }

  // ---------- two ways to fill a heap ----------

  method PushAll<T(!new, ==)>(heap: Heap<T>, list: seq<T>)
    requires heap.Valid()
    modifies heap`storage, heap`swaps, heap`comparisons
    ensures heap.Valid() && heap.Contents() == old(heap.Contents()) + multiset(list)
  {
    for k := 0 to |list|
      invariant heap.Valid() && heap.Contents() == old(heap.Contents()) + multiset(list[..k])
    {
      heap.Push(list[k]);
      assert list[..k + 1] == list[..k] + [list[k]];
    }
    assert list[..|list|] == list;
  }

  /** Nothing in the bag comes before an element of `s`. */
  ghost predicate NoneBefore<T>(before: (T, T) -> bool, bag: multiset<T>, s: seq<T>) {
    forall i, y | 0 <= i < |s| && y in bag :: !before(y, s[i])
  }

  lemma NextInOrder<T>(before: (T, T) -> bool, bag: multiset<T>, s: seq<T>, x: T)
    requires PQ.Sorted(before, s) && NoneBefore(before, bag, s) && PQ.IsFirst(before, bag, x)
    ensures PQ.Sorted(before, s + [x]) && NoneBefore(before, bag - multiset{x}, s + [x])
    ensures multiset(s + [x]) + (bag - multiset{x}) == multiset(s) + bag
  {
  }

  /** Pops until nothing is left. */
  method Drain<T(!new, ==)>(heap: Heap<T>) returns (sorted: seq<T>)
    requires heap.Valid()
    modifies heap`storage, heap`swaps, heap`comparisons
    ensures heap.Valid() && heap.Contents() == multiset{}
    ensures multiset(sorted) == old(heap.Contents())
    ensures forall i, j | 0 <= i < j < |sorted| ::
              if heap.heapType.Min? then !heap.less(sorted[j], sorted[i]) else !heap.less(sorted[i], sorted[j])
  {
    sorted := [];
    heap.BeforeIsAnOrder();
    while |heap.storage| > 0
      invariant heap.Valid()
      invariant multiset(sorted) + heap.Contents() == old(heap.Contents())
      invariant PQ.Sorted(heap.Before(), sorted)
      invariant NoneBefore(heap.Before(), heap.Contents(), sorted)
      decreases |heap.Contents()|
    {
      ghost var contents := heap.Contents();
      var value := heap.Pop();
      NextInOrder(heap.Before(), contents, sorted, value.value);
      sorted := sorted + [value.value];
    }
  }

  /** A heap built from a list and one filled by pushing the same elements in another order answer
      every sequence of operations alike. */
  method BuildVersusPush<T(!new, ==)>(list: seq<T>, other: seq<T>, less: (T, T) -> bool, greater: (T, T) -> bool,
                                      heapType: HeapType, ops: seq<PQ.Operation<T>>)
    returns (built: seq<Option<T>>, pushed: seq<Option<T>>)
    requires PQ.StrictWeakOrder(less) && Converse(less, greater)
    requires multiset(list) == multiset(other)
    ensures |built| == |pushed| == |ops|
    ensures forall i | 0 <= i < |ops| ::
              if built[i].None? then pushed[i].None?
              else pushed[i].Some? && !less(built[i].value, pushed[i].value) && !less(pushed[i].value, built[i].value)
  {
    var a := new Heap.FromList(list, less, greater, heapType);
    var b := new Heap(less, greater, heapType);
    PushAll(b, other);
    a.BeforeIsAnOrder();
    ghost var bagsA, bagsB;
    built, bagsA := a.PerformAll(ops);
    pushed, bagsB := b.PerformAll(ops);
    ghost var before := if heapType.Min? then less else greater;
    assert a.Before() == before && b.Before() == before;
    assert bagsA[0] == bagsB[0];
    PQ.RepliesAreDetermined(before, ops, bagsA, bagsB, built, pushed);
  }
}
