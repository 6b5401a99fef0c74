/** What a priority queue is, whatever it is implemented with: a bag of elements of which the first
    in some strict weak order comes out next. */
module PriorityQueues {
  import opened Options

  /** Irreflexivity, transitivity, and transitivity of incomparability, for three elements. */
  predicate OrderLaw<T>(before: (T, T) -> bool, x: T, y: T, z: T) {
    && !before(x, x)
    && (before(x, y) && before(y, z) ==> before(x, z))
    && (before(x, y) ==> before(x, z) || before(z, y))
  }

  ghost predicate StrictWeakOrder<T(!new)>(before: (T, T) -> bool) {
    forall x, y, z {:trigger OrderLaw(before, x, y, z)} :: OrderLaw(before, x, y, z)
  }

  /** Ordering by a number is such an order. */
  lemma OrderByKey<T(!new)>(key: T -> int)
    ensures StrictWeakOrder((x: T, y: T) => key(x) < key(y))
    ensures StrictWeakOrder((x: T, y: T) => key(x) > key(y))
  {
    var less, greater := (x: T, y: T) => key(x) < key(y), (x: T, y: T) => key(x) > key(y);
    forall x, y, z
      ensures OrderLaw(less, x, y, z) && OrderLaw(greater, x, y, z)
    {
    }
  }

  /** Neither comes before the other. */
  predicate Equivalent<T>(before: (T, T) -> bool, x: T, y: T) {
    !before(x, y) && !before(y, x)
  }

  predicate IsFirst<T(==)>(before: (T, T) -> bool, bag: multiset<T>, x: T) {
    x in bag && forall y | y in bag :: !before(y, x)
  }

  datatype Operation<T> = Push(value: T) | Pop | Top | Clear

  /** What one operation may do to the bag and may answer. */
  ghost predicate Step<T>(before: (T, T) -> bool, bag: multiset<T>, op: Operation<T>,
                          after: multiset<T>, reply: Option<T>) {
    match op
    case Push(x) => after == bag + multiset{x} && reply == None
    case Pop =>
      if |bag| == 0 then after == bag && reply == None
      else reply.Some? && IsFirst(before, bag, reply.value) && after == bag - multiset{reply.value}
    case Top =>
      && after == bag
      && if |bag| == 0 then reply == None else reply.Some? && IsFirst(before, bag, reply.value)
    case Clear => after == multiset{} && reply == None
  }

  /** A run of operations: `bags` are the contents before, between and after them. */
  ghost predicate Run<T>(before: (T, T) -> bool, bags: seq<multiset<T>>, ops: seq<Operation<T>>,
                         replies: seq<Option<T>>) {
    && |bags| == |ops| + 1 && |replies| == |ops|
    && forall i | 0 <= i < |ops| :: Step(before, bags[i], ops[i], bags[i + 1], replies[i])
  }

  // ---------- the replies do not depend on the implementation ----------

  ghost function Pick<T>(bag: multiset<T>): (y: T)
    requires |bag| > 0
    ensures y in bag
  {
    var y :| y in bag; y
  }

  /** How many elements of the bag come before `x`. */
  ghost function Below<T>(before: (T, T) -> bool, bag: multiset<T>, x: T): nat
    decreases |bag|
  {
    if |bag| == 0 then 0
    else
      var y := Pick(bag);
      Below(before, bag - multiset{y}, x) + (if before(y, x) then 1 else 0)
  }

  lemma RemoveTwo<T>(bag: multiset<T>, y: T, z: T)
    requires y in bag && z in bag && y != z
    ensures y in bag - multiset{z} && z in bag - multiset{y}
    ensures bag - multiset{z} - multiset{y} == bag - multiset{y} - multiset{z}
    ensures |bag - multiset{z}| < |bag| && |bag - multiset{y}| < |bag|
  {
  }

  /** The count does not depend on the order in which elements are taken. */
  lemma {:induction false} BelowWithout<T>(before: (T, T) -> bool, bag: multiset<T>, x: T, y: T)
    requires y in bag
    ensures Below(before, bag, x) == Below(before, bag - multiset{y}, x) + (if before(y, x) then 1 else 0)
    decreases |bag|
  {
    var z := Pick(bag);
    if z != y {
      RemoveTwo(bag, y, z);
      BelowWithout(before, bag - multiset{z}, x, y);
      BelowWithout(before, bag - multiset{y}, x, z);
    }
  }

  /** Two bags that look alike to the order. */
  ghost predicate Alike<T(!new)>(before: (T, T) -> bool, a: multiset<T>, b: multiset<T>) {
    |a| == |b| && forall x :: Below(before, a, x) == Below(before, b, x)
  }

  lemma {:induction false} NothingBelowTheFirst<T>(before: (T, T) -> bool, bag: multiset<T>, x: T)
    ensures Below(before, bag, x) == 0 <==> forall y | y in bag :: !before(y, x)
    decreases |bag|
  {
    if |bag| > 0 {
      var z :| z in bag;
      BelowWithout(before, bag, x, z);
      NothingBelowTheFirst(before, bag - multiset{z}, x);
      forall y | y in bag && y != z
        ensures y in bag - multiset{z}
      {
      }
    }
  }

  lemma FirstsAreEquivalent<T(!new)>(before: (T, T) -> bool, a: multiset<T>, b: multiset<T>, x: T, y: T)
    requires Alike(before, a, b)
    requires IsFirst(before, a, x) && IsFirst(before, b, y)
    ensures Equivalent(before, x, y)
  {
    NothingBelowTheFirst(before, a, x);
    NothingBelowTheFirst(before, b, x);
    NothingBelowTheFirst(before, a, y);
    NothingBelowTheFirst(before, b, y);
  }

  lemma RemoveEquivalents<T(!new)>(before: (T, T) -> bool, a: multiset<T>, b: multiset<T>, x: T, y: T)
    requires StrictWeakOrder(before) && Alike(before, a, b)
    requires x in a && y in b && Equivalent(before, x, y)
    ensures Alike(before, a - multiset{x}, b - multiset{y})
  {
    forall z
      ensures Below(before, a - multiset{x}, z) == Below(before, b - multiset{y}, z)
    {
      BelowWithout(before, a, z, x);
      BelowWithout(before, b, z, y);
      assert OrderLaw(before, x, z, y) && OrderLaw(before, y, z, x);
    }
  }

  ghost predicate SameReply<T>(before: (T, T) -> bool, a: Option<T>, b: Option<T>) {
    if a.None? || b.None? then a == b else Equivalent(before, a.value, b.value)
  }

  lemma BelowWith<T>(before: (T, T) -> bool, bag: multiset<T>, x: T, z: T)
    ensures Below(before, bag + multiset{x}, z) == Below(before, bag, z) + if before(x, z) then 1 else 0
  {
    BelowWithout(before, bag + multiset{x}, z, x);
    assert bag + multiset{x} - multiset{x} == bag;
  }

  lemma PushAlike<T(!new)>(before: (T, T) -> bool, a: multiset<T>, b: multiset<T>, x: T)
    requires Alike(before, a, b)
    ensures Alike(before, a + multiset{x}, b + multiset{x})
  {
    forall z
      ensures Below(before, a + multiset{x}, z) == Below(before, b + multiset{x}, z)
    {
      BelowWith(before, a, x, z);
      BelowWith(before, b, x, z);
    }
  }

  lemma StepsAlike<T(!new)>(before: (T, T) -> bool, a: multiset<T>, b: multiset<T>, op: Operation<T>,
                            a': multiset<T>, b': multiset<T>, r: Option<T>, s: Option<T>)
    requires StrictWeakOrder(before) && Alike(before, a, b)
    requires Step(before, a, op, a', r) && Step(before, b, op, b', s)
    ensures Alike(before, a', b') && SameReply(before, r, s)
  {
    match op
    case Push(x) => PushAlike(before, a, b, x);
    case Pop =>
      if |a| > 0 {
        FirstsAreEquivalent(before, a, b, r.value, s.value);
        RemoveEquivalents(before, a, b, r.value, s.value);
      }
    case Top =>
      if |a| > 0 {
        FirstsAreEquivalent(before, a, b, r.value, s.value);
      }
    case Clear =>
  }

  /** A priority queue has no freedom a caller could observe: the same operations on alike contents
      get replies that are equivalent position by position, however ties are broken inside. */
  lemma {:induction false} RepliesAreDetermined<T(!new)>(before: (T, T) -> bool, ops: seq<Operation<T>>,
                                                         bagsA: seq<multiset<T>>, bagsB: seq<multiset<T>>,
                                                         repliesA: seq<Option<T>>, repliesB: seq<Option<T>>)
    requires StrictWeakOrder(before)
    requires Run(before, bagsA, ops, repliesA) && Run(before, bagsB, ops, repliesB)
    requires Alike(before, bagsA[0], bagsB[0])
    ensures forall i | 0 <= i < |ops| :: SameReply(before, repliesA[i], repliesB[i])
    ensures Alike(before, bagsA[|ops|], bagsB[|ops|])
  {
    if ops != [] {
      var n := |ops| - 1;
      RepliesAreDetermined(before, ops[..n], bagsA[..n + 1], bagsB[..n + 1], repliesA[..n], repliesB[..n]);
      StepsAlike(before, bagsA[n], bagsB[n], ops[n], bagsA[n + 1], bagsB[n + 1], repliesA[n], repliesB[n]);
    }
  }

  /** In an order without ties the replies are the same. */
  lemma WithoutTiesRepliesAreEqual<T(!new)>(before: (T, T) -> bool, ops: seq<Operation<T>>,
                                            bagsA: seq<multiset<T>>, bagsB: seq<multiset<T>>,
                                            repliesA: seq<Option<T>>, repliesB: seq<Option<T>>)
    requires StrictWeakOrder(before) && forall x, y :: before(x, y) || before(y, x) || x == y
    requires Run(before, bagsA, ops, repliesA) && Run(before, bagsB, ops, repliesB)
    requires bagsA[0] == bagsB[0]
    ensures repliesA == repliesB
  {
    RepliesAreDetermined(before, ops, bagsA, bagsB, repliesA, repliesB);
    forall i | 0 <= i < |ops|
      ensures repliesA[i] == repliesB[i]
    {
      assert SameReply(before, repliesA[i], repliesB[i]);
    }
  }

  // ---------- popping everything sorts ----------

  ghost predicate Sorted<T>(before: (T, T) -> bool, s: seq<T>) {
    forall i, j | 0 <= i < j < |s| :: !before(s[j], s[i])
  }

  ghost predicate AllPops<T>(ops: seq<Operation<T>>) {
    forall i | 0 <= i < |ops| :: ops[i].Pop?
  }

  lemma OneMore<T>(s: seq<T>, k: nat, bag: multiset<T>, rest: multiset<T>, total: multiset<T>)
    requires 0 < k <= |s| && multiset(s[..k - 1]) + bag == total && rest + multiset{s[k - 1]} == bag
    ensures multiset(s[..k]) + rest == total && |rest| == |bag| - 1
  {
    assert s[..k] == s[..k - 1] + [s[k - 1]];
  }

  lemma PopTakes<T>(before: (T, T) -> bool, bags: seq<multiset<T>>, ops: seq<Operation<T>>,
                    replies: seq<Option<T>>, i: nat)
    requires Run(before, bags, ops, replies) && AllPops(ops) && i < |ops| && |bags[i]| > 0
    ensures replies[i].Some? && IsFirst(before, bags[i], replies[i].value)
    ensures bags[i + 1] + multiset{replies[i].value} == bags[i]
  {
    assert ops[i].Pop? && Step(before, bags[i], ops[i], bags[i + 1], replies[i]);
  }

  /** After `k` pops the first `k` replies and the rest of the bag make up the original contents. */
  lemma {:induction false} PopsConserve<T>(before: (T, T) -> bool, bags: seq<multiset<T>>, ops: seq<Operation<T>>,
                                           replies: seq<Option<T>>, s: seq<T>, k: nat)
    requires Run(before, bags, ops, replies) && AllPops(ops) && |ops| == |bags[0]| == |s| && k <= |ops|
    requires forall i | 0 <= i < |s| :: replies[i].Some? ==> s[i] == replies[i].value
    ensures |bags[k]| == |bags[0]| - k
    ensures multiset(s[..k]) + bags[k] == bags[0]
  {
    if k == 0 {
      assert s[..0] == [];
    } else {
      PopsConserve(before, bags, ops, replies, s, k - 1);
      PopTakes(before, bags, ops, replies, k - 1);
      OneMore(s, k, bags[k - 1], bags[k], bags[0]);
    }
  }

  lemma {:induction false} BagsShrink<T>(before: (T, T) -> bool, bags: seq<multiset<T>>, ops: seq<Operation<T>>,
                                         replies: seq<Option<T>>, i: nat, j: nat)
    requires Run(before, bags, ops, replies) && AllPops(ops) && i <= j <= |ops|
    ensures bags[j] <= bags[i]
  {
    if i < j {
      BagsShrink(before, bags, ops, replies, i, j - 1);
      assert ops[j - 1].Pop? && Step(before, bags[j - 1], ops[j - 1], bags[j], replies[j - 1]);
    }
  }

  lemma RepliesAreFirsts<T>(before: (T, T) -> bool, bags: seq<multiset<T>>, ops: seq<Operation<T>>,
                            replies: seq<Option<T>>, s: seq<T>, i: nat)
    requires Run(before, bags, ops, replies) && AllPops(ops) && |ops| == |bags[0]| == |s| && i < |s|
    requires forall k | 0 <= k < |s| :: replies[k].Some? ==> s[k] == replies[k].value
    ensures replies[i] == Some(s[i]) && IsFirst(before, bags[i], s[i])
  {
    PopsConserve(before, bags, ops, replies, s, i);
    PopTakes(before, bags, ops, replies, i);
  }

  /** Popping as often as there are elements gives all elements in order. */
  lemma PoppingSorts<T>(before: (T, T) -> bool, bags: seq<multiset<T>>, ops: seq<Operation<T>>,
                        replies: seq<Option<T>>, s: seq<T>)
    requires Run(before, bags, ops, replies) && AllPops(ops) && |ops| == |bags[0]| == |s|
    requires forall i | 0 <= i < |s| :: replies[i].Some? ==> s[i] == replies[i].value
    ensures forall i | 0 <= i < |s| :: replies[i] == Some(s[i])
    ensures multiset(s) == bags[0] && forall i, j | 0 <= i < j < |s| :: !before(s[j], s[i])
  {
    PopsConserve(before, bags, ops, replies, s, |s|);
    assert s[..|s|] == s;
    forall i | 0 <= i < |s|
      ensures replies[i] == Some(s[i])
    {
      RepliesAreFirsts(before, bags, ops, replies, s, i);
    }
    forall i, j | 0 <= i < j < |s|
      ensures !before(s[j], s[i])
    {
      RepliesAreFirsts(before, bags, ops, replies, s, i);
      RepliesAreFirsts(before, bags, ops, replies, s, j);
      BagsShrink(before, bags, ops, replies, i, j);
    }
  }
}
