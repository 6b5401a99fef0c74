/** `NPDispatchScheduleThrottle`: the signals processed on its serial queue, and the callbacks it submits. */
module Throttle {
  /** The last of the first `n` signals that a throttle answers, or -1: it answers the first one, and then
      every one that comes at least `delay` after the one answered last. */
  ghost function LastAnswered(delay: real, times: seq<real>, n: nat): (last: int)
    requires n <= |times|
    ensures -1 <= last < n
  {
    if n == 0 then -1
    else
      var last := LastAnswered(delay, times, n - 1);
      if last < 0 || times[n - 1] - times[last] >= delay then n - 1 else last
  }

  /** All that it answers of the first `n` signals. */
  ghost function Answered(delay: real, times: seq<real>, n: nat): (g: seq<nat>)
    requires n <= |times|
    ensures forall k | 0 <= k < |g| :: g[k] < n
    ensures g == [] <==> LastAnswered(delay, times, n) < 0
    ensures g != [] ==> g[|g| - 1] == LastAnswered(delay, times, n)
  {
    if n == 0 then []
    else
      var g := Answered(delay, times, n - 1);
      if LastAnswered(delay, times, n) == n - 1 then g + [n - 1] else g
  }

  /** Later signals do not change what has been answered. */
  lemma {:induction false} AnsweredStays(delay: real, times: seq<real>, longer: seq<real>, n: nat)
    requires n <= |times| <= |longer| && forall i | 0 <= i < n :: times[i] == longer[i]
    ensures LastAnswered(delay, longer, n) == LastAnswered(delay, times, n)
    ensures Answered(delay, longer, n) == Answered(delay, times, n)
  {
    if n > 0 {
      AnsweredStays(delay, times, longer, n - 1);
    }
  }

  /** The private state of a throttle, updated by each signal on the serial queue. */
  class Throttle {
    const delay: real
    var hasFired: bool
    var previous: real
    ghost var times: seq<real>  // when the signals so far were processed

    ghost predicate Valid()
      reads this
    {
      var last := LastAnswered(delay, times, |times|);
      hasFired == (last >= 0) && (hasFired ==> previous == times[last])
    }

    constructor (delay: real)
      ensures Valid() && times == [] && this.delay == delay
    {
      this.delay, hasFired, previous, times := delay, false, 0.0, [];
    }

    /** Returns whether the callback is submitted. */
    method OnSignal(timestamp: real) returns (submitted: bool)
      requires Valid()
      modifies this
      ensures Valid() && times == old(times) + [timestamp]
      ensures submitted <==> LastAnswered(delay, times, |times|) == |old(times)|
    {
      AnsweredStays(delay, times, times + [timestamp], |times|);
      times := times + [timestamp];
      submitted := !hasFired || timestamp - previous >= delay;
      if submitted {
        hasFired := true;
        previous := timestamp;
      }
    }

    /** All signals that a new throttle gets; returns which of them submit the callback. */
    method Process(signals: seq<real>) returns (answered: seq<nat>)
      requires Valid() && times == []
      modifies this
      ensures Valid() && times == signals && answered == Answered(delay, signals, |signals|)
    {
      answered := [];
      for k := 0 to |signals|
        invariant Valid() && |times| == k && forall i | 0 <= i < k :: times[i] == signals[i]
        invariant answered == Answered(delay, signals, k)
      {
        var submitted := OnSignal(signals[k]);
        AnsweredStays(delay, times, signals, k + 1);
        if submitted {
          answered := answered + [k];
        }
      }
    }
  }

  // ---------- what the greedy choice achieves ----------

  /** The clock is monotonic. */
  ghost predicate Monotonic(times: seq<real>) {
    forall i, j | 0 <= i <= j < |times| :: times[i] <= times[j]
  }

  /** Position `k` of a choice comes at least `delay` after position `k - 1`. */
  ghost predicate Apart(delay: real, times: seq<real>, chosen: seq<nat>, k: nat)
    requires 0 < k < |chosen| && chosen[k - 1] < |times| && chosen[k] < |times|
  {
    chosen[k - 1] < chosen[k] && times[chosen[k]] - times[chosen[k - 1]] >= delay
  }

  /** A choice of signals with at least `delay` between one and the next. */
  ghost predicate Spaced(delay: real, times: seq<real>, chosen: seq<nat>) {
    && (forall k | 0 <= k < |chosen| :: chosen[k] < |times|)
    && (forall k | 0 < k < |chosen| :: Apart(delay, times, chosen, k))
  }

  lemma SpacedButLast(delay: real, times: seq<real>, chosen: seq<nat>)
    requires chosen != [] && forall k | 0 <= k < |chosen| :: chosen[k] < |times|
    ensures Spaced(delay, times, chosen) <==>
              Spaced(delay, times, chosen[..|chosen| - 1])
              && (|chosen| > 1 ==> Apart(delay, times, chosen, |chosen| - 1))
  {
    var m := |chosen| - 1;
    forall k | 0 < k < m
      ensures Apart(delay, times, chosen[..m], k) <==> Apart(delay, times, chosen, k)
    {
    }
  }

  lemma SpacedWithOneMore(delay: real, times: seq<real>, chosen: seq<nat>, i: nat)
    requires Spaced(delay, times, chosen) && i < |times|
    requires chosen != [] ==> chosen[|chosen| - 1] < i && times[i] - times[chosen[|chosen| - 1]] >= delay
    ensures Spaced(delay, times, chosen + [i])
  {
    SpacedButLast(delay, times, chosen + [i]);
    assert (chosen + [i])[..|chosen|] == chosen;
  }

  lemma {:induction false} AnsweredIsSpaced(delay: real, times: seq<real>, n: nat)
    requires n <= |times|
    ensures Spaced(delay, times, Answered(delay, times, n))
    ensures n > 0 ==> Answered(delay, times, n) != [] && Answered(delay, times, n)[0] == 0
  {
    if n > 0 {
      AnsweredIsSpaced(delay, times, n - 1);
      if LastAnswered(delay, times, n) == n - 1 {
        SpacedWithOneMore(delay, times, Answered(delay, times, n - 1), n - 1);
      }
    }
  }

  lemma {:induction false} AscendingIndices(delay: real, times: seq<real>, chosen: seq<nat>)
    requires Spaced(delay, times, chosen)
    ensures forall i, j | 0 <= i < j < |chosen| :: chosen[i] < chosen[j]
  {
    if chosen != [] {
      var m := |chosen| - 1;
      SpacedButLast(delay, times, chosen);
      AscendingIndices(delay, times, chosen[..m]);
      assert m > 0 ==> Apart(delay, times, chosen, m);
    }
  }

  /** One choice is at least as large as another, and where they are equally large it ends no later. */
  predicate NoWorse(g: seq<nat>, chosen: seq<nat>) {
    && |chosen| <= |g|
    && (chosen != [] && |chosen| == |g| ==> g[|g| - 1] <= chosen[|g| - 1])
  }

  /** Where another choice takes the last signal, the throttle is ahead already or takes it too. */
  lemma TakingTheLast(delay: real, times: seq<real>, chosen: seq<nat>, n: nat)
    requires 0 < n <= |times| && Monotonic(times) && chosen != []
    requires forall k | 0 <= k < |chosen| :: chosen[k] < n
    requires chosen[|chosen| - 1] == n - 1
    requires |chosen| > 1 ==> Apart(delay, times, chosen, |chosen| - 1)
    requires NoWorse(Answered(delay, times, n - 1), chosen[..|chosen| - 1])
    ensures NoWorse(Answered(delay, times, n), chosen)
  {
    var g, m := Answered(delay, times, n - 1), |chosen| - 1;
    if |g| == m > 0 {
      assert times[g[m - 1]] <= times[chosen[m - 1]];
    }
  }

  lemma {:induction false} AnsweredIsNoWorse(delay: real, times: seq<real>, chosen: seq<nat>, n: nat)
    requires n <= |times| && Monotonic(times)
    requires Spaced(delay, times, chosen) && forall k | 0 <= k < |chosen| :: chosen[k] < n
    ensures NoWorse(Answered(delay, times, n), chosen)
  {
    if chosen != [] {
      var m := |chosen| - 1;
      AscendingIndices(delay, times, chosen);
      SpacedButLast(delay, times, chosen);
      if chosen[m] == n - 1 {
        AnsweredIsNoWorse(delay, times, chosen[..m], n - 1);
        TakingTheLast(delay, times, chosen, n);
      } else {
        AnsweredIsNoWorse(delay, times, chosen, n - 1);
      }
    }
  }

  /** No choice of sufficiently spaced signals is larger than the throttle's, and one of the same size
      does not end earlier. */
  lemma AnsweredIsLargest(delay: real, times: seq<real>, chosen: seq<nat>, n: nat)
    requires n <= |times| && Monotonic(times)
    requires Spaced(delay, times, chosen) && forall k | 0 <= k < |chosen| :: chosen[k] < n
    ensures var g := Answered(delay, times, n);
            && |chosen| <= |g|
            && (chosen != [] && |chosen| == |g| ==> g[|g| - 1] <= chosen[|chosen| - 1])
  {
    AnsweredIsNoWorse(delay, times, chosen, n);
  }

  /** At most one callback per window: any two answered signals are at least `delay` apart. */
  lemma AtMostOncePerWindow(delay: real, times: seq<real>, i: nat, j: nat)
    requires Monotonic(times)
    requires i < j < |Answered(delay, times, |times|)|
    ensures var g := Answered(delay, times, |times|); times[g[j]] - times[g[i]] >= delay
  {
    var g := Answered(delay, times, |times|);
    AnsweredIsSpaced(delay, times, |times|);
    AscendingIndices(delay, times, g);
    assert Apart(delay, times, g, j);
    assert g[i] <= g[j - 1];
  }

  /** A signal is dropped only within `delay` of an answered one before it. */
  lemma {:induction false} DroppedWithinWindow(delay: real, times: seq<real>, n: nat, k: nat) returns (a: nat)
    requires k < n <= |times| && k !in Answered(delay, times, n)
    ensures a in Answered(delay, times, n) && a < k && times[k] - times[a] < delay
  {
    if k == n - 1 {
      var g := Answered(delay, times, n - 1);
      a := g[|g| - 1];
      assert a in g;
    } else {
      a := DroppedWithinWindow(delay, times, n - 1, k);
    }
  }
}
