/** `NPDispatchScheduleDebounce`: many one-shot timers, arbitrated by a generation number and a cancel
    flag, behave like one deadline that every signal resets. */
module Debounce {
  import opened Options

  /** What runs on the private serial queue, and when. `Timer(g, _)` is the event handler of the timer
      that the `g`-th signal started. */
  datatype Event = Signal(now: real) | Cancel(now: real) | Timer(generation: nat, now: real)

  /** The captured variables, and the deadlines of the timers that have not fired. */
  datatype State = State(canceled: bool, generation: nat, timers: map<nat, real>)

  const INITIAL := State(false, 0, map[])

  function AfterSignal(s: State, delay: real, now: real): State {
    State(false, s.generation + 1, s.timers[s.generation + 1 := now + delay])
  }

  function AfterCancel(s: State): State {
    s.(canceled := true)
  }

  function AfterTimer(s: State, g: nat): State {
    s.(timers := s.timers - {g})
  }

  predicate Submits(s: State, e: Event) {
    e.Timer? && !s.canceled && e.generation == s.generation
  }

  function Step(s: State, delay: real, e: Event): State {
    match e
    case Signal(now) => AfterSignal(s, delay, now)
    case Cancel(_) => AfterCancel(s)
    case Timer(g, _) => AfterTimer(s, g)
  }

  /** A timer fires once, at its deadline or later. */
  predicate Enabled(s: State, e: Event) {
    e.Timer? ==> e.generation in s.timers && s.timers[e.generation] <= e.now
  }

  // ---------- runs ----------

  function StateAt(delay: real, es: seq<Event>, k: nat): State
    requires k <= |es|
  {
    if k == 0 then INITIAL else Step(StateAt(delay, es, k - 1), delay, es[k - 1])
  }

  ghost predicate EnabledAt(delay: real, es: seq<Event>, k: nat)
    requires k < |es|
  {
    Enabled(StateAt(delay, es, k), es[k])
  }

  ghost predicate IsRun(delay: real, es: seq<Event>) {
    forall k | 0 <= k < |es| :: EnabledAt(delay, es, k)
  }

  ghost predicate SubmitsAt(delay: real, es: seq<Event>, k: nat) {
    k < |es| && Submits(StateAt(delay, es, k), es[k])
  }

  /** Which of the first `k` events submit the callback. */
  ghost function Submissions(delay: real, es: seq<Event>, k: nat): (fires: seq<bool>)
    requires k <= |es|
    ensures |fires| == k && forall i | 0 <= i < k :: fires[i] == SubmitsAt(delay, es, i)
  {
    if k == 0 then [] else Submissions(delay, es, k - 1) + [SubmitsAt(delay, es, k - 1)]
  }

  /** How many of the first `k` events are signals; the `g`-th signal starts timer `g`. */
  function Signals(es: seq<Event>, k: nat): nat
    requires k <= |es|
  {
    if k == 0 then 0 else Signals(es, k - 1) + if es[k - 1].Signal? then 1 else 0
  }

  /** Event `j` is the signal that started timer `g`. */
  predicate Started(es: seq<Event>, j: nat, g: nat) {
    j < |es| && es[j].Signal? && Signals(es, j + 1) == g
  }

  /** Neither a signal nor a cancel strictly between `j` and `k`. */
  predicate Quiet(es: seq<Event>, j: nat, k: nat)
    requires k <= |es|
  {
    forall i | j < i < k :: es[i].Timer?
  }

  /** The private state of a debounce. */
  class Debounce {
    const delay: real
    var canceled: bool
    var generation: nat
    var timers: map<nat, real>

    ghost function Value(): State
      reads this
    {
      State(canceled, generation, timers)
    }

    constructor (delay: real)
      ensures Value() == INITIAL && this.delay == delay
    {
      this.delay, canceled, generation, timers := delay, false, 0, map[];
    }

    method OnSignal(now: real)
      modifies this
      ensures Value() == AfterSignal(old(Value()), delay, now)
    {
      canceled := false;
      generation := generation + 1;
      var current := generation;
      timers := timers[current := now + delay];
    }

    method OnCancel()
      modifies this`canceled
      ensures Value() == AfterCancel(old(Value()))
    {
      canceled := true;
    }

    /** The event handler of one timer; returns whether the callback is submitted. */
    method OnTimer(current: nat, ghost now: real) returns (submitted: bool)
      requires Enabled(Value(), Timer(current, now))
      modifies this`timers
      ensures Value() == AfterTimer(old(Value()), current)
      ensures submitted == Submits(old(Value()), Timer(current, now))
    {
      timers := timers - {current};
      submitted := !canceled && current == generation;
    }

    /** Everything the serial queue runs; `fires` says where the callback is submitted. */
    method Process(es: seq<Event>) returns (fires: seq<bool>)
      requires Value() == INITIAL && IsRun(delay, es)
      modifies this
      ensures Value() == StateAt(delay, es, |es|)
      ensures fires == Submissions(delay, es, |es|)
    {
      fires := [];
      for k := 0 to |es|
        invariant Value() == StateAt(delay, es, k) && fires == Submissions(delay, es, k)
      {
        assert EnabledAt(delay, es, k);
        var submitted := false;
        match es[k] {
          case Signal(now) => OnSignal(now);
          case Cancel(_) => OnCancel();
          case Timer(g, now) => submitted := OnTimer(g, now);
        }
        fires := fires + [submitted];
      }
    }
  }

  // ---------- one resettable deadline ----------

  /** The deadline the timers stand for: the one of the current generation, unless cancelled. */
  function Deadline(s: State): Option<real> {
    if !s.canceled && s.generation in s.timers then Some(s.timers[s.generation]) else None
  }

  /** The abstract debounce: a signal sets the deadline, a cancel clears it, a firing consumes it, and
      everything else leaves it alone. */
  function DeadlineAfter(d: Option<real>, delay: real, e: Event, fires: bool): Option<real> {
    match e
    case Signal(now) => Some(now + delay)
    case Cancel(_) => None
    case Timer(_, _) => if fires then None else d
  }

  ghost predicate Ordered(s: State) {
    forall g | g in s.timers :: 1 <= g <= s.generation
  }

  /** Every step of the concrete debounce is a step of the abstract one: it submits only when there is
      a deadline and it has passed, and a stale timer changes nothing. */
  lemma StepRefines(s: State, delay: real, e: Event)
    requires Ordered(s) && Enabled(s, e)
    ensures Ordered(Step(s, delay, e))
    ensures Deadline(Step(s, delay, e)) == DeadlineAfter(Deadline(s), delay, e, Submits(s, e))
    ensures Submits(s, e) ==> Deadline(s).Some? && Deadline(s).value <= e.now
  {
  }

  lemma {:induction false} ReachableIsOrdered(delay: real, es: seq<Event>, k: nat)
    requires IsRun(delay, es) && k <= |es|
    ensures Ordered(StateAt(delay, es, k))
  {
    if k > 0 {
      ReachableIsOrdered(delay, es, k - 1);
      assert EnabledAt(delay, es, k - 1);
      StepRefines(StateAt(delay, es, k - 1), delay, es[k - 1]);
    }
  }

  /** The deadline after the first `k` events, by the abstract debounce alone, given when it fired. */
  function DeadlineAt(delay: real, es: seq<Event>, fires: seq<bool>, k: nat): Option<real>
    requires k <= |es| == |fires|
  {
    if k == 0 then None
    else DeadlineAfter(DeadlineAt(delay, es, fires, k - 1), delay, es[k - 1], fires[k - 1])
  }

  /** Whole runs refine: given the submissions as its firings, the abstract debounce has the same
      deadline all along. */
  lemma {:induction false} RunRefines(delay: real, es: seq<Event>, k: nat)
    requires IsRun(delay, es) && k <= |es|
    ensures Deadline(StateAt(delay, es, k)) == DeadlineAt(delay, es, Submissions(delay, es, |es|), k)
  {
    if k > 0 {
      RunRefines(delay, es, k - 1);
      ReachableIsOrdered(delay, es, k - 1);
      assert EnabledAt(delay, es, k - 1);
      StepRefines(StateAt(delay, es, k - 1), delay, es[k - 1]);
    }
  }

  /** The callback is submitted only at a deadline of the abstract debounce that has passed. */
  lemma FiringsAreDue(delay: real, es: seq<Event>, k: nat)
    requires IsRun(delay, es) && SubmitsAt(delay, es, k)
    ensures var d := DeadlineAt(delay, es, Submissions(delay, es, |es|), k);
            d.Some? && d.value <= es[k].now
  {
    RunRefines(delay, es, k);
    ReachableIsOrdered(delay, es, k);
    assert EnabledAt(delay, es, k);
    StepRefines(StateAt(delay, es, k), delay, es[k]);
  }

  // ---------- which signal a submission answers ----------

  /** The last control event before `k` is the signal that started timer `g`. */
  ghost predicate LastControlStarted(es: seq<Event>, k: nat, g: nat)
    requires k <= |es|
  {
    exists j | 0 <= j < k :: Started(es, j, g) && Quiet(es, j, k)
  }

  /** The last control event before `k` is a cancel. */
  ghost predicate LastControlCanceled(es: seq<Event>, k: nat)
    requires k <= |es|
  {
    exists j | 0 <= j < k :: es[j].Cancel? && Quiet(es, j, k)
  }

  lemma LastControlStep(es: seq<Event>, k: nat, g: nat)
    requires k < |es|
    ensures LastControlStarted(es, k + 1, g) <==>
              Started(es, k, g) || (es[k].Timer? && LastControlStarted(es, k, g))
    ensures LastControlCanceled(es, k + 1) <==>
              es[k].Cancel? || (es[k].Timer? && LastControlCanceled(es, k))
  {
  }

  /** The state after `k` events, in terms of the events. */
  lemma {:induction false} StateMeaning(delay: real, es: seq<Event>, k: nat)
    requires k <= |es|
    ensures StateAt(delay, es, k).generation == Signals(es, k)
    ensures StateAt(delay, es, k).canceled <==> LastControlCanceled(es, k)
    ensures !StateAt(delay, es, k).canceled && Signals(es, k) > 0 ==> LastControlStarted(es, k, Signals(es, k))
  {
    if k > 0 {
      StateMeaning(delay, es, k - 1);
      LastControlStep(es, k - 1, Signals(es, k));
    }
  }

  lemma {:induction false} SignalsGrow(es: seq<Event>, j: nat, k: nat)
    requires j < k <= |es|
    ensures Signals(es, j + 1) <= Signals(es, k)
    ensures Quiet(es, j, k) ==> Signals(es, j + 1) == Signals(es, k)
  {
    if j + 1 < k {
      SignalsGrow(es, j, k - 1);
    }
  }

  /** An outstanding timer was started by its signal, for that signal's deadline. */
  lemma {:induction false} TimerMeaning(delay: real, es: seq<Event>, k: nat, g: nat) returns (j: nat)
    requires k <= |es| && g in StateAt(delay, es, k).timers
    ensures j < k && Started(es, j, g)
    ensures StateAt(delay, es, k).timers[g] == es[j].now + delay
  {
    StateMeaning(delay, es, k - 1);
    if es[k - 1].Signal? && g == Signals(es, k) {
      j := k - 1;
    } else {
      j := TimerMeaning(delay, es, k - 1, g);
    }
  }

  /** The handler of timer `g` has not run strictly between `j` and `k`. */
  predicate NotFired(es: seq<Event>, j: nat, k: nat, g: nat)
    requires k <= |es|
  {
    forall i | j < i < k :: es[i].Timer? ==> es[i].generation != g
  }

  lemma NotFiredStep(es: seq<Event>, j: nat, k: nat, g: nat)
    requires j < k < |es|
    ensures NotFired(es, j, k + 1, g) <==> NotFired(es, j, k, g) && !(es[k].Timer? && es[k].generation == g)
  {
  }

  /** A timer is outstanding exactly when its signal has been processed and its handler has not run since,
      whatever other signals and cancels there have been. */
  lemma {:induction false} OutstandingExactlyWhen(delay: real, es: seq<Event>, k: nat, g: nat)
    requires k <= |es|
    ensures g in StateAt(delay, es, k).timers <==> exists j | 0 <= j < k :: Started(es, j, g) && NotFired(es, j, k, g)
  {
    if k > 0 {
      OutstandingExactlyWhen(delay, es, k - 1, g);
      StateMeaning(delay, es, k - 1);
      assert NotFired(es, k - 1, k, g);
      var fires := es[k - 1].Timer? && es[k - 1].generation == g;
      forall j | 0 <= j < k - 1
        ensures NotFired(es, j, k, g) <==> NotFired(es, j, k - 1, g) && !fires
      {
        NotFiredStep(es, j, k - 1, g);
      }
    }
  }

  lemma StartedOnce(es: seq<Event>, i: nat, j: nat, g: nat)
    requires Started(es, i, g) && Started(es, j, g)
    ensures i == j
  {
    if i < j {
      SignalsGrow(es, i, j);
    } else if j < i {
      SignalsGrow(es, j, i);
    }
  }

  /** The handler of a timer may run once, at any time from `delay` after its signal. */
  lemma MayFireExactlyWhen(delay: real, es: seq<Event>, k: nat, g: nat, now: real)
    requires k <= |es|
    ensures Enabled(StateAt(delay, es, k), Timer(g, now)) <==>
              exists j | 0 <= j < k :: Started(es, j, g) && NotFired(es, j, k, g) && es[j].now + delay <= now
  {
    OutstandingExactlyWhen(delay, es, k, g);
    if g in StateAt(delay, es, k).timers {
      var i := TimerMeaning(delay, es, k, g);
      forall j | 0 <= j < k && Started(es, j, g)
        ensures j == i
      {
        StartedOnce(es, i, j, g);
      }
    }
  }

  /** A timer handler submits the callback exactly when the signal that started its timer has been
      followed by neither another signal nor a cancel. */
  lemma SubmissionAnswersSignal(delay: real, es: seq<Event>, k: nat)
    requires IsRun(delay, es) && k < |es| && es[k].Timer?
    ensures SubmitsAt(delay, es, k) <==> LastControlStarted(es, k, es[k].generation)
  {
    var g := es[k].generation;
    StateMeaning(delay, es, k);
    assert EnabledAt(delay, es, k);
    var start := TimerMeaning(delay, es, k, g);
    SignalsGrow(es, start, k);
    if j :| 0 <= j < k && Started(es, j, g) && Quiet(es, j, k) {
      SignalsGrow(es, j, k);
      if c :| 0 <= c < k && es[c].Cancel? && Quiet(es, c, k) {
        assert c < j ==> es[j].Timer?;
        assert j < c ==> es[c].Timer?;
      }
    }
  }

  /** The signal a timer belongs to was processed at least `delay` before the timer's handler runs. */
  lemma TimerIsLate(delay: real, es: seq<Event>, k: nat) returns (j: nat)
    requires IsRun(delay, es) && k < |es| && es[k].Timer?
    ensures j < k && Started(es, j, es[k].generation) && es[j].now + delay <= es[k].now
  {
    assert EnabledAt(delay, es, k);
    j := TimerMeaning(delay, es, k, es[k].generation);
  }

  /** Every submission matches one signal: it started the timer, it was processed at least `delay` before,
      and neither a signal nor a cancel has been processed since. */
  lemma SubmissionMatches(delay: real, es: seq<Event>, k: nat) returns (j: nat)
    requires IsRun(delay, es) && SubmitsAt(delay, es, k)
    ensures j < k && Started(es, j, es[k].generation) && Quiet(es, j, k) && es[j].now + delay <= es[k].now
  {
    SubmissionAnswersSignal(delay, es, k);
    j :| 0 <= j < k && Started(es, j, es[k].generation) && Quiet(es, j, k);
    var start := TimerIsLate(delay, es, k);
    if start < j {
      SignalsGrow(es, start, j);
    } else if j < start {
      SignalsGrow(es, j, start);
    }
  }

  lemma {:induction false} SpentTimer(delay: real, es: seq<Event>, i: nat, k: nat)
    requires IsRun(delay, es) && i < k <= |es| && es[i].Timer?
    ensures es[i].generation !in StateAt(delay, es, k).timers
    ensures es[i].generation <= StateAt(delay, es, k).generation
  {
    if i + 1 == k {
      assert EnabledAt(delay, es, i);
      ReachableIsOrdered(delay, es, i);
    } else {
      SpentTimer(delay, es, i, k - 1);
    }
  }

  /** No timer's handler runs twice, so distinct submissions answer distinct signals. */
  lemma OneHandlerPerSignal(delay: real, es: seq<Event>, i: nat, k: nat)
    requires IsRun(delay, es) && i < k < |es| && es[i].Timer? && es[k].Timer?
    ensures es[i].generation != es[k].generation
  {
    SpentTimer(delay, es, i, k);
    assert EnabledAt(delay, es, k);
  }
}
