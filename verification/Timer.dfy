/** `_NPTimer`: two flags under a lock decide which calls reach libdispatch; the calls themselves are
    issued after the lock has been released. */
module Timer {
  datatype Flags = Flags(isCancelled: bool, isSuspended: bool)

  /** What is decided under the lock. */
  function ResumeDecision(f: Flags): (Flags, bool) {
    if !f.isCancelled && f.isSuspended then (f.(isSuspended := false), true) else (f, false)
  }

  function SuspendDecision(f: Flags): (Flags, bool) {
    if !f.isCancelled && !f.isSuspended then (f.(isSuspended := true), true) else (f, false)
  }

  /** The second result says whether to cancel the source, the third whether it was suspended. */
  function CancelDecision(f: Flags): (Flags, bool, bool) {
    if !f.isCancelled then (Flags(true, false), true, f.isSuspended) else (f, false, false)
  }

  // ---------- serialised calls ----------

  /** A timer whose methods run one at a time. */
  class NPTimer {
    var isCancelled: bool
    var isSuspended: bool
    var suspendCount: nat    // libdispatch's suspend count of the source
    var sourceCancels: nat   // how often the source has been cancelled

    ghost predicate Valid()
      reads this
    {
      && suspendCount == (if isSuspended then 1 else 0)
      && sourceCancels == (if isCancelled then 1 else 0)
      && (isCancelled ==> !isSuspended)
    }

    ghost function State(): Flags
      reads this
    {
      Flags(isCancelled, isSuspended)
    }

    constructor ()
      ensures Valid() && State() == Flags(false, false)
    {
      isCancelled, isSuspended, suspendCount, sourceCancels := false, false, 0, 0;
    }

    /** Resuming a source that is not suspended is an error. */
    method DispatchResume()
      requires suspendCount > 0
      modifies this`suspendCount
      ensures suspendCount == old(suspendCount) - 1
    {
      suspendCount := suspendCount - 1;
    }

    method Resume()
      requires Valid()
      modifies this
      ensures Valid() && State() == ResumeDecision(old(State())).0
      ensures isCancelled == old(isCancelled) && !isSuspended && suspendCount == 0
      ensures sourceCancels == old(sourceCancels)
    {
      var isExecutable := false;
      if !isCancelled && isSuspended {
        isSuspended := false;
        isExecutable := true;
      }
      if isExecutable {
        DispatchResume();
      }
    }

    method Suspend()
      requires Valid()
      modifies this
      ensures Valid() && State() == SuspendDecision(old(State())).0
      ensures isCancelled == old(isCancelled) && isSuspended == !isCancelled
      ensures suspendCount == (if isCancelled then 0 else 1) && sourceCancels == old(sourceCancels)
    {
      var isExecutable := false;
      if !isCancelled && !isSuspended {
        isSuspended := true;
        isExecutable := true;
      }
      if isExecutable {
        suspendCount := suspendCount + 1;
      }
    }

    method Cancel()
      requires Valid()
      modifies this
      ensures Valid() && State() == Flags(true, false) && suspendCount == 0 && sourceCancels == 1
    {
      var isExecutable, wasSuspended := false, false;
      if !isCancelled {
        isCancelled := true;
        wasSuspended := isSuspended;
        isSuspended := false;
        isExecutable := true;
      }
      if isExecutable {
        sourceCancels := sourceCancels + 1;
        if wasSuspended {
          DispatchResume();
        }
      }
    }
  }

  // ---------- interleaved calls ----------

  type Thread = nat

  /** What a thread still has to issue after leaving the lock. */
  datatype Call = Suspending | Resuming | Cancelling(wasSuspended: bool)

  datatype State = State(flags: Flags, calls: map<Thread, Call>, suspendCount: int, sourceCancels: nat)

  const INITIAL := State(Flags(false, false), map[], 0, 0)

  /** A thread passes through the lock, or issues the next call it decided on. */
  datatype Action = Resume(thread: Thread) | Suspend(thread: Thread) | Cancel(thread: Thread) | Issue(thread: Thread)

  predicate Enabled(s: State, a: Action) {
    if a.Issue? then a.thread in s.calls else a.thread !in s.calls
  }

  function Step(s: State, a: Action): State
    requires Enabled(s, a)
  {
    match a
    case Resume(t) =>
      var (flags, go) := ResumeDecision(s.flags);
      s.(flags := flags, calls := if go then s.calls[t := Resuming] else s.calls)
    case Suspend(t) =>
      var (flags, go) := SuspendDecision(s.flags);
      s.(flags := flags, calls := if go then s.calls[t := Suspending] else s.calls)
    case Cancel(t) =>
      var (flags, go, wasSuspended) := CancelDecision(s.flags);
      s.(flags := flags, calls := if go then s.calls[t := Cancelling(wasSuspended)] else s.calls)
    case Issue(t) =>
      match s.calls[t]
      case Suspending => s.(calls := s.calls - {t}, suspendCount := s.suspendCount + 1)
      case Resuming => s.(calls := s.calls - {t}, suspendCount := s.suspendCount - 1)
      case Cancelling(wasSuspended) =>
        s.(calls := if wasSuspended then s.calls[t := Resuming] else s.calls - {t},
           sourceCancels := s.sourceCancels + 1)
  }

  // ---------- counting undelivered calls ----------

  const SUSPENDS: set<Call> := {Suspending}

  const RESUMES: set<Call> := {Resuming, Cancelling(true)}

  const CANCELS: set<Call> := {Cancelling(true), Cancelling(false)}

  ghost function Holding(calls: map<Thread, Call>, kinds: set<Call>): set<Thread> {
    set t | t in calls && calls[t] in kinds
  }

  ghost function Count(calls: map<Thread, Call>, kinds: set<Call>): nat {
    |Holding(calls, kinds)|
  }

  lemma CountInsert(calls: map<Thread, Call>, t: Thread, c: Call, kinds: set<Call>)
    requires t !in calls
    ensures Count(calls[t := c], kinds) == Count(calls, kinds) + if c in kinds then 1 else 0
  {
    assert Holding(calls[t := c], kinds) == Holding(calls, kinds) + if c in kinds then {t} else {};
  }

  lemma CountRemove(calls: map<Thread, Call>, t: Thread, kinds: set<Call>)
    requires t in calls
    ensures Count(calls - {t}, kinds) == Count(calls, kinds) - if calls[t] in kinds then 1 else 0
  {
    assert Holding(calls - {t}, kinds) == Holding(calls, kinds) - {t};
  }

  function One(b: bool): nat {
    if b then 1 else 0
  }

  // ---------- what every interleaving conserves ----------

  ghost predicate Conserved(s: State) {
    && s.suspendCount + Count(s.calls, SUSPENDS) - Count(s.calls, RESUMES) == One(s.flags.isSuspended)
    && s.sourceCancels + Count(s.calls, CANCELS) == One(s.flags.isCancelled)
    && (s.flags.isCancelled ==> !s.flags.isSuspended)
  }

  lemma Decides(calls: map<Thread, Call>, t: Thread, c: Call)
    requires t !in calls
    ensures Count(calls[t := c], SUSPENDS) == Count(calls, SUSPENDS) + One(c.Suspending?)
    ensures Count(calls[t := c], RESUMES) == Count(calls, RESUMES) + One(c.Resuming? || c == Cancelling(true))
    ensures Count(calls[t := c], CANCELS) == Count(calls, CANCELS) + One(c.Cancelling?)
  {
    CountInsert(calls, t, c, SUSPENDS);
    CountInsert(calls, t, c, RESUMES);
    CountInsert(calls, t, c, CANCELS);
  }

  lemma StepConserves(s: State, a: Action)
    requires Conserved(s) && Enabled(s, a)
    ensures Conserved(Step(s, a))
  {
    var t := a.thread;
    match a
    case Issue(_) =>
      CountRemove(s.calls, t, SUSPENDS);
      CountRemove(s.calls, t, RESUMES);
      CountRemove(s.calls, t, CANCELS);
      if s.calls[t] == Cancelling(true) {
        Decides(s.calls - {t}, t, Resuming);
        assert (s.calls - {t})[t := Resuming] == s.calls[t := Resuming];
      }
    case Resume(_) => Decides(s.calls, t, Resuming);
    case Suspend(_) => Decides(s.calls, t, Suspending);
    case Cancel(_) => Decides(s.calls, t, Cancelling(s.flags.isSuspended));
  }

  // ---------- runs ----------

  /** The actions are possible one after the other. */
  ghost predicate IsRun(s: State, actions: seq<Action>)
    decreases |actions|, 0
  {
    actions == [] ||
    var n := |actions| - 1;
    IsRun(s, actions[..n]) && Enabled(After(s, actions[..n]), actions[n])
  }

  ghost function After(s: State, actions: seq<Action>): State
    requires IsRun(s, actions)
    decreases |actions|, 1
  {
    if actions == [] then s
    else Step(After(s, actions[..|actions| - 1]), actions[|actions| - 1])
  }

  /** The suspend count, less what has been decided but not issued, is the suspended flag, under every
      interleaving; and the source is cancelled as often as the cancelled flag says. */
  lemma {:induction false} EveryRunConserves(actions: seq<Action>)
    requires IsRun(INITIAL, actions)
    ensures Conserved(After(INITIAL, actions))
    ensures var s := After(INITIAL, actions);
            && s.suspendCount + Count(s.calls, {Suspending}) - Count(s.calls, {Resuming, Cancelling(true)})
               == (if s.flags.isSuspended then 1 else 0)
            && s.sourceCancels + Count(s.calls, {Cancelling(true), Cancelling(false)})
               == (if s.flags.isCancelled then 1 else 0)
    decreases |actions|
  {
    if actions == [] {
      assert forall kinds :: Holding(map[], kinds) == {};
    } else {
      EveryRunConserves(actions[..|actions| - 1]);
      StepConserves(After(INITIAL, actions[..|actions| - 1]), actions[|actions| - 1]);
    }
  }

  /** The source is cancelled at most once, and once all calls of a cancelled timer have been issued it
      has been cancelled and is not suspended, so it can be reclaimed. */
  lemma CancelledTimerIsReclaimable(actions: seq<Action>)
    requires IsRun(INITIAL, actions)
    ensures var s := After(INITIAL, actions);
            && s.sourceCancels <= 1
            && (s.calls == map[] ==> s.suspendCount == One(s.flags.isSuspended))
            && (s.calls == map[] && s.flags.isCancelled ==> s.suspendCount == 0 && s.sourceCancels == 1)
  {
    EveryRunConserves(actions);
    var s := After(INITIAL, actions);
    if s.calls == map[] {
      assert forall kinds :: Holding(s.calls, kinds) == {};
    }
  }

  lemma {:induction false} RunPrefix(s: State, actions: seq<Action>, k: nat)
    requires IsRun(s, actions) && k <= |actions|
    ensures IsRun(s, actions[..k])
    ensures k < |actions| ==> Enabled(After(s, actions[..k]), actions[k])
    ensures k < |actions| ==>
              IsRun(s, actions[..k + 1]) && After(s, actions[..k + 1]) == Step(After(s, actions[..k]), actions[k])
    decreases |actions|
  {
    if k == |actions| {
      assert actions[..k] == actions;
    } else if k == |actions| - 1 {
      assert actions[..k + 1] == actions;
    } else {
      RunPrefix(s, actions[..|actions| - 1], k);
      assert actions[..|actions| - 1][..k] == actions[..k];
      assert actions[..|actions| - 1][..k + 1] == actions[..k + 1];
    }
  }

  // ---------- after a cancel ----------

  /** The state after the first `k` actions. */
  ghost function StateAt(actions: seq<Action>, k: nat): State
    requires IsRun(INITIAL, actions) && k <= |actions|
  {
    RunPrefix(INITIAL, actions, k);
    After(INITIAL, actions[..k])
  }

  lemma NextState(actions: seq<Action>, k: nat)
    requires IsRun(INITIAL, actions) && k < |actions|
    ensures Enabled(StateAt(actions, k), actions[k])
    ensures StateAt(actions, k + 1) == Step(StateAt(actions, k), actions[k])
    ensures Conserved(StateAt(actions, k)) && Conserved(StateAt(actions, k + 1))
  {
    RunPrefix(INITIAL, actions, k);
    RunPrefix(INITIAL, actions, k + 1);
    EveryRunConserves(actions[..k]);
    EveryRunConserves(actions[..k + 1]);
  }

  /** The last suspend among the first `k` actions has not been answered by a resume. */
  predicate LeftSuspended(actions: seq<Action>, k: nat)
    requires k <= |actions|
  {
    exists j | 0 <= j < k :: actions[j].Suspend? && forall i | j < i < k :: !actions[i].Resume?
  }

  lemma LeftSuspendedStep(actions: seq<Action>, k: nat)
    requires k < |actions|
    ensures LeftSuspended(actions, k + 1) <==>
              actions[k].Suspend? || (!actions[k].Resume? && LeftSuspended(actions, k))
  {
    var a := actions[k];
    if LeftSuspended(actions, k) && !a.Resume? {
      var j :| 0 <= j < k && actions[j].Suspend? && forall i | j < i < k :: !actions[i].Resume?;
      assert forall i | j < i < k + 1 :: !actions[i].Resume?;
    }
    if LeftSuspended(actions, k + 1) && !a.Suspend? {
      var j :| 0 <= j < k + 1 && actions[j].Suspend? && forall i | j < i < k + 1 :: !actions[i].Resume?;
      assert j < k && !a.Resume?;
    }
  }

  lemma {:induction false} FlagsFollow(actions: seq<Action>, k: nat)
    requires IsRun(INITIAL, actions) && k <= |actions|
    ensures StateAt(actions, k).flags.isCancelled <==> exists j | 0 <= j < k :: actions[j].Cancel?
    ensures StateAt(actions, k).flags.isSuspended <==>
              !StateAt(actions, k).flags.isCancelled && LeftSuspended(actions, k)
  {
    if k == 0 {
      assert actions[..0] == [];
    } else {
      FlagsFollow(actions, k - 1);
      NextState(actions, k - 1);
      LeftSuspendedStep(actions, k - 1);
    }
  }

  /** The flags after the first `k` actions, in terms of the calls alone: the timer is cancelled once any
      cancel has passed the lock, and until then it is suspended exactly when a suspend has been and no resume
      since. */
  lemma FlagsMeaning(actions: seq<Action>, k: nat)
    requires IsRun(INITIAL, actions) && k <= |actions|
    ensures StateAt(actions, k).flags.isCancelled <==> exists j | 0 <= j < k :: actions[j].Cancel?
    ensures StateAt(actions, k).flags.isSuspended <==>
              (forall j | 0 <= j < k :: !actions[j].Cancel?)
              && exists j | 0 <= j < k :: actions[j].Suspend? && forall i | j < i < k :: !actions[i].Resume?
  {
    FlagsFollow(actions, k);
  }

  /** The action delivers a resume. */
  predicate IssuesResume(s: State, a: Action) {
    a.Issue? && a.thread in s.calls && s.calls[a.thread].Resuming?
  }

  /** How many resumes the actions from `i` up to `k` deliver. */
  ghost function ResumesIssued(actions: seq<Action>, i: nat, k: nat): nat
    requires IsRun(INITIAL, actions) && i <= k <= |actions|
  {
    if i == k then 0
    else ResumesIssued(actions, i, k - 1) + One(IssuesResume(StateAt(actions, k - 1), actions[k - 1]))
  }

  /** What is still to be issued has been so for long, but that a cancel has come to its resume. */
  ghost predicate OnlyDelivered(calls: map<Thread, Call>, later: map<Thread, Call>) {
    forall t | t in later ::
      t in calls && (later[t] == calls[t] || (calls[t] == Cancelling(true) && later[t] == Resuming))
  }

  lemma DeliveryAfterCancel(s: State, a: Action)
    requires s.flags == Flags(true, false) && Enabled(s, a)
    ensures Step(s, a).flags == s.flags
    ensures !a.Issue? ==> Step(s, a) == s
    ensures OnlyDelivered(s.calls, Step(s, a).calls)
    ensures Count(Step(s, a).calls, RESUMES) == Count(s.calls, RESUMES) - One(IssuesResume(s, a))
  {
    if a.Issue? {
      var t := a.thread;
      CountRemove(s.calls, t, RESUMES);
      if s.calls[t] == Cancelling(true) {
        Decides(s.calls - {t}, t, Resuming);
        assert (s.calls - {t})[t := Resuming] == s.calls[t := Resuming];
      }
    }
  }

  lemma CancelStep(s: State, a: Action)
    requires Conserved(s) && Enabled(s, a) && a.Cancel?
    ensures Step(s, a).flags == Flags(true, false)
    ensures Count(Step(s, a).calls, RESUMES) == Count(s.calls, RESUMES) + One(s.flags.isSuspended)
  {
    Decides(s.calls, a.thread, Cancelling(s.flags.isSuspended));
  }

  lemma DeliveriesCompose(a: map<Thread, Call>, b: map<Thread, Call>, c: map<Thread, Call>)
    requires OnlyDelivered(a, b) && OnlyDelivered(b, c)
    ensures OnlyDelivered(a, c)
  {
  }

  lemma {:induction false} DeliveriesAfterCancel(actions: seq<Action>, i: nat, k: nat)
    requires IsRun(INITIAL, actions) && i < k <= |actions| && actions[i].Cancel?
    ensures StateAt(actions, k).flags == Flags(true, false)
    ensures OnlyDelivered(StateAt(actions, i + 1).calls, StateAt(actions, k).calls)
    ensures ResumesIssued(actions, i + 1, k) + Count(StateAt(actions, k).calls, RESUMES)
            == Count(StateAt(actions, i + 1).calls, RESUMES)
  {
    if k == i + 1 {
      NextState(actions, i);
      CancelStep(StateAt(actions, i), actions[i]);
    } else {
      DeliveriesAfterCancel(actions, i, k - 1);
      NextState(actions, k - 1);
      DeliveryAfterCancel(StateAt(actions, k - 1), actions[k - 1]);
      DeliveriesCompose(StateAt(actions, i + 1).calls, StateAt(actions, k - 1).calls, StateAt(actions, k).calls);
    }
  }

  /** After the lock step of a cancel, and for the rest of the run, nothing is decided: passing through
      the lock changes nothing, and the calls still issued are those decided before it, besides its own
      balancing resume. */
  lemma NothingDecidedAfterCancel(actions: seq<Action>, i: nat, k: nat)
    requires IsRun(INITIAL, actions) && i < k <= |actions| && actions[i].Cancel?
    ensures k < |actions| && !actions[k].Issue? ==> StateAt(actions, k + 1) == StateAt(actions, k)
    ensures OnlyDelivered(StateAt(actions, i + 1).calls, StateAt(actions, k).calls)
    ensures ResumesIssued(actions, i + 1, k) + Count(StateAt(actions, k).calls, RESUMES)
            == Count(StateAt(actions, i).calls, RESUMES) + One(StateAt(actions, i).flags.isSuspended)
  {
    DeliveriesAfterCancel(actions, i, k);
    NextState(actions, i);
    CancelStep(StateAt(actions, i), actions[i]);
    if k < |actions| {
      NextState(actions, k);
      DeliveryAfterCancel(StateAt(actions, k), actions[k]);
    }
  }

  // ---------- when the suspend count can go wrong ----------

  ghost predicate OnlyIssues(actions: seq<Action>) {
    forall i | 0 <= i < |actions| :: actions[i].Issue?
  }

  /** Issuing the calls already decided, in this order, drives the suspend count below zero. */
  ghost predicate OverResumes(s: State, actions: seq<Action>) {
    OnlyIssues(actions) && IsRun(s, actions) && After(s, actions).suspendCount < 0
  }

  lemma {:induction false} IssuingKeepsFlags(s: State, actions: seq<Action>)
    requires OnlyIssues(actions) && IsRun(s, actions) && Conserved(s)
    ensures Conserved(After(s, actions)) && After(s, actions).flags == s.flags
    ensures Count(After(s, actions).calls, SUSPENDS) <= Count(s.calls, SUSPENDS)
    decreases |actions|
  {
    if actions != [] {
      var n := |actions| - 1;
      IssuingKeepsFlags(s, actions[..n]);
      var before, a := After(s, actions[..n]), actions[n];
      StepConserves(before, a);
      CountRemove(before.calls, a.thread, SUSPENDS);
      if before.calls[a.thread] == Cancelling(true) {
        Decides(before.calls - {a.thread}, a.thread, Resuming);
        assert (before.calls - {a.thread})[a.thread := Resuming] == before.calls[a.thread := Resuming];
      }
    }
  }

  lemma {:induction false} Prepend(s: State, a: Action, rest: seq<Action>)
    requires Enabled(s, a) && IsRun(Step(s, a), rest)
    ensures IsRun(s, [a] + rest) && After(s, [a] + rest) == After(Step(s, a), rest)
    decreases |rest|
  {
    var all := [a] + rest;
    var n := |all| - 1;
    if rest == [] {
      assert all[..n] == [] && all[n] == a;
    } else {
      Prepend(s, a, rest[..n - 1]);
      assert all[..n] == [a] + rest[..n - 1] && all[n] == rest[n - 1];
    }
  }

  /** Issues every resume that has been decided, and no suspend. */
  lemma {:induction false} ResumesFirst(s: State) returns (actions: seq<Action>)
    requires Conserved(s)
    ensures OnlyIssues(actions) && IsRun(s, actions)
    ensures After(s, actions).suspendCount == One(s.flags.isSuspended) - Count(s.calls, SUSPENDS)
    decreases Count(s.calls, RESUMES), Count(s.calls, CANCELS)
  {
    if Holding(s.calls, RESUMES) == {} {
      actions := [];
    } else {
      var t :| t in Holding(s.calls, RESUMES);
      var next := Step(s, Issue(t));
      StepConserves(s, Issue(t));
      CountRemove(s.calls, t, SUSPENDS);
      CountRemove(s.calls, t, RESUMES);
      CountRemove(s.calls, t, CANCELS);
      if s.calls[t] == Cancelling(true) {
        Decides(s.calls - {t}, t, Resuming);
        assert (s.calls - {t})[t := Resuming] == s.calls[t := Resuming];
      }
      var rest := ResumesFirst(next);
      actions := [Issue(t)] + rest;
      Prepend(s, Issue(t), rest);
    }
  }

  /** Some order of issuing what has been decided over-resumes the source exactly when more suspends
      are unissued than the suspended flag stands for. */
  lemma OverResumesExactlyWhen(s: State)
    requires Conserved(s)
    ensures (exists actions :: OverResumes(s, actions)) <==> Count(s.calls, SUSPENDS) > One(s.flags.isSuspended)
  {
    if actions :| OverResumes(s, actions) {
      IssuingKeepsFlags(s, actions);
    }
    if Count(s.calls, SUSPENDS) > One(s.flags.isSuspended) {
      var actions := ResumesFirst(s);
      assert OverResumes(s, actions);
    }
  }

  /** The action is a resume or a cancel that clears the suspended flag. */
  predicate ClearsSuspended(s: State, a: Action) {
    (a.Resume? || a.Cancel?) && s.flags.isSuspended
  }

  ghost predicate SafeAt(actions: seq<Action>, k: nat)
    requires IsRun(INITIAL, actions) && k <= |actions|
  {
    RunPrefix(INITIAL, actions, k);
    !exists issues :: OverResumes(After(INITIAL, actions[..k]), issues)
  }

  /** At step `k`, the suspended flag is not cleared while a suspend is still to be issued. */
  ghost predicate ClearsOnlyIssued(actions: seq<Action>, k: nat)
    requires IsRun(INITIAL, actions) && k < |actions|
  {
    RunPrefix(INITIAL, actions, k);
    var s := After(INITIAL, actions[..k]);
    ClearsSuspended(s, actions[k]) ==> Count(s.calls, SUSPENDS) == 0
  }

  lemma SuspendsAfter(s: State, a: Action)
    requires Enabled(s, a)
    ensures Count(Step(s, a).calls, SUSPENDS)
            == Count(s.calls, SUSPENDS) + One(a.Suspend? && SuspendDecision(s.flags).1)
               - One(a.Issue? && s.calls[a.thread].Suspending?)
  {
    var t := a.thread;
    match a
    case Issue(_) =>
      CountRemove(s.calls, t, SUSPENDS);
      if s.calls[t] == Cancelling(true) {
        Decides(s.calls - {t}, t, Resuming);
        assert (s.calls - {t})[t := Resuming] == s.calls[t := Resuming];
      }
    case Resume(_) => Decides(s.calls, t, Resuming);
    case Suspend(_) => Decides(s.calls, t, Suspending);
    case Cancel(_) => Decides(s.calls, t, Cancelling(s.flags.isSuspended));
  }

  lemma {:induction false} FewSuspends(actions: seq<Action>, k: nat)
    requires IsRun(INITIAL, actions) && k <= |actions|
    requires forall i | 0 <= i < k :: ClearsOnlyIssued(actions, i)
    ensures IsRun(INITIAL, actions[..k]) && Conserved(After(INITIAL, actions[..k]))
    ensures var s := After(INITIAL, actions[..k]); Count(s.calls, SUSPENDS) <= One(s.flags.isSuspended)
  {
    RunPrefix(INITIAL, actions, k);
    EveryRunConserves(actions[..k]);
    if k == 0 {
      assert Holding(map[], SUSPENDS) == {};
    } else {
      FewSuspends(actions, k - 1);
      RunPrefix(INITIAL, actions, k - 1);
      assert ClearsOnlyIssued(actions, k - 1);
      SuspendsAfter(After(INITIAL, actions[..k - 1]), actions[k - 1]);
    }
  }

  /** In a run no order of issuing can ever over-resume the source exactly when no call clears the
      suspended flag while a suspend is still to be issued. */
  lemma RunIsSafeExactlyWhen(actions: seq<Action>)
    requires IsRun(INITIAL, actions)
    ensures (forall k | 0 <= k <= |actions| :: SafeAt(actions, k))
            <==> (forall k | 0 <= k < |actions| :: ClearsOnlyIssued(actions, k))
  {
    if forall k | 0 <= k < |actions| :: ClearsOnlyIssued(actions, k) {
      forall k | 0 <= k <= |actions|
        ensures SafeAt(actions, k)
      {
        FewSuspends(actions, k);
        OverResumesExactlyWhen(After(INITIAL, actions[..k]));
      }
    }
    if forall k | 0 <= k <= |actions| :: SafeAt(actions, k) {
      forall k | 0 <= k < |actions|
        ensures ClearsOnlyIssued(actions, k)
      {
        RunPrefix(INITIAL, actions, k);
        RunPrefix(INITIAL, actions, k + 1);
        EveryRunConserves(actions[..k + 1]);
        assert SafeAt(actions, k + 1);
        OverResumesExactlyWhen(After(INITIAL, actions[..k + 1]));
        SuspendsAfter(After(INITIAL, actions[..k]), actions[k]);
      }
    }
  }

  /** Any thread may pass through the lock whenever it has nothing to issue, and issue what it has whenever it
      likes. */
  lemma OneMoreAction(s: State, actions: seq<Action>, a: Action)
    requires IsRun(s, actions)
    requires if a.Issue? then a.thread in After(s, actions).calls else a.thread !in After(s, actions).calls
    ensures IsRun(s, actions + [a]) && After(s, actions + [a]) == Step(After(s, actions), a)
  {
    var all := actions + [a];
    assert all[..|all| - 1] == actions && all[|all| - 1] == a;
  }

  /** A resume that overtakes the suspend it answers drives the count below zero. */
  lemma OvertakingResume()
    ensures var actions := [Suspend(1), Resume(2), Issue(2)];
            IsRun(INITIAL, actions) && After(INITIAL, actions).suspendCount == -1
  {
    var a, b, c := Suspend(1), Resume(2), Issue(2);
    var s := Step(INITIAL, a);
    assert Enabled(s, b) && Enabled(Step(s, b), c) && Step(Step(s, b), c).suspendCount == -1;
    OneMoreAction(INITIAL, [], a);
    assert [] + [a] == [a];
    OneMoreAction(INITIAL, [a], b);
    assert [a] + [b] == [a, b];
    OneMoreAction(INITIAL, [a, b], c);
    assert [a, b] + [c] == [a, b, c];
  }
}
