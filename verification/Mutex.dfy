/**
  The semaphore of `mutex.c`, built on a mutex and a condition variable, as a system of steps. Each stretch of code
  between taking the internal mutex and giving it up, by unlocking it or by waiting, is one step.
 */
module Mutex {
  import opened Common

  type Thread = nat

  /** Threads that wait are asleep until something wakes them, and then woken until they have looked again. */
  datatype State = State(value: nat, waiters: nat, asleep: set<Thread>, woken: set<Thread>, holders: set<Thread>)

  datatype Step =
    | Down(t: Thread)                      // fio_mutex_down, up to the first wait or to the end
    | Wake(t: Thread)                      // a wait returns, whether or not it was signalled
    | Recheck(t: Thread)                   // fio_mutex_down, from a wait to the next one or to the end
    | Up(t: Thread, signalled: set<Thread>) // fio_mutex_up, and the sleepers its signal wakes

  function Init(value: nat): State {
    State(value, 0, {}, {}, {})
  }

  predicate Outside(s: State, t: Thread) {
    t !in s.asleep && t !in s.woken && t !in s.holders
  }

  /** `while (!mutex->value)`: sleep, or take a unit. */
  function Take(s: State, t: Thread): State {
    if s.value == 0 then s.(waiters := s.waiters + 1, asleep := s.asleep + {t})
    else s.(value := s.value - 1, holders := s.holders + {t})
  }

  predicate Signals(s: State) {
    s.value == 0 && s.waiters > 0
  }

  /** A signal wakes at least one sleeper, if there is one; without a signal nobody is woken. */
  predicate Enabled(s: State, step: Step) {
    match step
    case Down(t) => Outside(s, t)
    case Wake(t) => t in s.asleep
    case Recheck(t) => t in s.woken && s.waiters > 0
    case Up(_, w) => w <= s.asleep && (w == {} <==> !Signals(s) || s.asleep == {})
  }

  function Apply(s: State, step: Step): State
    requires Enabled(s, step)
  {
    match step
    case Down(t) => Take(s, t)
    case Wake(t) => s.(asleep := s.asleep - {t}, woken := s.woken + {t})
    case Recheck(t) => Take(s.(waiters := s.waiters - 1, woken := s.woken - {t}), t)
    case Up(t, w) => s.(value := s.value + 1, asleep := s.asleep - w, woken := s.woken + w, holders := s.holders - {t})
  }

  // ----- Runs

  /** Runs of the semaphore; as a lock, only a holder calls up. */
  ghost predicate Run(s: State, steps: seq<Step>, end: State, asLock: bool)
    decreases |steps|
  {
    if steps == [] then s == end
    else
      && Enabled(s, steps[0])
      && (asLock && steps[0].Up? ==> steps[0].t in s.holders)
      && Run(Apply(s, steps[0]), steps[1..], end, asLock)
  }

  ghost predicate WaitersCounted(s: State) {
    && s.asleep !! s.woken && s.holders !! s.asleep && s.holders !! s.woken
    && s.waiters == |s.asleep| + |s.woken|
  }

  /** Whenever there is something to take and somebody sleeps, somebody has been woken and is yet to look. */
  ghost predicate NoLostWakeup(s: State) {
    s.value > 0 && s.asleep != {} ==> s.woken != {}
  }

  ghost predicate Lock(s: State) {
    WaitersCounted(s) && NoLostWakeup(s) && s.value + |s.holders| == 1
  }

  lemma LockStep(s: State, step: Step)
    requires Lock(s) && Enabled(s, step) && (step.Up? ==> step.t in s.holders)
    ensures Lock(Apply(s, step))
  {
    match step
    case Down(t) =>
    case Wake(t) => WakeKeeps(s, t);
    case Recheck(t) => RecheckKeeps(s, t);
    case Up(t, w) => UpKeeps(s, t, w);
  }

  lemma WakeKeeps(s: State, t: Thread)
    requires Lock(s) && Enabled(s, Wake(t))
    ensures Lock(Apply(s, Wake(t)))
  {
    var s' := Apply(s, Wake(t));
    assert |s'.asleep| == |s.asleep| - 1 && |s'.woken| == |s.woken| + 1;
    assert t in s'.woken;
  }

  lemma RecheckKeeps(s: State, t: Thread)
    requires Lock(s) && Enabled(s, Recheck(t))
    ensures Lock(Apply(s, Recheck(t)))
  {
    assert |s.woken - {t}| == |s.woken| - 1;
  }

  lemma UpKeeps(s: State, t: Thread, w: set<Thread>)
    requires Lock(s) && Enabled(s, Up(t, w)) && t in s.holders
    ensures Lock(Apply(s, Up(t, w)))
  {
    var s' := Apply(s, Up(t, w));
    assert s.asleep == s'.asleep + w && |s'.asleep| + |w| == |s.asleep| && |s'.woken| == |s.woken| + |w|;
    assert |s.holders - {t}| == |s.holders| - 1;
    if s'.asleep != {} {
      assert w != {};
      assert w <= s'.woken;
    }
  }

  /** As a lock with initial value 1, in every interleaving: one unit or one holder, and no wake-up lost. */
  lemma {:induction false} LockAlways(s: State, steps: seq<Step>, end: State)
    requires Lock(s) && Run(s, steps, end, true)
    ensures Lock(end)
    decreases |steps|
  {
    if steps != [] {
      LockStep(s, steps[0]);
      LockAlways(Apply(s, steps[0]), steps[1..], end);
    }
  }

  lemma MutualExclusion(steps: seq<Step>, end: State, t: Thread, u: Thread)
    requires Run(Init(1), steps, end, true) && t in end.holders && u in end.holders
    ensures t == u && end.value == 0
  {
    LockAlways(Init(1), steps, end);
    if t != u {
      assert {t, u} <= end.holders;
      assert |{t, u}| <= |end.holders| by { SubsetSize({t, u}, end.holders); }
    }
  }

  /** A free lock that somebody waits for can be taken by a waiter in one step that is already enabled. */
  lemma FreeLockCanBeTaken(steps: seq<Step>, end: State) returns (t: Thread)
    requires Run(Init(1), steps, end, true) && end.holders == {} && end.waiters > 0
    ensures Enabled(end, Recheck(t)) && t in Apply(end, Recheck(t)).holders
  {
    LockAlways(Init(1), steps, end);
    t :| t in end.woken;
  }

  // ----- As a general semaphore

  /** Exactly the step that loses a wake-up: the last woken thread takes one of several units and leaves sleepers. */
  lemma WakeupLostIff(s: State, step: Step)
    requires WaitersCounted(s) && NoLostWakeup(s) && Enabled(s, step)
    ensures NoLostWakeup(Apply(s, step)) <==>
      !(step.Recheck? && s.value >= 2 && s.woken == {step.t} && s.asleep != {})
  {
    match step
    case Down(t) =>
    case Wake(t) =>
      assert t in Apply(s, step).woken;
    case Recheck(t) =>
      if s.woken != {t} {
        var u :| u in s.woken && u != t;
        assert u in s.woken - {t};
      } else {
        assert s.woken - {t} == {};
      }
    case Up(t, w) =>
      if s.asleep != {} {
        assert s.value > 0 || |s.asleep| > 0;
      }
  }

  /** Every state of a run has k units to give at most. */
  predicate AtMost(k: nat, s: State, steps: seq<Step>)
    decreases |steps|
  {
    s.value <= k && (steps != [] ==> Enabled(s, steps[0]) && AtMost(k, Apply(s, steps[0]), steps[1..]))
  }

  lemma StepCounts(s: State, step: Step)
    requires WaitersCounted(s) && Enabled(s, step)
    ensures WaitersCounted(Apply(s, step))
  {
    match step
    case Down(t) =>
    case Wake(t) =>
      assert |s.asleep - {t}| == |s.asleep| - 1 && |s.woken + {t}| == |s.woken| + 1;
    case Recheck(t) =>
      assert |s.woken - {t}| == |s.woken| - 1;
    case Up(t, w) => UpCounts(s, t, w);
  }

  lemma UpCounts(s: State, t: Thread, w: set<Thread>)
    requires WaitersCounted(s) && Enabled(s, Up(t, w))
    ensures WaitersCounted(Apply(s, Up(t, w)))
  {
    assert s.asleep == (s.asleep - w) + w && |s.asleep - w| + |w| == |s.asleep| && |s.woken + w| == |s.woken| + |w|;
  }

  /** Callers who never give a second unit before the first is taken lose no wake-up, in any interleaving. */
  lemma {:induction false} BinaryLosesNone(s: State, steps: seq<Step>, end: State)
    requires WaitersCounted(s) && NoLostWakeup(s) && Run(s, steps, end, false) && AtMost(1, s, steps)
    ensures WaitersCounted(end) && NoLostWakeup(end)
    decreases |steps|
  {
    if steps != [] {
      StepCounts(s, steps[0]);
      WakeupLostIff(s, steps[0]);
      BinaryLosesNone(Apply(s, steps[0]), steps[1..], end);
    }
  }

  lemma {:induction false} AtMostMore(k: nat, m: nat, s: State, steps: seq<Step>)
    requires k <= m && AtMost(k, s, steps)
    ensures AtMost(m, s, steps)
    decreases |steps|
  {
    if steps != [] {
      AtMostMore(k, m, Apply(s, steps[0]), steps[1..]);
    }
  }

  /** Two threads asleep, two units given in a row: the second is not announced, and one sleeper is left behind. */
  lemma SemaphoreLosesWakeup() returns (steps: seq<Step>, end: State)
    ensures Run(Init(0), steps, end, false) && AtMost(2, Init(0), steps) && !NoLostWakeup(end)
  {
    var s0 := Init(0);
    var s1 := Apply(s0, Down(1));
    var s2 := Apply(s1, Down(2));
    var s3 := Apply(s2, Up(3, {1}));
    var s4 := Apply(s3, Up(3, {}));
    end := Apply(s4, Recheck(1));
    steps := [Down(1), Down(2), Up(3, {1}), Up(3, {}), Recheck(1)];
    assert 2 in end.asleep && end.woken == {} && end.value == 1;
    assert Run(end, [], end, false) && AtMost(2, end, []);
    Prepend(s4, Recheck(1), [], end);
    Prepend(s3, Up(3, {}), [Recheck(1)], end);
    Prepend(s2, Up(3, {1}), [Up(3, {}), Recheck(1)], end);
    Prepend(s1, Down(2), [Up(3, {1}), Up(3, {}), Recheck(1)], end);
    Prepend(s0, Down(1), [Down(2), Up(3, {1}), Up(3, {}), Recheck(1)], end);
  }

  lemma Prepend(s: State, step: Step, rest: seq<Step>, end: State)
    requires Enabled(s, step) && s.value <= 2
    requires Run(Apply(s, step), rest, end, false) && AtMost(2, Apply(s, step), rest)
    ensures Run(s, [step] + rest, end, false) && AtMost(2, s, [step] + rest)
  {
    assert ([step] + rest)[1..] == rest;
  }

  /** No run in which value stays at k or below loses a wake-up. */
  ghost predicate Safe(k: nat) {
    forall v, steps, end :: Run(Init(v), steps, end, false) && AtMost(k, Init(v), steps) ==> NoLostWakeup(end)
  }

  /** What callers must see to: that is so if and only if k is at most 1. */
  lemma SafeIff(k: nat)
    ensures Safe(k) <==> k <= 1
  {
    if k <= 1 {
      forall v, steps, end | Run(Init(v), steps, end, false) && AtMost(k, Init(v), steps) ensures NoLostWakeup(end) {
        AtMostMore(k, 1, Init(v), steps);
        BinaryLosesNone(Init(v), steps, end);
      }
    } else {
      var steps, end := SemaphoreLosesWakeup();
      AtMostMore(2, k, Init(0), steps);
    }
  }
}
