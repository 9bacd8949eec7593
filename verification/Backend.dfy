/**
  The job launcher and reaper of `backend.c` (`run_threads`, `reap_threads`) with the jobs they look after, as a
  system of steps. The launcher looks at one job per step; the jobs run between its steps as they please, but for the
  wait each of them does on its own mutex until the launcher has started it.
 */
module Backend {

  type Job = nat

  /** The run states that matter here; ramping, verifying and so on count as running. */
  datatype RunState = NotCreated | Created | Initialized | Running | Exited | Reaped

  /** Where the launcher is. */
  datatype Phase =
    | Creating(i: nat)           // first loop, about to look at job i
    | Launching(i: nat)          // waiting on startup_mutex for job i
    | Settling                   // waiting for this round's jobs to initialize
    | Starting(i: nat)           // third loop, about to look at job i
    | Reaping(i: nat)            // in reap_threads, about to look at job i
    | Finished

  datatype State = State(
    jobs: seq<RunState>,
    stonewall: seq<bool>,
    dead: set<Job>,              // processes that were killed
    upped: set<Job>,             // td->mutex is up: the launcher has released it, the job has not yet taken it
    released: set<Job>,          // past the wait on td->mutex
    phase: Phase,
    pending: set<Job>,           // map[]: this round's jobs not yet seen to have initialized
    todo: int,
    nrStarted: int,
    nrRunning: int
  )

  datatype Step =
    | PassOver                   // the job is not waiting to be created, or its start delay is not over
    | Create                     // nothing stands in the job's way
    | StopAtStonewall            // the job must wait for those before it
    | Launched
    | EndCreating
    | Settle(j: Job)
    | EndSettling
    | Start
    | EndStarting
    | Reap
    | LetRun
    | EndReaping
    | JobInitializes(j: Job)
    | JobTakesMutex(j: Job)
    | JobExits(j: Job)
    | JobIsKilled(j: Job)

  predicate MayStart(s: State, j: Job)
    requires j < |s.stonewall|
  {
    !(s.stonewall[j] && (s.nrStarted != 0 || s.nrRunning != 0))
  }

  predicate Gone(s: State, j: Job)
    requires j < |s.jobs|
  {
    s.jobs[j] != NotCreated && s.jobs[j] != Reaped && (s.jobs[j] == Exited || j in s.dead)
  }

  predicate WellFormed(s: State) {
    && |s.stonewall| == |s.jobs|
    && ((s.phase.Creating? || s.phase.Starting? || s.phase.Reaping?) ==> s.phase.i <= |s.jobs|)
    && (s.phase.Launching? ==> s.phase.i < |s.jobs|)
  }

  predicate Enabled(s: State, step: Step)
    requires WellFormed(s)
  {
    var n := |s.jobs|;
    match step
    case PassOver => s.phase.Creating? && s.phase.i < n
    case Create => s.phase.Creating? && s.phase.i < n && s.jobs[s.phase.i] == NotCreated && MayStart(s, s.phase.i)
    case StopAtStonewall =>
      s.phase.Creating? && s.phase.i < n && s.jobs[s.phase.i] == NotCreated && !MayStart(s, s.phase.i)
    case Launched => s.phase.Launching? && s.jobs[s.phase.i] != Created
    case EndCreating => s.phase.Creating? && s.phase.i == n
    case Settle(j) => s.phase.Settling? && j in s.pending && j < n && s.jobs[j] in {Initialized, Exited, Reaped}
    case EndSettling => s.phase.Settling? && s.pending == {}
    case Start => s.phase.Starting? && s.phase.i < n
    case EndStarting => s.phase.Starting? && s.phase.i == n
    case Reap => s.phase.Reaping? && s.phase.i < n && Gone(s, s.phase.i)
    case LetRun => s.phase.Reaping? && s.phase.i < n && !(s.jobs[s.phase.i] == Exited)
    case EndReaping => s.phase.Reaping? && s.phase.i == n
    case JobInitializes(j) => j < n && s.jobs[j] == Created && j !in s.dead
    // where a job waits once it has reported in; nothing before that point sets it to exited
    case JobTakesMutex(j) => j < n && j in s.upped && s.jobs[j] !in {NotCreated, Created} && j !in s.dead
    case JobExits(j) => j < n && j in s.released && s.jobs[j] !in {Exited, Reaped} && j !in s.dead
    case JobIsKilled(j) => j < n && s.jobs[j] != NotCreated && s.jobs[j] != Reaped
  }

  function Apply(s: State, step: Step): State
    requires WellFormed(s) && Enabled(s, step)
  {
    match step
    case PassOver => s.(phase := Creating(s.phase.i + 1))
    case Create =>
      var j := s.phase.i;
      s.(phase := Launching(j), jobs := s.jobs[j := Created], pending := s.pending + {j},
         nrStarted := s.nrStarted + 1)
    case StopAtStonewall => s.(phase := Settling)
    case Launched => s.(phase := Creating(s.phase.i + 1))
    case EndCreating => s.(phase := Settling)
    case Settle(j) =>
      if s.jobs[j] == Initialized then s.(pending := s.pending - {j})
      // the work-around for jobs that are gone before they are started
      else s.(pending := s.pending - {j}, todo := s.todo - 1, nrRunning := s.nrRunning + 1)
    case EndSettling => s.(phase := Starting(0))
    case Start =>
      var j := s.phase.i;
      if s.jobs[j] != Initialized then s.(phase := Starting(j + 1))
      else s.(phase := Starting(j + 1), jobs := s.jobs[j := Running], nrRunning := s.nrRunning + 1,
              nrStarted := s.nrStarted - 1, todo := s.todo - 1, upped := s.upped + {j})
    case EndStarting => s.(phase := Reaping(0))
    case Reap =>
      var j := s.phase.i;
      s.(phase := Reaping(j + 1), jobs := s.jobs[j := Reaped], nrRunning := s.nrRunning - 1)
    case LetRun => s.(phase := Reaping(s.phase.i + 1))
    case EndReaping =>
      s.(phase := if s.todo != 0 then Creating(0) else if s.nrRunning != 0 then Reaping(0) else Finished)
    case JobInitializes(j) => s.(jobs := s.jobs[j := Initialized])
    case JobTakesMutex(j) => s.(upped := s.upped - {j}, released := s.released + {j})
    case JobExits(j) => s.(jobs := s.jobs[j := Exited])
    case JobIsKilled(j) => s.(dead := s.dead + {j})
  }

  // ----- Invariant

  /** What a run state amounts to for the counters. */
  datatype Kind = Idle | Waiting | Begun | Over

  function KindOf(r: RunState): Kind {
    match r
    case NotCreated => Idle
    case Created | Initialized => Waiting
    case Running | Exited => Begun
    case Reaped => Over
  }

  ghost function In(s: State, k: Kind): set<Job> {
    set j | 0 <= j < |s.jobs| && KindOf(s.jobs[j]) == k
  }

  /** Created, but not reaped. */
  ghost function Live(s: State): set<Job> {
    In(s, Waiting) + In(s, Begun)
  }

  ghost predicate Counted(s: State) {
    && s.nrStarted == |In(s, Waiting)|
    && s.nrRunning == |In(s, Begun)|
    && s.todo == |In(s, Idle)| + |In(s, Waiting)|
  }

  /** td->mutex keeps a job from going on before it is started. */
  ghost predicate Held(s: State) {
    forall j :: j in s.upped || j in s.released ==> j < |s.jobs| && s.jobs[j] in {Running, Exited, Reaped}
  }

  /** What is known of the waiting jobs, depending on where the launcher is. */
  ghost predicate Placed(s: State) {
    && s.pending <= In(s, Waiting)
    && (s.phase.Creating? || s.phase.Launching? ==> In(s, Waiting) == s.pending)
    && (s.phase.Settling? ==> forall j :: j in In(s, Waiting) && j !in s.pending ==> s.jobs[j] == Initialized)
    && (s.phase.Starting? ==>
          s.pending == {} && forall j :: j in In(s, Waiting) ==> j >= s.phase.i && s.jobs[j] == Initialized)
    && (s.phase.Reaping? || s.phase.Finished? ==> In(s, Waiting) == {})
    && (s.phase.Finished? ==> s.todo == 0 && s.nrRunning == 0)
  }

  ghost predicate Inv(s: State) {
    WellFormed(s) && Counted(s) && Held(s) && Placed(s)
  }

  /** Before the first round, after `setup_files` has failed for the jobs in `failed`. */
  ghost function Init(stonewall: seq<bool>, failed: set<Job>): State {
    var jobs := seq(|stonewall|, j requires 0 <= j => if j in failed then Reaped else NotCreated);
    var todo := |set j | 0 <= j < |jobs| && KindOf(jobs[j]) == Idle|;
    State(jobs, stonewall, {}, {}, {}, if todo == 0 then Finished else Creating(0), {}, todo, 0, 0)
  }

  lemma InitInv(stonewall: seq<bool>, failed: set<Job>)
    ensures Inv(Init(stonewall, failed))
  {
    var s := Init(stonewall, failed);
    assert In(s, Idle) == set j | 0 <= j < |s.jobs| && KindOf(s.jobs[j]) == Idle;
    assert In(s, Waiting) == {} && In(s, Begun) == {};
  }

  /** How many more jobs are in one kind of state when job j changes. */
  function Gain(s: State, s': State, j: Job, k: Kind): int
    requires j < |s.jobs| && j < |s'.jobs|
  {
    (if KindOf(s'.jobs[j]) == k then 1 else 0) - (if KindOf(s.jobs[j]) == k then 1 else 0)
  }

  lemma OneChanges(s: State, s': State, j: Job, k: Kind)
    requires j < |s.jobs| && |s'.jobs| == |s.jobs| && s'.jobs == s.jobs[j := s'.jobs[j]]
    ensures In(s', k) == if KindOf(s'.jobs[j]) == k then In(s, k) + {j} else In(s, k) - {j}
    ensures |In(s', k)| == |In(s, k)| + Gain(s, s', j, k)
  {
    if KindOf(s.jobs[j]) == k {
      assert j in In(s, k);
    }
  }

  /** One job changes its state: what that does to the counters. */
  lemma AllChange(s: State, s': State, j: Job)
    requires j < |s.jobs| && |s'.jobs| == |s.jobs| && s'.jobs == s.jobs[j := s'.jobs[j]]
    ensures In(s', Waiting) == if KindOf(s'.jobs[j]) == Waiting then In(s, Waiting) + {j} else In(s, Waiting) - {j}
    ensures |In(s', Waiting)| == |In(s, Waiting)| + Gain(s, s', j, Waiting)
    ensures |In(s', Begun)| == |In(s, Begun)| + Gain(s, s', j, Begun)
    ensures |In(s', Idle)| == |In(s, Idle)| + Gain(s, s', j, Idle)
  {
    OneChanges(s, s', j, Waiting);
    OneChanges(s, s', j, Begun);
    OneChanges(s, s', j, Idle);
  }

  lemma CreateKeeps(s: State)
    requires Inv(s) && Enabled(s, Create)
    ensures Inv(Apply(s, Create))
  {
    AllChange(s, Apply(s, Create), s.phase.i);
  }

  lemma StartKeeps(s: State)
    requires Inv(s) && Enabled(s, Start) && s.jobs[s.phase.i] == Initialized
    ensures Inv(Apply(s, Start))
  {
    var s', j := Apply(s, Start), s.phase.i;
    AllChange(s, s', j);
    assert Counted(s') && Held(s');
    forall i | i in In(s', Waiting) ensures i >= j + 1 && s'.jobs[i] == Initialized {
      assert i in In(s, Waiting) && i != j;
    }
  }

  lemma StartPasses(s: State)
    requires Inv(s) && Enabled(s, Start) && s.jobs[s.phase.i] != Initialized
    ensures Inv(Apply(s, Start))
  {
    assert s.phase.i !in In(s, Waiting);
    assert forall k :: In(Apply(s, Start), k) == In(s, k);
  }

  lemma ReapKeeps(s: State)
    requires Inv(s) && Enabled(s, Reap)
    ensures Inv(Apply(s, Reap))
  {
    assert s.phase.i !in In(s, Waiting);
    AllChange(s, Apply(s, Reap), s.phase.i);
  }

  /** The branch of `run_threads` for jobs that quit before they were started is never taken. */
  lemma SettlesInitialized(s: State, j: Job)
    requires Inv(s) && Enabled(s, Settle(j))
    ensures s.jobs[j] == Initialized && Inv(Apply(s, Settle(j)))
  {
    assert j in In(s, Waiting);
  }

  lemma InitializesKeeps(s: State, j: Job)
    requires Inv(s) && Enabled(s, JobInitializes(j))
    ensures Inv(Apply(s, JobInitializes(j)))
  {
    AllChange(s, Apply(s, JobInitializes(j)), j);
  }

  lemma ExitsKeeps(s: State, j: Job)
    requires Inv(s) && Enabled(s, JobExits(j))
    ensures Inv(Apply(s, JobExits(j)))
  {
    var s' := Apply(s, JobExits(j));
    assert KindOf(s.jobs[j]) == Begun;
    AllChange(s, s', j);
    assert Counted(s') && Held(s');
    assert In(s', Waiting) == In(s, Waiting);
    forall i | i in In(s, Waiting) ensures s'.jobs[i] == s.jobs[i] {
      assert i != j;
    }
  }

  lemma SameJobsKeep(s: State, step: Step)
    requires Inv(s) && Enabled(s, step) && Apply(s, step).jobs == s.jobs && !step.Settle? && !step.Start?
    ensures Inv(Apply(s, step))
  {
    assert forall k :: In(Apply(s, step), k) == In(s, k);
  }

  lemma StepKeeps(s: State, step: Step)
    requires Inv(s) && Enabled(s, step)
    ensures Inv(Apply(s, step))
  {
    match step
    case Create => CreateKeeps(s);
    case Settle(j) => SettlesInitialized(s, j);
    case Start => if s.jobs[s.phase.i] == Initialized { StartKeeps(s); } else { StartPasses(s); }
    case Reap => ReapKeeps(s);
    case JobInitializes(j) => InitializesKeeps(s, j);
    case JobExits(j) => ExitsKeeps(s, j);
    case _ => SameJobsKeep(s, step);
  }

  // ----- Every run

  ghost predicate Run(s: State, steps: seq<Step>, end: State)
    decreases |steps|
  {
    if steps == [] then s == end
    else WellFormed(s) && Enabled(s, steps[0]) && Run(Apply(s, steps[0]), steps[1..], end)
  }

  lemma {:induction false} RunKeeps(s: State, steps: seq<Step>, end: State)
    requires Inv(s) && Run(s, steps, end)
    ensures Inv(end)
    decreases |steps|
  {
    if steps != [] {
      StepKeeps(s, steps[0]);
      RunKeeps(Apply(s, steps[0]), steps[1..], end);
    }
  }

  lemma ReachedInv(stonewall: seq<bool>, failed: set<Job>, steps: seq<Step>, s: State)
    requires Run(Init(stonewall, failed), steps, s)
    ensures Inv(s)
  {
    InitInv(stonewall, failed);
    RunKeeps(Init(stonewall, failed), steps, s);
  }

  /** The two counters together are exactly the live jobs. */
  lemma LiveJobsCounted(stonewall: seq<bool>, failed: set<Job>, steps: seq<Step>, s: State)
    requires Run(Init(stonewall, failed), steps, s)
    ensures |Live(s)| == s.nrStarted + s.nrRunning
    ensures s.nrStarted == |In(s, Waiting)| && s.nrRunning == |In(s, Begun)|
    ensures s.todo == |In(s, Idle)| + |In(s, Waiting)|
  {
    ReachedInv(stonewall, failed, steps, s);
    assert In(s, Waiting) !! In(s, Begun);
  }

  /** A job that the launcher finds settled has initialized: none can have quit before it is started. */
  lemma NobodyQuitsEarly(stonewall: seq<bool>, failed: set<Job>, steps: seq<Step>, s: State, j: Job)
    requires Run(Init(stonewall, failed), steps, s) && WellFormed(s)
    ensures Enabled(s, Settle(j)) ==> s.jobs[j] == Initialized
    ensures j in s.released ==> j < |s.jobs| && s.jobs[j] in {Running, Exited, Reaped}
  {
    ReachedInv(stonewall, failed, steps, s);
    if Enabled(s, Settle(j)) {
      SettlesInitialized(s, j);
    }
  }

  /** No counter is decremented at zero. */
  lemma NoUnderflow(stonewall: seq<bool>, failed: set<Job>, steps: seq<Step>, s: State, step: Step)
    requires Run(Init(stonewall, failed), steps, s) && WellFormed(s) && Enabled(s, step)
    ensures Apply(s, step).nrRunning >= 0 && Apply(s, step).nrStarted >= 0 && Apply(s, step).todo >= 0
  {
    ReachedInv(stonewall, failed, steps, s);
    StepKeeps(s, step);
  }

  /** A stonewall job is created only when every job created before it has been reaped. */
  lemma StonewallIsABarrier(stonewall: seq<bool>, failed: set<Job>, steps: seq<Step>, s: State)
    requires Run(Init(stonewall, failed), steps, s) && WellFormed(s) && Enabled(s, Create) && s.stonewall[s.phase.i]
    ensures forall j: nat :: j < |s.jobs| ==> s.jobs[j] in {NotCreated, Reaped}
  {
    ReachedInv(stonewall, failed, steps, s);
    assert In(s, Waiting) == {} && In(s, Begun) == {};
    forall j: nat | j < |s.jobs| ensures s.jobs[j] in {NotCreated, Reaped} {
      assert j !in In(s, Waiting) && j !in In(s, Begun);
    }
  }

  /** When the launcher is finished, every job has been run and reaped. */
  lemma FinishedMeansReaped(stonewall: seq<bool>, failed: set<Job>, steps: seq<Step>, s: State)
    requires Run(Init(stonewall, failed), steps, s) && s.phase.Finished?
    ensures forall j: nat :: j < |s.jobs| ==> s.jobs[j] == Reaped
  {
    ReachedInv(stonewall, failed, steps, s);
    assert In(s, Idle) == {} && In(s, Waiting) == {} && In(s, Begun) == {};
    forall j: nat | j < |s.jobs| ensures s.jobs[j] == Reaped {
      assert j !in In(s, Idle) && j !in In(s, Waiting) && j !in In(s, Begun);
    }
  }
}
