/**
 The background-job supervisor as its goroutines see it: one per job, a waiter, a watcher,
 the caller of Stop, and the HTTP server, which shares the fatal coordinator.
 */
module JobSupervisor {
  import opened Prelude

  /** A job goroutine: its Run is under way or over, it looks at the context, sends, and signs off. */
  datatype Job =
    | Unspawned
    | Runs
    | Checks
    | Sends
    | Leaves(sent: bool)
    | Gone(sent: bool)

  /** `Left(called)` remembers whether the watcher called Fatal. */
  datatype Watcher =
    | NoWatcher
    | Watches
    | Got
    | CallsFatal
    | Cancels
    | Left(called: bool)

  datatype Starting = Spawning(next: nat) | WaiterNext | WatcherNext | Started

  datatype Stopping = NotStopping | StoredFlag | Awaits | StopReturned(ok: bool)

  datatype Supervisor = Supervisor(
    start: Starting, stop: Stopping,
    jobs: seq<Job>, waiter: bool, watcher: Watcher,
    queue: nat, received: nat,       // errCh, and what the watcher took from it
    wg: nat, done: bool,             // wait group, and the channel the waiter closes
    cancelled: bool, stopping: bool,
    fatalDone: bool, shutdowns: nat, supervisorFatals: nat)

  datatype Step =
    | SpawnJob
    | SpawnWaiter
    | SpawnWatcher
    | JobReturns(i: nat)
    | JobChecks(i: nat)
    | JobSends(i: nat)
    | JobLeaves(i: nat)
    | WaiterCloses
    | WatcherReceives
    | WatcherSeesCancel
    | WatcherLoadsFlag
    | WatcherCallsFatal
    | WatcherCancels
    | StopBegins
    | StopCancels
    | StopSeesDone
    | StopTimesOut
    | HttpFatal

  /** Before Start; without jobs Start returns at once and spawns nothing. */
  function Initial(n: nat): Supervisor {
    Supervisor(if n == 0 then Started else Spawning(0), NotStopping,
               seq(n, _ => Unspawned), false, NoWatcher, 0, 0, 0, false, false, false, false, 0, 0)
  }

  predicate At(s: Supervisor, i: nat, j: Job) {
    i < |s.jobs| && s.jobs[i] == j
  }

  predicate Enabled(s: Supervisor, step: Step) {
    match step
    case SpawnJob => s.start.Spawning? && s.start.next < |s.jobs|
    case SpawnWaiter => s.start == WaiterNext
    case SpawnWatcher => s.start == WatcherNext
    case JobReturns(i) => At(s, i, Runs)
    case JobChecks(i) => At(s, i, Checks)
    case JobSends(i) => At(s, i, Sends) && s.queue < |s.jobs|
    case JobLeaves(i) => i < |s.jobs| && s.jobs[i].Leaves? && s.wg > 0
    case WaiterCloses => s.waiter && s.wg == 0 && !s.done
    case WatcherReceives => s.watcher == Watches && s.queue > 0
    case WatcherSeesCancel => s.watcher == Watches && s.cancelled
    case WatcherLoadsFlag => s.watcher == Got
    case WatcherCallsFatal => s.watcher == CallsFatal
    case WatcherCancels => s.watcher == Cancels
    case StopBegins => s.start == Started && (s.stop == NotStopping || s.stop.StopReturned?)
    case StopCancels => s.stop == StoredFlag
    case StopSeesDone => s.stop == Awaits && s.done
    case StopTimesOut => s.stop == Awaits
    case HttpFatal => true
  }

  /** The once-guarded shutdown request. */
  function Fatal(s: Supervisor): Supervisor {
    if s.fatalDone then s else s.(fatalDone := true, shutdowns := s.shutdowns + 1)
  }

  function SetJob(s: Supervisor, i: nat, j: Job): Supervisor
    requires i < |s.jobs|
  {
    s.(jobs := s.jobs[i := j])
  }

  function After(s: Supervisor, step: Step): Supervisor
    requires Enabled(s, step)
  {
    match step
    case SpawnJob =>
      var i := s.start.next;
      SetJob(s, i, Runs).(wg := s.wg + 1, start := if i + 1 == |s.jobs| then WaiterNext else Spawning(i + 1))
    case SpawnWaiter => s.(waiter := true, start := WatcherNext)
    case SpawnWatcher => s.(watcher := Watches, start := Started)
    case JobReturns(i) => SetJob(s, i, Checks)
    case JobChecks(i) => SetJob(s, i, if s.cancelled then Leaves(false) else Sends)
    case JobSends(i) => SetJob(s, i, Leaves(true)).(queue := s.queue + 1)
    case JobLeaves(i) => SetJob(s, i, Gone(s.jobs[i].sent)).(wg := s.wg - 1)
    case WaiterCloses => s.(done := true)
    case WatcherReceives => s.(queue := s.queue - 1, received := s.received + 1, watcher := Got)
    case WatcherSeesCancel => s.(watcher := Left(false))
    case WatcherLoadsFlag => s.(watcher := if s.stopping then Left(false) else CallsFatal)
    case WatcherCallsFatal => Fatal(s).(supervisorFatals := s.supervisorFatals + 1, watcher := Cancels)
    case WatcherCancels => s.(cancelled := true, watcher := Left(true))
    case StopBegins => if s.jobs == [] then s.(stop := StopReturned(true)) else s.(stopping := true, stop := StoredFlag)
    case StopCancels => s.(cancelled := true, stop := Awaits)
    case StopSeesDone => s.(stop := StopReturned(true))
    case StopTimesOut => s.(stop := StopReturned(false))
    case HttpFatal => Fatal(s)
  }

  // ---------------------------------------------------------------- counting goroutines

  predicate HasSent(j: Job) {
    (j.Leaves? || j.Gone?) && j.sent
  }

  predicate InGroup(j: Job) {
    j.Runs? || j.Checks? || j.Sends? || j.Leaves?
  }

  function Count(jobs: seq<Job>, p: Job -> bool): nat {
    if jobs == [] then 0 else Count(jobs[..|jobs| - 1], p) + if p(jobs[|jobs| - 1]) then 1 else 0
  }

  lemma {:induction false} CountUpdate(jobs: seq<Job>, p: Job -> bool, i: nat, j: Job)
    requires i < |jobs|
    ensures Count(jobs[i := j], p) == Count(jobs, p) - (if p(jobs[i]) then 1 else 0) + (if p(j) then 1 else 0)
  {
    var n := |jobs| - 1;
    if i == n {
      assert jobs[i := j][..n] == jobs[..n];
    } else {
      CountUpdate(jobs[..n], p, i, j);
      assert jobs[i := j][..n] == jobs[..n][i := j];
    }
  }

  lemma {:induction false} CountBounds(jobs: seq<Job>, p: Job -> bool)
    ensures Count(jobs, p) <= |jobs|
    ensures Count(jobs, p) == 0 <==> forall i :: 0 <= i < |jobs| ==> !p(jobs[i])
    ensures Count(jobs, p) == |jobs| <==> forall i :: 0 <= i < |jobs| ==> p(jobs[i])
  {
    if jobs != [] {
      var n := |jobs| - 1;
      CountBounds(jobs[..n], p);
      assert forall i :: 0 <= i < n ==> jobs[..n][i] == jobs[i];
    }
  }

  // ---------------------------------------------------------------- the invariant

  function Spawned(s: Supervisor): nat {
    if s.start.Spawning? then s.start.next else |s.jobs|
  }

  /** The channels and the wait group account for every job. */
  ghost predicate Accounts(s: Supervisor) {
    && s.queue + s.received == Count(s.jobs, HasSent)
    && s.wg == Count(s.jobs, InGroup)
    && Spawned(s) <= |s.jobs|
  }

  /** Jobs are spawned in order, and one that left without sending saw the cancellation. */
  ghost predicate JobsOk(s: Supervisor) {
    forall i :: 0 <= i < |s.jobs| ==>
      && (s.jobs[i] == Unspawned <==> i >= Spawned(s))
      && (s.jobs[i] == Leaves(false) || s.jobs[i] == Gone(false) ==> s.cancelled)
  }

  /** Who has done what so far. */
  ghost predicate Roles(s: Supervisor) {
    && (s.start.Spawning? ==> s.start.next < |s.jobs|)
    && (s.jobs == [] ==> s.start == Started)
    && (s.waiter <==> s.jobs != [] && (s.start == WatcherNext || s.start == Started))
    && (s.watcher == NoWatcher <==> s.start != Started || s.jobs == [])
    && (s.watcher == NoWatcher || s.watcher == Watches ==> s.received == 0)
    && s.supervisorFatals == (if s.watcher == Cancels || s.watcher == Left(true) then 1 else 0)
    && (s.supervisorFatals > 0 ==> s.fatalDone)
    && s.shutdowns == (if s.fatalDone then 1 else 0)
    && (s.watcher == Left(true) ==> s.cancelled)
    && (s.watcher == Left(false) ==> s.cancelled || s.stopping)
    && (s.cancelled ==> s.stopping || s.watcher == Left(true))
    && (s.stop == NotStopping ==> !s.stopping)
    && (s.stop == StoredFlag || s.stop == Awaits ==> s.stopping)
    && (s.done ==> s.waiter && s.wg == 0)
    && (s.stop == StopReturned(true) && s.jobs != [] ==> s.done)
  }

  ghost predicate Inv(s: Supervisor) {
    Accounts(s) && JobsOk(s) && Roles(s)
  }

  /** Runs of the whole system. */
  ghost predicate Reaches(s: Supervisor, steps: seq<Step>, s': Supervisor)
    decreases |steps|
  {
    if steps == [] then s == s' else Enabled(s, steps[0]) && Reaches(After(s, steps[0]), steps[1..], s')
  }

  /** Steps of the job goroutines, their spawning included. */
  predicate OfJobs(step: Step) {
    step.SpawnJob? || step.JobReturns? || step.JobChecks? || step.JobSends? || step.JobLeaves?
  }

  /** Steps of the waiter and the watcher, their spawning included. */
  predicate OfHelpers(step: Step) {
    || step.SpawnWaiter? || step.SpawnWatcher? || step.WaiterCloses? || step.WatcherReceives? || step.WatcherSeesCancel?
    || step.WatcherLoadsFlag? || step.WatcherCallsFatal? || step.WatcherCancels?
  }

  /** The steps of everyone but the jobs. */
  lemma OtherStepsKeepAccounts(s: Supervisor, step: Step)
    requires Accounts(s) && JobsOk(s) && Enabled(s, step)
    requires !OfJobs(step)
    ensures Accounts(After(s, step))
  {
  }

  /** A job step counts where it should: sends at JobSends, the wait group at spawn and sign-off. */
  lemma JobStepCounts(s: Supervisor, i: nat, j: Job)
    requires i < |s.jobs|
    ensures Count(s.jobs[i := j], HasSent)
            == Count(s.jobs, HasSent) - (if HasSent(s.jobs[i]) then 1 else 0) + (if HasSent(j) then 1 else 0)
    ensures Count(s.jobs[i := j], InGroup)
            == Count(s.jobs, InGroup) - (if InGroup(s.jobs[i]) then 1 else 0) + (if InGroup(j) then 1 else 0)
  {
    CountUpdate(s.jobs, HasSent, i, j);
    CountUpdate(s.jobs, InGroup, i, j);
  }

  lemma StepKeepsAccounts(s: Supervisor, step: Step)
    requires Accounts(s) && JobsOk(s) && Enabled(s, step)
    ensures Accounts(After(s, step))
  {
    if !OfJobs(step) {
      OtherStepsKeepAccounts(s, step);
      return;
    }
    match step
    case SpawnJob => JobStepCounts(s, s.start.next, Runs);
    case JobReturns(i) => JobStepCounts(s, i, Checks);
    case JobChecks(i) => JobStepCounts(s, i, if s.cancelled then Leaves(false) else Sends);
    case JobSends(i) => JobStepCounts(s, i, Leaves(true));
    case JobLeaves(i) => JobStepCounts(s, i, Gone(s.jobs[i].sent));
  }

  lemma JobStepKeepsJobs(s: Supervisor, step: Step)
    requires JobsOk(s) && Roles(s) && Enabled(s, step) && OfJobs(step)
    ensures JobsOk(After(s, step))
  {
  }

  lemma HelperStepKeepsJobs(s: Supervisor, step: Step)
    requires JobsOk(s) && Roles(s) && Enabled(s, step) && OfHelpers(step)
    ensures JobsOk(After(s, step))
  {
  }

  lemma StepKeepsJobs(s: Supervisor, step: Step)
    requires JobsOk(s) && Roles(s) && Enabled(s, step)
    ensures JobsOk(After(s, step))
  {
    if OfJobs(step) {
      JobStepKeepsJobs(s, step);
    } else if OfHelpers(step) {
      HelperStepKeepsJobs(s, step);
    }
  }

  lemma JobStepKeepsRoles(s: Supervisor, step: Step)
    requires Inv(s) && Enabled(s, step) && OfJobs(step)
    ensures Roles(After(s, step))
  {
  }

  lemma HelperStepKeepsRoles(s: Supervisor, step: Step)
    requires Inv(s) && Enabled(s, step) && OfHelpers(step)
    ensures Roles(After(s, step))
  {
  }

  lemma StepKeepsRoles(s: Supervisor, step: Step)
    requires Inv(s) && Enabled(s, step)
    ensures Roles(After(s, step))
  {
    if OfJobs(step) {
      JobStepKeepsRoles(s, step);
    } else if OfHelpers(step) {
      HelperStepKeepsRoles(s, step);
    }
  }

  lemma StepKeepsInv(s: Supervisor, step: Step)
    requires Inv(s) && Enabled(s, step)
    ensures Inv(After(s, step)) && |After(s, step).jobs| == |s.jobs|
  {
    StepKeepsAccounts(s, step);
    StepKeepsJobs(s, step);
    StepKeepsRoles(s, step);
  }

  lemma InitialInv(n: nat)
    ensures Inv(Initial(n))
  {
    CountBounds(Initial(n).jobs, HasSent);
    CountBounds(Initial(n).jobs, InGroup);
  }

  lemma {:induction false} ReachableInv(s: Supervisor, steps: seq<Step>, s': Supervisor)
    requires Inv(s) && Reaches(s, steps, s')
    ensures Inv(s') && |s'.jobs| == |s.jobs|
    decreases |steps|
  {
    if steps != [] {
      StepKeepsInv(s, steps[0]);
      ReachableInv(After(s, steps[0]), steps[1..], s');
    }
  }

  ghost predicate Reachable(n: nat, s: Supervisor) {
    exists steps :: Reaches(Initial(n), steps, s)
  }

  lemma ReachableFacts(n: nat, s: Supervisor)
    requires Reachable(n, s)
    ensures Inv(s) && |s.jobs| == n
  {
    var steps :| Reaches(Initial(n), steps, s);
    InitialInv(n);
    ReachableInv(Initial(n), steps, s);
  }

  // ---------------------------------------------------------------- what holds in every interleaving

  /** A job about to send finds room: no send on the error channel blocks. */
  lemma NoSendBlocks(n: nat, s: Supervisor, i: nat)
    requires Reachable(n, s) && At(s, i, Sends)
    ensures Enabled(s, JobSends(i)) && s.queue < n
  {
    ReachableFacts(n, s);
    CountBounds(s.jobs, HasSent);
  }

  /** The supervisor calls Fatal at most once, and shutdown is requested at most once by anybody. */
  lemma OneShutdown(n: nat, s: Supervisor)
    requires Reachable(n, s)
    ensures s.supervisorFatals <= 1 && s.shutdowns <= 1
    ensures s.supervisorFatals == 1 ==> s.shutdowns == 1
  {
    ReachableFacts(n, s);
  }

  /** Stop's flag was stored before the watcher looked at it. */
  predicate Silenced(s: Supervisor) {
    s.stopping && (s.watcher == NoWatcher || s.watcher == Watches || s.watcher == Got || s.watcher == Left(false))
  }

  lemma SilencedStep(s: Supervisor, step: Step)
    requires Silenced(s) && Enabled(s, step)
    ensures Silenced(After(s, step)) && After(s, step).supervisorFatals == s.supervisorFatals
  {
  }

  /** Then the watcher never calls Fatal, whatever the jobs do. */
  lemma {:induction false} StopSilencesWatcher(s: Supervisor, steps: seq<Step>, s': Supervisor)
    requires Silenced(s) && Reaches(s, steps, s')
    ensures Silenced(s') && s'.supervisorFatals == s.supervisorFatals
    decreases |steps|
  {
    if steps != [] {
      SilencedStep(s, steps[0]);
      StopSilencesWatcher(After(s, steps[0]), steps[1..], s');
    }
  }

  /** The job has sent nothing, and the context is cancelled before it has looked at it. */
  predicate Mute(s: Supervisor, i: nat) {
    s.cancelled && i < |s.jobs| && match s.jobs[i]
    case Runs | Checks => true
    case Leaves(sent) => !sent
    case Gone(sent) => !sent
    case _ => false
  }

  lemma MuteStep(s: Supervisor, i: nat, step: Step)
    requires Mute(s, i) && Enabled(s, step)
    ensures Mute(After(s, step), i)
  {
  }

  /** Such a job never sends. */
  lemma {:induction false} CancelledJobSendsNothing(s: Supervisor, i: nat, steps: seq<Step>, s': Supervisor)
    requires Mute(s, i) && Reaches(s, steps, s')
    ensures Mute(s', i)
    decreases |steps|
  {
    if steps != [] {
      MuteStep(s, i, steps[0]);
      CancelledJobSendsNothing(After(s, steps[0]), i, steps[1..], s');
    }
  }

  /** When Stop reports success every job goroutine has finished. */
  lemma StopMeansFinished(n: nat, s: Supervisor)
    requires Reachable(n, s) && s.stop == StopReturned(true)
    ensures |s.jobs| == n && forall i :: 0 <= i < n ==> s.jobs[i].Gone?
  {
    ReachableFacts(n, s);
    CountBounds(s.jobs, InGroup);
  }

  /** Nothing is left to do but what the environment may bring: a job returning, a Stop, an HTTP failure. */
  ghost predicate Quiescent(s: Supervisor) {
    forall step :: Enabled(s, step) ==> step.JobReturns? || step.StopBegins? || step.HttpFatal?
  }

  /** Without a Stop, once the system is quiet a job that has returned has brought the application down. */
  lemma ReturnedJobIsFatal(n: nat, s: Supervisor, i: nat)
    requires Reachable(n, s) && Quiescent(s) && s.stop == NotStopping
    requires i < |s.jobs| && s.jobs[i] != Unspawned && s.jobs[i] != Runs
    ensures s.supervisorFatals == 1 && s.fatalDone && s.cancelled
  {
    ReachableFacts(n, s);
    QuietStart(s);
    QuietJob(n, s, i);
    GoneIsNoticed(s, i);
    QuietWatcher(s);
  }

  /** A job that has signed off has sent, or the context was cancelled. */
  lemma GoneIsNoticed(s: Supervisor, i: nat)
    requires Accounts(s) && JobsOk(s) && i < |s.jobs| && s.jobs[i].Gone?
    ensures s.queue + s.received > 0 || s.cancelled
  {
    CountBounds(s.jobs, HasSent);
  }

  lemma QuietWatcher(s: Supervisor)
    requires Roles(s) && Quiescent(s) && s.start == Started && s.jobs != [] && s.stop == NotStopping
    requires s.queue + s.received > 0 || s.cancelled
    ensures s.supervisorFatals == 1 && s.fatalDone && s.cancelled
  {
    assert !Enabled(s, WatcherReceives) && !Enabled(s, WatcherSeesCancel) && !Enabled(s, WatcherLoadsFlag);
    assert !Enabled(s, WatcherCallsFatal) && !Enabled(s, WatcherCancels);
  }

  lemma QuietStart(s: Supervisor)
    requires Inv(s) && Quiescent(s)
    ensures s.start == Started
  {
    assert !Enabled(s, SpawnJob) && !Enabled(s, SpawnWaiter) && !Enabled(s, SpawnWatcher);
  }

  lemma QuietJob(n: nat, s: Supervisor, i: nat)
    requires Reachable(n, s) && Inv(s) && Quiescent(s) && i < |s.jobs| && s.jobs[i] != Unspawned && s.jobs[i] != Runs
    ensures s.jobs[i].Gone?
  {
    CountBounds(s.jobs, InGroup);
    assert !Enabled(s, JobChecks(i)) && !Enabled(s, JobSends(i)) && !Enabled(s, JobLeaves(i));
    if s.jobs[i] == Sends {
      NoSendBlocks(n, s, i);
    }
  }
}
