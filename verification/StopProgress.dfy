/** The stop protocol gets somewhere: no schedule keeps taking steps for ever, no
    state is stuck before the end, and a run that nobody interrupts can complete. */
module StopProgress {
  import opened StopProtocol

  // ---------------------------------------------------------------- every step leads on

  /** How many moves a worker has left at most before it waits for a case again. */
  function MovesLeft(phase: Phase): nat {
    match phase
    case Idle => 0
    case Releasing => 1
    case Failing => 2
    case Recording => 3
    case Asking => 4
    case Forgotten => 5
    case Forgetting => 6
    case Exited => 7
    case Running => 8
    case Unlocking => 9
    case Registered => 10
    case Registering => 11
    case Spawned => 12
    case Holding => 13
    case Passed => 14
    case Checking => 15
  }

  function AllMovesLeft(ws: seq<Worker>): nat {
    if ws == [] then 0 else AllMovesLeft(ws[..|ws| - 1]) + MovesLeft(ws[|ws| - 1].phase)
  }

  function ActsLeft(supervisor: Supervisor): nat {
    match supervisor
    case Watching => 6
    case Interrupted => 5
    case Locked => 4
    case Sweeping(_) => 3
    case Swept => 2
    case Cancelled => 1
    case Drained => 0
    case Completed => 0
  }

  /** What is left to do, the most important first. */
  function Left(s: State, selected: set<Case>): (nat, nat, nat, nat, nat) {
    (ActsLeft(s.supervisor), |selected - s.absorbed|, if s.supervisor.Sweeping? then |s.supervisor.todo| else 0,
     |s.pending|, AllMovesLeft(s.workers))
  }

  predicate Less(a: (nat, nat, nat, nat, nat), b: (nat, nat, nat, nat, nat)) {
    || a.0 < b.0
    || (a.0 == b.0 && a.1 < b.1)
    || (a.0 == b.0 && a.1 == b.1 && a.2 < b.2)
    || (a.0 == b.0 && a.1 == b.1 && a.2 == b.2 && a.3 < b.3)
    || (a.0 == b.0 && a.1 == b.1 && a.2 == b.2 && a.3 == b.3 && a.4 < b.4)
  }

  lemma {:induction false} MovesLeftAfter(ws: seq<Worker>, w: nat, x: Worker)
    requires w < |ws|
    ensures AllMovesLeft(ws[w := x]) + MovesLeft(ws[w].phase) == AllMovesLeft(ws) + MovesLeft(x.phase)
    decreases |ws|
  {
    var n := |ws| - 1;
    if w == n {
      assert ws[w := x][..n] == ws[..n];
    } else {
      MovesLeftAfter(ws[..n], w, x);
      assert ws[w := x][..n] == ws[..n][w := x];
    }
  }

  lemma MoveIsUsed(s: State, w: nat, move: Move)
    requires CanMove(s, w, move)
    ensures move.Dequeue? || MovesLeft(Moved(s, w, move).phase) < MovesLeft(s.workers[w].phase)
  {
  }

  lemma MoveLeadsOn(s: State, w: nat, move: Move, selected: set<Case>)
    requires CanMove(s, w, move)
    ensures Less(Left(DoWork(s, w, move), selected), Left(s, selected))
  {
    MoveIsUsed(s, w, move);
    MovesLeftAfter(s.workers, w, Moved(s, w, move));
    if move.Dequeue? {
      assert |s.pending - {move.job}| < |s.pending|;
    }
  }

  lemma ActLeadsOn(s: State, act: Act, selected: set<Case>)
    requires CanAct(s, act) && s.futures.Keys <= selected
    ensures Less(Left(DoAct(s, act), selected), Left(s, selected))
  {
    match act
    case Absorb(job) => AbsorbingLeadsOn(s, job, selected);
    case KillNext(process) => assert |s.supervisor.todo - {process}| < |s.supervisor.todo|;
    case _ => assert ActsLeft(DoAct(s, act).supervisor) < ActsLeft(s.supervisor);
  }

  lemma AbsorbingLeadsOn(s: State, job: Case, selected: set<Case>)
    requires s.supervisor.Watching? && job in s.futures && job !in s.absorbed && s.futures.Keys <= selected
    ensures Less(Left(AbsorbFuture(s, job), selected), Left(s, selected))
  {
    var open := selected - s.absorbed;
    assert selected - (s.absorbed + {job}) == open - {job};
    assert |open - {job}| < |open|;
  }

  /** Every step that is enabled in a state of some run leaves less to do, in an
      order in which nothing can decrease for ever. */
  lemma EveryStepLeadsOn(workers: nat, projects: set<Project>, selected: set<Case>, schedule: seq<Step>, step: Step)
    requires |projects| == workers
    requires Enabled(After(Start(workers, projects, selected), schedule), step)
    ensures var s := After(Start(workers, projects, selected), schedule);
            Less(Left(Take(s, step), selected), Left(s, selected))
  {
    var s := After(Start(workers, projects, selected), schedule);
    Reachable(workers, projects, selected, schedule);
    match step
    case Work(w, move) => MoveLeadsOn(s, w, move, selected);
    case Supervise(act) => ActLeadsOn(s, act, selected);
  }

  // ---------------------------------------------------------------- nothing is stuck

  /** The next move of a worker that does not wait for the lock or for a project. */
  function NextMove(worker: Worker, project: Project): Move {
    match worker.phase
    case Idle => Check
    case Checking => Check
    case Passed => GetProject(project)
    case Holding => Spawn
    case Spawned => Acquire
    case Registering => Register
    case Registered => ReadStop
    case Unlocking => Unlock
    case Running => Exit(false)
    case Exited => Acquire
    case Forgetting => Forget
    case Forgotten => if worker.broken then Raise else Acquire
    case Asking => Ask
    case Recording => Finish
    case Failing => SetStop
    case Releasing => PutProject
  }

  predicate WaitsForLock(worker: Worker) {
    worker.phase.Spawned? || worker.phase.Exited? || (worker.phase.Forgotten? && !worker.broken)
  }

  lemma WorkersMove(s: State, w: nat, project: Project)
    requires w < |s.workers| && !s.workers[w].phase.Idle?
    requires s.workers[w].phase.Passed? ==> project in s.idle
    requires WaitsForLock(s.workers[w]) ==> s.lock.Free?
    ensures Enabled(s, Work(w, NextMove(s.workers[w], project)))
  {
  }

  lemma {:induction false} SomeoneHolds(ws: seq<Worker>) returns (w: nat)
    requires Holders(ws) > 0
    ensures w < |ws| && HasProject(ws[w].phase)
    decreases |ws|
  {
    var n := |ws| - 1;
    if HasProject(ws[n].phase) {
      w := n;
    } else {
      w := SomeoneHolds(ws[..n]);
    }
  }

  /** While some worker is busy and the supervisor has not got the lock, some worker
      can move: whoever has the lock, or has a project, or waits for neither. */
  lemma SomeWorkerMoves(s: State, projects: set<Project>, w: nat) returns (step: Step)
    requires LockKept(s.workers, s.lock) && !s.lock.HeldBySupervisor? && ProjectsKept(s.workers, s.idle, projects)
    requires s.lock.HeldBy? ==> s.lock.worker < |s.workers|
    requires projects != {} && w < |s.workers| && !s.workers[w].phase.Idle?
    ensures Enabled(s, step)
  {
    var v := w;
    if s.lock.HeldBy? {
      v := s.lock.worker;
      assert HasLock(s.workers[v].phase);
    } else if s.workers[w].phase.Passed? && s.idle == {} {
      v := SomeoneHolds(s.workers);
    }
    var project: Project := 0;
    if s.idle != {} {
      project :| project in s.idle;
    }
    WorkersMove(s, v, project);
    step := Work(v, NextMove(s.workers[v], project));
  }

  /** The lock is held by one of the workers that there are. */
  lemma {:induction false} HolderExists(workers: nat, projects: set<Project>, selected: set<Case>, schedule: seq<Step>)
    ensures var s := After(Start(workers, projects, selected), schedule);
            |s.workers| == workers && (s.lock.HeldBy? ==> s.lock.worker < workers)
    decreases |schedule|
  {
    if schedule != [] {
      HolderExists(workers, projects, selected, schedule[..|schedule| - 1]);
    }
  }

  /** No run is stuck: unless the supervisor has completed or drained it, some step
      is enabled, and not only another interruption once one has been made. */
  lemma NoRunIsStuck(workers: nat, projects: set<Project>, selected: set<Case>, schedule: seq<Step>)
    returns (step: Step)
    requires |projects| == workers
    requires var s := After(Start(workers, projects, selected), schedule);
             !s.supervisor.Drained? && !s.supervisor.Completed?
    ensures Enabled(After(Start(workers, projects, selected), schedule), step)
  {
    var s := After(Start(workers, projects, selected), schedule);
    Reachable(workers, projects, selected, schedule);
    HolderExists(workers, projects, selected, schedule);
    match s.supervisor
    case Watching => step := Supervise(Interrupt);
    case Interrupted =>
      if s.lock.Free? {
        step := Supervise(AcquireToStop);
      } else {
        step := SomeWorkerMoves(s, projects, s.lock.worker);
      }
    case Locked => step := Supervise(RequestStop);
    case Sweeping(todo) =>
      if p :| p in todo {
        step := Supervise(KillNext(p));
      } else {
        step := Supervise(UnlockSwept);
      }
    case Swept => step := Supervise(CancelPending);
    case Cancelled =>
      if AllIdle(s.workers) {
        step := Supervise(Drain);
      } else {
        var w :| 0 <= w < |s.workers| && !s.workers[w].phase.Idle?;
        step := SomeWorkerMoves(s, projects, w);
      }
  }

  // ---------------------------------------------------------------- a run can complete

  ghost predicate Leads(s: State, t: State) {
    exists schedule :: After(s, schedule) == t
  }

  lemma LeadsHere(s: State)
    ensures Leads(s, s)
  {
    assert After(s, []) == s;
  }

  lemma OneMoreStep(s: State, t: State, step: Step)
    requires Leads(s, t)
    ensures Leads(s, Take(t, step))
  {
    var schedule :| After(s, schedule) == t;
    assert (schedule + [step])[..|schedule|] == schedule;
    assert After(s, schedule + [step]) == Take(t, step);
  }

  /** Nothing is under way: no case is in hand, and each that was run is absorbed. */
  predicate IsQuiet(s: State) {
    && s.workers != [] && AllIdle(s.workers) && s.lock.Free? && !s.stop && s.killed == {} && s.idle != {}
    && s.supervisor.Watching? && s.absorbed == s.futures.Keys && s.live == {} && s.alive == {}
  }

  /** Worker 0 runs the case, the lock is free, and nothing else goes on. */
  predicate IsOnIts(s: State, phase: Phase, job: Case) {
    && s.workers != [] && s.workers[0].phase == phase && s.workers[0].job == job
    && (forall w :: 0 < w < |s.workers| ==> s.workers[w].phase.Idle?)
    && s.lock.Free? && !s.stop && s.killed == {} && s.supervisor.Watching?
    && s.absorbed == s.futures.Keys && job !in s.futures
    && s.alive <= {s.workers[0].process} && s.live <= {s.workers[0].process}
  }

  /** What stays as it is while worker 0 runs its case. */
  predicate SameReport(s: State, t: State) {
    t.futures == s.futures && t.pending == s.pending && t.finished == s.finished
  }

  lemma Then(s: State, t: State, move: Move) returns (u: State)
    requires Leads(s, t) && CanMove(t, 0, move)
    ensures u == DoWork(t, 0, move) && Leads(s, u)
  {
    u := DoWork(t, 0, move);
    OneMoreStep(s, t, Work(0, move));
  }

  lemma CaseStarts(s: State, job: Case) returns (t: State)
    requires IsQuiet(s) && job in s.pending && job !in s.futures
    ensures Leads(s, t) && IsOnIts(t, Spawned, job) && SameReport(s.(pending := s.pending - {job}), t)
  {
    var project :| project in s.idle;
    LeadsHere(s);
    t := Then(s, s, Dequeue(job));
    t := Then(s, t, Check);
    t := Then(s, t, GetProject(project));
    t := Then(s, t, Spawn);
  }

  lemma ProcessRegisters(s: State, job: Case) returns (t: State)
    requires IsOnIts(s, Spawned, job)
    ensures Leads(s, t) && IsOnIts(t, Running, job) && SameReport(s, t)
  {
    LeadsHere(s);
    t := Then(s, s, Acquire);
    t := Then(s, t, Register);
    t := Then(s, t, ReadStop);
    t := Then(s, t, Unlock);
  }

  lemma ProcessEnds(s: State, job: Case) returns (t: State)
    requires IsOnIts(s, Running, job)
    ensures Leads(s, t) && IsOnIts(t, Forgotten, job) && SameReport(s, t)
    ensures !t.workers[0].broken && t.alive == {} && t.live == {}
  {
    LeadsHere(s);
    t := Then(s, s, Exit(false));
    t := Then(s, t, Acquire);
    t := Then(s, t, Forget);
  }

  lemma ResultIsAbsorbed(s: State, job: Case) returns (t: State)
    requires IsOnIts(s, Forgotten, job) && !s.workers[0].broken && s.alive == {} && s.live == {}
    ensures Leads(s, t) && IsQuiet(t) && t.futures.Keys == s.futures.Keys + {job} && t.pending == s.pending
  {
    LeadsHere(s);
    t := Then(s, s, Acquire);
    t := Then(s, t, Ask);
    t := Then(s, t, Finish);
    t := Then(s, t, PutProject);
    OneMoreStep(s, t, Supervise(Absorb(job)));
    t := Take(t, Supervise(Absorb(job)));
  }

  lemma LeadsFurther(s: State, t: State, u: State)
    requires Leads(s, t) && Leads(t, u)
    ensures Leads(s, u)
  {
    var a :| After(s, a) == t;
    var b :| After(t, b) == u;
    OneAfterTheOther(s, a, b);
    assert After(s, a + b) == u;
  }

  lemma {:induction false} OneAfterTheOther(s: State, a: seq<Step>, b: seq<Step>)
    ensures After(s, a + b) == After(After(s, a), b)
    decreases |b|
  {
    if b == [] {
      assert a + b == a;
    } else {
      OneAfterTheOther(s, a, b[..|b| - 1]);
      assert (a + b)[..|a + b| - 1] == a + b[..|b| - 1];
    }
  }

  lemma OneCaseRuns(s: State, job: Case) returns (t: State)
    requires IsQuiet(s) && job in s.pending && job !in s.futures
    ensures Leads(s, t) && IsQuiet(t) && t.futures.Keys == s.futures.Keys + {job} && t.pending == s.pending - {job}
  {
    var a := CaseStarts(s, job);
    var b := ProcessRegisters(a, job);
    var c := ProcessEnds(b, job);
    t := ResultIsAbsorbed(c, job);
    LeadsFurther(s, a, b);
    LeadsFurther(s, b, c);
    LeadsFurther(s, c, t);
  }

  lemma {:induction false} AllCasesRun(s: State) returns (t: State)
    requires IsQuiet(s) && s.pending !! s.futures.Keys
    ensures Leads(s, t) && t.supervisor.Completed?
    decreases |s.pending|
  {
    LeadsHere(s);
    if job :| job in s.pending {
      var next := OneCaseRuns(s, job);
      t := AllCasesRun(next);
      LeadsFurther(s, next, t);
    } else {
      t := Take(s, Supervise(Complete));
      OneMoreStep(s, s, Supervise(Complete));
    }
  }

  /** Every run can complete: with a worker and a project there is a schedule after
      which each selected case has its result. */
  lemma RunsCanComplete(workers: nat, projects: set<Project>, selected: set<Case>) returns (schedule: seq<Step>)
    requires |projects| == workers && workers > 0
    ensures var s := After(Start(workers, projects, selected), schedule);
            s.supervisor.Completed? && s.finished.Keys == selected
  {
    var t := AllCasesRun(Start(workers, projects, selected));
    schedule :| After(Start(workers, projects, selected), schedule) == t;
    CompletedRunsAreWhole(workers, projects, selected, schedule);
  }
}
