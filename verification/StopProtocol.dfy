/** Isolated case execution: worker threads that each run one case process at a
    time in a staged project, and the supervisor that stops them.

    Every access to the shared sets, the stop event and the lock is a step of its
    own.  A schedule is any sequence of steps; a step that is not enabled does
    nothing, so what holds after every schedule holds in every interleaving. */
module StopProtocol {
  type Case = nat
  type Project = nat
  type Process = nat

  datatype Outcome = Skipped | Killed(process: Process) | Failed | Record(process: Process)

  /** Where a worker is in running its case, in order. */
  datatype Phase =
    | Idle         // waits for a case
    | Checking     // has a case, has not yet looked at the stop event
    | Passed       // found it unset, is about to take a project
    | Holding      // has a project, has not yet started the process
    | Spawned      // the process runs and nobody knows it
    | Registering  // has the lock and is about to add it to the live processes
    | Registered   // has added it and is about to look at the stop event
    | Unlocking    // is about to give the lock back
    | Running      // waits for the process to end
    | Exited       // the process has ended
    | Forgetting   // has the lock and is about to remove the process
    | Forgotten    // has removed it and given the lock back
    | Asking       // has the lock and is about to ask whether it was killed
    | Recording    // it was not: evaluates its output
    | Failing      // is about to set the stop event, without the lock
    | Releasing    // has an outcome and is about to put the project back

  datatype Worker = Worker(phase: Phase, job: Case, project: Project, process: Process, broken: bool, outcome: Outcome)

  datatype Lock = Free | HeldBy(worker: nat) | HeldBySupervisor

  /** `Sweeping` is the locked sweep, over a snapshot of the live processes. */
  datatype Supervisor =
    | Watching
    | Interrupted
    | Locked
    | Sweeping(todo: set<Process>)
    | Swept
    | Cancelled
    | Drained
    | Completed

  /** `live` and `killed` are the sets under the lock; `alive` are the processes
      that the system still runs, and `late` the workers that started one after the
      stop.  `futures` holds the outcomes, of which the supervisor has `absorbed`
      some into the report. */
  datatype State = State(
    workers: seq<Worker>,
    idle: set<Project>,
    lock: Lock,
    stop: bool,
    live: set<Process>,
    killed: set<Process>,
    alive: set<Process>,
    spawned: nat,
    pending: set<Case>,
    cancelled: set<Case>,
    futures: map<Case, Outcome>,
    absorbed: set<Case>,
    finished: map<Case, Process>,
    stopped: set<Case>,
    supervisor: Supervisor,
    late: seq<nat>)

  datatype Move =
    | Dequeue(job: Case)
    | Check
    | GetProject(project: Project)
    | Spawn
    | Acquire
    | Register
    | ReadStop
    | Unlock
    | Exit(broken: bool)
    | Forget
    | Ask
    | Finish
    | Raise
    | SetStop
    | PutProject

  datatype Act =
    | Absorb(job: Case)
    | Interrupt
    | AcquireToStop
    | RequestStop
    | KillNext(process: Process)
    | UnlockSwept
    | CancelPending
    | Drain
    | Complete

  datatype Step = Work(w: nat, move: Move) | Supervise(act: Act)

  function Start(workers: nat, projects: set<Project>, selected: set<Case>): State {
    State(seq(workers, _ => Worker(Idle, 0, 0, 0, false, Skipped)), projects, Free, false, {}, {}, {}, 0,
          selected, {}, map[], {}, map[], {}, Watching, [])
  }

  // ---------------------------------------------------------------- a worker moves

  /** Where a worker goes when it gets the lock. */
  function Locking(worker: Worker): Phase {
    match worker.phase
    case Spawned => Registering
    case Exited => Forgetting
    case Forgotten => if worker.broken then Idle else Asking
    case _ => Idle
  }

  predicate CanMove(s: State, w: nat, move: Move) {
    w < |s.workers| &&
    var phase := s.workers[w].phase;
    match move
    case Dequeue(job) => phase.Idle? && job in s.pending
    case Check => phase.Checking?
    case GetProject(project) => phase.Passed? && project in s.idle
    case Spawn => phase.Holding?
    case Acquire => s.lock.Free? && Locking(s.workers[w]) != Idle
    case Register => phase.Registering?
    case ReadStop => phase.Registered?
    case Unlock => phase.Unlocking?
    case Exit(_) => phase.Running?
    case Forget => phase.Forgetting?
    case Ask => phase.Asking?
    case Finish => phase.Recording?
    case Raise => phase.Holding? || phase.Recording? || (phase.Forgotten? && s.workers[w].broken)
    case SetStop => phase.Failing?
    case PutProject => phase.Releasing?
  }

  function Moved(s: State, w: nat, move: Move): Worker
    requires CanMove(s, w, move)
  {
    var worker := s.workers[w];
    match move
    case Dequeue(job) => worker.(phase := Checking, job := job)
    case Check => worker.(phase := if s.stop then Idle else Passed)
    case GetProject(project) => worker.(phase := Holding, project := project)
    case Spawn => worker.(phase := Spawned, process := s.spawned)
    case Acquire => worker.(phase := Locking(worker))
    case Register => worker.(phase := Registered)
    case ReadStop => worker.(phase := Unlocking)
    case Unlock => worker.(phase := Running)
    case Exit(broken) => worker.(phase := Exited, broken := broken)
    case Forget => worker.(phase := Forgotten)
    case Ask =>
      if worker.process in s.killed then worker.(phase := Releasing, outcome := Killed(worker.process))
      else worker.(phase := Recording)
    case Finish => worker.(phase := Releasing, outcome := Record(worker.process))
    case Raise => worker.(phase := Failing)
    case SetStop => worker.(phase := Releasing, outcome := Failed)
    case PutProject => worker.(phase := Idle)
  }

  function MovedWorkers(s: State, w: nat, move: Move): seq<Worker>
    requires CanMove(s, w, move)
  {
    s.workers[w := Moved(s, w, move)]
  }

  function LockAfter(s: State, w: nat, move: Move): Lock {
    if move.Acquire? then HeldBy(w) else if move.Unlock? || move.Forget? || move.Ask? then Free else s.lock
  }

  function IdleAfter(s: State, w: nat, move: Move): set<Project>
    requires CanMove(s, w, move)
  {
    match move
    case GetProject(project) => s.idle - {project}
    case PutProject => s.idle + {s.workers[w].project}
    case _ => s.idle
  }

  function LiveAfter(s: State, w: nat, move: Move): set<Process>
    requires CanMove(s, w, move)
  {
    match move
    case Register => s.live + {s.workers[w].process}
    case Forget => s.live - {s.workers[w].process}
    case _ => s.live
  }

  /** The processes that the system still runs. */
  function AliveAfter(s: State, w: nat, move: Move): set<Process>
    requires CanMove(s, w, move)
  {
    match move
    case Spawn => s.alive + {s.spawned}
    case Exit(_) => s.alive - {s.workers[w].process}
    case _ => s.alive
  }

  function KilledAfter(s: State, w: nat, move: Move): set<Process>
    requires CanMove(s, w, move)
  {
    if move.ReadStop? && s.stop then s.killed + {s.workers[w].process} else s.killed
  }

  function FuturesAfter(s: State, w: nat, move: Move): map<Case, Outcome>
    requires CanMove(s, w, move)
  {
    match move
    case Check => if s.stop then s.futures[s.workers[w].job := Skipped] else s.futures
    case PutProject => s.futures[s.workers[w].job := s.workers[w].outcome]
    case _ => s.futures
  }

  function LateAfter(s: State, w: nat, move: Move): seq<nat> {
    if move.Spawn? && s.stop then s.late + [w] else s.late
  }

  function DoWork(s: State, w: nat, move: Move): State
    requires CanMove(s, w, move)
  {
    s.(workers := MovedWorkers(s, w, move), lock := LockAfter(s, w, move), idle := IdleAfter(s, w, move),
       live := LiveAfter(s, w, move), alive := AliveAfter(s, w, move), killed := KilledAfter(s, w, move),
       spawned := if move.Spawn? then s.spawned + 1 else s.spawned,
       stop := s.stop || move.SetStop?,
       pending := if move.Dequeue? then s.pending - {move.job} else s.pending,
       futures := FuturesAfter(s, w, move),
       late := LateAfter(s, w, move))
  }

  // ---------------------------------------------------------------- the supervisor acts

  predicate AllIdle(ws: seq<Worker>) {
    forall w :: 0 <= w < |ws| ==> ws[w].phase.Idle?
  }

  predicate CanAct(s: State, act: Act) {
    match act
    case Absorb(job) => s.supervisor.Watching? && job in s.futures && job !in s.absorbed
    case Interrupt => s.supervisor.Watching?
    case AcquireToStop => s.supervisor.Interrupted? && s.lock.Free?
    case RequestStop => s.supervisor.Locked?
    case KillNext(process) => s.supervisor.Sweeping? && process in s.supervisor.todo
    case UnlockSwept => s.supervisor.Sweeping? && s.supervisor.todo == {}
    case CancelPending => s.supervisor.Swept?
    case Drain => s.supervisor.Cancelled? && AllIdle(s.workers)
    case Complete => s.supervisor.Watching? && s.pending == {} && s.absorbed == s.futures.Keys && AllIdle(s.workers)
  }

  function DoAct(s: State, act: Act): State
    requires CanAct(s, act)
  {
    match act
    case Absorb(job) => AbsorbFuture(s, job)
    case Interrupt => s.(supervisor := Interrupted)
    case AcquireToStop => s.(supervisor := Locked, lock := HeldBySupervisor)
    case RequestStop => s.(stop := true, supervisor := Sweeping(s.live))
    case KillNext(process) => s.(killed := s.killed + {process}, supervisor := Sweeping(s.supervisor.todo - {process}))
    case UnlockSwept => s.(supervisor := Swept, lock := Free)
    case CancelPending => s.(supervisor := Cancelled, pending := {}, cancelled := s.pending)
    case Drain => DrainFutures(s)
    case Complete => s.(supervisor := Completed)
  }

  /** A failed case raises in the supervisor; a skipped one leaves no trace. */
  function AbsorbFuture(s: State, job: Case): State
    requires job in s.futures
  {
    match s.futures[job]
    case Failed => s.(supervisor := Interrupted)
    case Killed(_) => s.(absorbed := s.absorbed + {job}, stopped := s.stopped + {job})
    case Record(process) => s.(absorbed := s.absorbed + {job}, finished := s.finished[job := process])
    case Skipped => s.(absorbed := s.absorbed + {job})
  }

  function DrainFutures(s: State): State {
    s.(supervisor := Drained,
       stopped := s.stopped + (set job | job in s.futures && s.futures[job].Killed?),
       finished := s.finished + (map job | job in s.futures && s.futures[job].Record? && job !in s.finished ::
                                 s.futures[job].process))
  }

  // ---------------------------------------------------------------- schedules

  predicate Enabled(s: State, step: Step) {
    match step
    case Work(w, move) => CanMove(s, w, move)
    case Supervise(act) => CanAct(s, act)
  }

  function Take(s: State, step: Step): State {
    if !Enabled(s, step) then s
    else match step
      case Work(w, move) => DoWork(s, w, move)
      case Supervise(act) => DoAct(s, act)
  }

  function After(s: State, schedule: seq<Step>): State {
    if schedule == [] then s else Take(After(s, schedule[..|schedule| - 1]), schedule[|schedule| - 1])
  }

  // ---------------------------------------------------------------- invariants

  predicate HasLock(p: Phase) {
    p.Registering? || p.Registered? || p.Unlocking? || p.Forgetting? || p.Asking?
  }

  predicate HasProject(p: Phase) {
    !(p.Idle? || p.Checking? || p.Passed?)
  }

  /** The worker's process is among the live ones. */
  predicate IsLive(p: Phase) {
    p.Registered? || p.Unlocking? || p.Running? || p.Exited? || p.Forgetting?
  }

  predicate IsNew(p: Phase) {
    p.Spawned? || p.Registering?
  }

  predicate Owns(worker: Worker) {
    || IsNew(worker.phase) || IsLive(worker.phase)
    || worker.phase.Forgotten? || worker.phase.Asking? || worker.phase.Recording?
    || (worker.phase.Releasing? && worker.outcome.Record?)
  }

  predicate SupervisorHasLock(s: State) {
    s.supervisor.Locked? || s.supervisor.Sweeping?
  }

  predicate IsSwept(s: State) {
    s.supervisor.Swept? || s.supervisor.Cancelled? || s.supervisor.Drained?
  }

  predicate Exclusive(s: State) {
    && (s.lock.HeldBySupervisor? <==> SupervisorHasLock(s))
    && LockKept(s.workers, s.lock)
  }

  predicate LockKept(ws: seq<Worker>, lock: Lock) {
    forall w :: 0 <= w < |ws| ==> (HasLock(ws[w].phase) <==> lock == HeldBy(w))
  }

  function Holders(ws: seq<Worker>): nat {
    if ws == [] then 0
    else Holders(ws[..|ws| - 1]) + (if HasProject(ws[|ws| - 1].phase) then 1 else 0)
  }

  /** Each project is idle or held by one worker, and none is lost. */
  predicate ProjectsKept(ws: seq<Worker>, idle: set<Project>, projects: set<Project>) {
    && idle <= projects
    && (forall w :: 0 <= w < |ws| && HasProject(ws[w].phase) ==> ws[w].project in projects && ws[w].project !in idle)
    && (forall v, w :: 0 <= v < w < |ws| && HasProject(ws[v].phase) && HasProject(ws[w].phase) ==>
        ws[v].project != ws[w].project)
    && |idle| + Holders(ws) == |projects|
  }

  /** A process belongs to the worker that started it. */
  predicate ProcessesKept(ws: seq<Worker>, spawned: nat) {
    && (forall w :: 0 <= w < |ws| && Owns(ws[w]) ==> ws[w].process < spawned)
    && (forall v, w :: 0 <= v < w < |ws| && Owns(ws[v]) && Owns(ws[w]) ==> ws[v].process != ws[w].process)
    && (forall w :: 0 <= w < |ws| ==> NamesItsProcess(ws[w]))
  }

  predicate NamesItsProcess(worker: Worker) {
    worker.phase.Releasing? && worker.outcome.Record? ==> worker.outcome.process == worker.process
  }

  /** The process of the worker has not ended. */
  predicate Runs(p: Phase) {
    IsNew(p) || p.Registered? || p.Unlocking? || p.Running?
  }

  predicate IsLiveProcess(ws: seq<Worker>, p: Process) {
    exists w :: 0 <= w < |ws| && IsLive(ws[w].phase) && ws[w].process == p
  }

  predicate IsRunningProcess(ws: seq<Worker>, p: Process) {
    exists w :: 0 <= w < |ws| && Runs(ws[w].phase) && ws[w].process == p
  }

  predicate LiveKept(ws: seq<Worker>, live: set<Process>, alive: set<Process>) {
    && (forall w :: 0 <= w < |ws| && Owns(ws[w]) ==> (ws[w].process in live <==> IsLive(ws[w].phase)))
    && (forall p :: p in live ==> IsLiveProcess(ws, p))
    && (forall p :: p in alive ==> IsRunningProcess(ws, p))
  }

  /** No stop has reached the process of the worker, or none ever will. */
  predicate IsClean(worker: Worker) {
    IsNew(worker.phase) || worker.phase.Recording? || (worker.phase.Releasing? && worker.outcome.Record?)
  }

  predicate KilledKept(ws: seq<Worker>, killed: set<Process>, spawned: nat) {
    && (forall p :: p in killed ==> p < spawned)
    && (forall w :: 0 <= w < |ws| && IsClean(ws[w]) ==> ws[w].process !in killed)
  }

  /** A result belongs to a process that was never signalled, and never will be. */
  predicate IsFinal(ws: seq<Worker>, p: Process, killed: set<Process>, live: set<Process>, spawned: nat) {
    && p < spawned && p !in killed && p !in live
    && forall w :: 0 <= w < |ws| && Owns(ws[w]) ==> ws[w].process != p
  }

  predicate RecordsKept(s: State) {
    forall job :: job in s.futures && s.futures[job].Record? ==>
      IsFinal(s.workers, s.futures[job].process, s.killed, s.live, s.spawned)
  }

  predicate SweepKept(s: State) {
    && (s.killed != {} ==> s.stop)
    && (s.supervisor.Sweeping? ==> s.stop && s.supervisor.todo <= s.live && s.live <= s.supervisor.todo + s.killed)
    && (IsSwept(s) ==> s.stop && AllSignalled(s.workers, s.killed))
  }

  predicate AllSignalled(ws: seq<Worker>, killed: set<Process>) {
    forall w :: 0 <= w < |ws| && IsLive(ws[w].phase) && !ws[w].phase.Registered? ==> ws[w].process in killed
  }

  /** Only a worker that had passed the check before the stop starts a process
      after it, and only one. */
  predicate LateKept(ws: seq<Worker>, late: seq<nat>) {
    && (forall i :: 0 <= i < |late| ==> late[i] < |ws|)
    && (forall i :: 0 <= i < |late| ==> !ws[late[i]].phase.Passed? && !ws[late[i]].phase.Holding?)
    && (forall i, j :: 0 <= i < j < |late| ==> late[i] != late[j])
  }

  predicate InHand(ws: seq<Worker>, job: Case) {
    exists w :: 0 <= w < |ws| && !ws[w].phase.Idle? && ws[w].job == job
  }

  /** Each case is pending, cancelled, in the hands of one worker, or done. */
  predicate CasesKept(ws: seq<Worker>, pending: set<Case>, cancelled: set<Case>, done: set<Case>, selected: set<Case>) {
    && pending + cancelled + done <= selected
    && pending !! cancelled && pending !! done && cancelled !! done
    && (forall w :: 0 <= w < |ws| && !ws[w].phase.Idle? ==>
        ws[w].job in selected && ws[w].job !in pending + cancelled + done)
    && (forall v, w :: 0 <= v < w < |ws| && !ws[v].phase.Idle? && !ws[w].phase.Idle? ==> ws[v].job != ws[w].job)
    && (forall job :: job in selected && job !in pending + cancelled + done ==> InHand(ws, job))
  }

  predicate IsAbsorbed(s: State, job: Case)
    requires job in s.futures
  {
    && (s.futures[job].Record? ==> job in s.finished)
    && (s.futures[job].Killed? ==> job in s.stopped)
  }

  /** The report says of each case what its future says. */
  predicate ReportKept(s: State) {
    && s.absorbed <= s.futures.Keys && s.finished.Keys <= s.futures.Keys && s.stopped <= s.futures.Keys
    && (forall job :: job in s.finished ==> s.futures[job] == Record(s.finished[job]))
    && (forall job :: job in s.stopped ==> s.futures[job].Killed?)
    && (forall job :: job in s.absorbed ==> !s.futures[job].Failed? && IsAbsorbed(s, job))
    && (s.supervisor.Drained? ==> forall job :: job in s.futures ==> IsAbsorbed(s, job))
  }

  predicate AtRest(s: State) {
    && (s.supervisor.Drained? ==> AllIdle(s.workers) && s.pending == {})
    && (s.supervisor.Cancelled? ==> s.pending == {})
    && (s.supervisor.Completed? ==> AllIdle(s.workers) && s.pending == {} && s.absorbed == s.futures.Keys)
    && (s.cancelled != {} ==> s.supervisor.Cancelled? || s.supervisor.Drained?)
  }

  predicate IsFailing(worker: Worker) {
    worker.phase.Releasing? && worker.outcome.Failed?
  }

  predicate FailureSeen(ws: seq<Worker>, futures: map<Case, Outcome>) {
    (exists w :: 0 <= w < |ws| && IsFailing(ws[w])) || (exists job :: job in futures && futures[job].Failed?)
  }

  predicate Requested(supervisor: Supervisor) {
    !(supervisor.Watching? || supervisor.Interrupted? || supervisor.Locked? || supervisor.Completed?)
  }

  /** Before the supervisor asks for a stop, only a failure can have caused one. */
  predicate CauseKept(s: State) {
    s.stop && !Requested(s.supervisor) ==> FailureSeen(s.workers, s.futures)
  }

  /** An outcome says what happened: a process was killed, or a stop was seen. */
  predicate OutcomesKept(s: State) {
    && (forall job :: job in s.futures ==> OutcomeHolds(s.futures[job], s.killed, s.stop))
    && (forall w :: 0 <= w < |s.workers| && s.workers[w].phase.Releasing? ==>
         OutcomeHolds(s.workers[w].outcome, s.killed, s.stop))
  }

  predicate OutcomeHolds(outcome: Outcome, killed: set<Process>, stop: bool) {
    && (outcome.Killed? ==> outcome.process in killed)
    && (outcome.Skipped? ==> stop)
  }

  // ---------------------------------------------------------------- a step of one worker

  lemma ProcessesMove(ws: seq<Worker>, w: nat, x: Worker, spawned: nat, now: nat)
    requires w < |ws| && ProcessesKept(ws, spawned) && spawned <= now && NamesItsProcess(x)
    requires Owns(x) ==> (Owns(ws[w]) && x.process == ws[w].process) || spawned <= x.process < now
    ensures ProcessesKept(ws[w := x], now)
  {
  }

  /** A worker adds and removes no process but its own. */
  predicate ProcessMoves(before: Worker, x: Worker, live: set<Process>, nowLive: set<Process>, alive: set<Process>,
                         nowAlive: set<Process>) {
    && (nowLive == live || (Owns(x) && (nowLive == live + {x.process} || nowLive == live - {x.process})))
    && (IsLive(before.phase) ==> Owns(x) && x.process == before.process)
    && (nowAlive == alive || (Runs(x.phase) && nowAlive == alive + {x.process}) || nowAlive == alive - {x.process})
    && (Runs(before.phase) ==> x.process == before.process && (Runs(x.phase) || x.process !in nowAlive))
  }

  lemma LiveMoves(ws: seq<Worker>, w: nat, x: Worker, live: set<Process>, nowLive: set<Process>, alive: set<Process>,
                  nowAlive: set<Process>)
    requires w < |ws| && LiveKept(ws, live, alive)
    requires forall v :: 0 <= v < |ws| && v != w && Owns(ws[v]) && Owns(x) ==> ws[v].process != x.process
    requires Owns(x) ==> (x.process in nowLive <==> IsLive(x.phase))
    requires ProcessMoves(ws[w], x, live, nowLive, alive, nowAlive)
    ensures LiveKept(ws[w := x], nowLive, nowAlive)
  {
    var now := ws[w := x];
    forall p | p in nowLive
      ensures IsLiveProcess(now, p)
    {
      if Owns(x) && p == x.process {
        assert now[w] == x;
      } else {
        var v :| 0 <= v < |ws| && IsLive(ws[v].phase) && ws[v].process == p;
        assert now[v] == ws[v];
      }
    }
    forall p | p in nowAlive
      ensures IsRunningProcess(now, p)
    {
      if Runs(x.phase) && p == x.process {
        assert now[w] == x;
      } else {
        var v :| 0 <= v < |ws| && Runs(ws[v].phase) && ws[v].process == p;
        assert now[v] == ws[v];
      }
    }
  }

  lemma FinalMoves(ws: seq<Worker>, w: nat, x: Worker, p: Process, killed: set<Process>, nowKilled: set<Process>,
                   live: set<Process>, nowLive: set<Process>, spawned: nat, now: nat)
    requires w < |ws| && IsFinal(ws, p, killed, live, spawned) && spawned <= now
    requires Owns(x) ==> (Owns(ws[w]) && x.process == ws[w].process) || spawned <= x.process
    requires nowKilled <= killed || (Owns(x) && nowKilled <= killed + {x.process})
    requires nowLive <= live || (Owns(x) && nowLive <= live + {x.process})
    ensures IsFinal(ws[w := x], p, nowKilled, nowLive, now)
  {
  }

  lemma HoldersMove(ws: seq<Worker>, w: nat, x: Worker)
    requires w < |ws|
    ensures Holders(ws[w := x]) + (if HasProject(ws[w].phase) then 1 else 0)
            == Holders(ws) + (if HasProject(x.phase) then 1 else 0)
    decreases |ws|
  {
    var n := |ws| - 1;
    if w == n {
      assert ws[w := x][..n] == ws[..n];
    } else {
      assert ws[w := x][..n] == ws[..n][w := x];
      HoldersMove(ws[..n], w, x);
    }
  }

  /** A project stays where it is, is taken, or is put back. */
  predicate ProjectMoves(before: Worker, x: Worker, idle: set<Project>, now: set<Project>) {
    || (now == idle && HasProject(x.phase) == HasProject(before.phase) && x.project == before.project)
    || (!HasProject(before.phase) && HasProject(x.phase) && x.project in idle && now == idle - {x.project})
    || (HasProject(before.phase) && !HasProject(x.phase) && now == idle + {before.project})
  }

  lemma ProjectsMove(ws: seq<Worker>, w: nat, x: Worker, idle: set<Project>, now: set<Project>, projects: set<Project>)
    requires w < |ws| && ProjectsKept(ws, idle, projects)
    requires ProjectMoves(ws[w], x, idle, now)
    ensures ProjectsKept(ws[w := x], now, projects)
  {
    HoldersMove(ws, w, x);
  }

  lemma CasesMove(ws: seq<Worker>, w: nat, x: Worker, pending: set<Case>, nowPending: set<Case>, cancelled: set<Case>,
                  done: set<Case>, nowDone: set<Case>, selected: set<Case>)
    requires w < |ws| && CasesKept(ws, pending, cancelled, done, selected)
    requires || (nowPending == pending && nowDone == done && x.phase.Idle? == ws[w].phase.Idle? && x.job == ws[w].job)
             || (ws[w].phase.Idle? && !x.phase.Idle? && x.job in pending && nowPending == pending - {x.job}
                 && nowDone == done)
             || (!ws[w].phase.Idle? && x.phase.Idle? && nowPending == pending && nowDone == done + {ws[w].job})
    ensures CasesKept(ws[w := x], nowPending, cancelled, nowDone, selected)
  {
    var now := ws[w := x];
    forall job | job in selected && job !in nowPending + cancelled + nowDone
      ensures InHand(now, job)
    {
      if !x.phase.Idle? && x.job == job {
        assert now[w] == x;
      } else {
        assert job !in pending + cancelled + done;
        var v :| 0 <= v < |ws| && !ws[v].phase.Idle? && ws[v].job == job;
        assert now[v] == ws[v];
      }
    }
  }

  lemma FailureStaysSeen(ws: seq<Worker>, w: nat, x: Worker, futures: map<Case, Outcome>, now: map<Case, Outcome>)
    requires w < |ws| && FailureSeen(ws, futures)
    requires forall job :: job in futures ==> job in now && now[job] == futures[job]
    requires IsFailing(ws[w]) ==> IsFailing(x) || (ws[w].job in now && now[ws[w].job].Failed?)
    ensures FailureSeen(ws[w := x], now)
  {
    var after := ws[w := x];
    if v :| 0 <= v < |ws| && IsFailing(ws[v]) {
      assert after[v] == if v == w then x else ws[v];
    }
  }

  // ---------------------------------------------------------------- every step keeps the invariant

  ghost predicate Inv(s: State, projects: set<Project>, selected: set<Case>) {
    && |projects| == |s.workers|
    && Exclusive(s)
    && ProjectsKept(s.workers, s.idle, projects)
    && ProcessesKept(s.workers, s.spawned)
    && LiveKept(s.workers, s.live, s.alive)
    && KilledKept(s.workers, s.killed, s.spawned)
    && RecordsKept(s)
    && SweepKept(s)
    && (s.late != [] ==> s.stop) && LateKept(s.workers, s.late)
    && CasesKept(s.workers, s.pending, s.cancelled, s.futures.Keys, selected)
    && ReportKept(s)
    && AtRest(s)
    && CauseKept(s) && OutcomesKept(s)
  }

  lemma WorkKeepsExclusive(s: State, w: nat, move: Move)
    requires CanMove(s, w, move) && Exclusive(s)
    ensures Exclusive(DoWork(s, w, move))
  {
  }

  lemma WorkKeepsProjects(s: State, w: nat, move: Move, projects: set<Project>)
    requires CanMove(s, w, move) && ProjectsKept(s.workers, s.idle, projects)
    ensures ProjectsKept(MovedWorkers(s, w, move), IdleAfter(s, w, move), projects)
  {
    ProjectsMove(s.workers, w, Moved(s, w, move), s.idle, IdleAfter(s, w, move), projects);
  }

  lemma WorkKeepsProcesses(s: State, w: nat, move: Move)
    requires CanMove(s, w, move) && ProcessesKept(s.workers, s.spawned)
    ensures ProcessesKept(MovedWorkers(s, w, move), DoWork(s, w, move).spawned)
    ensures forall v :: 0 <= v < |s.workers| && v != w && Owns(s.workers[v]) && Owns(Moved(s, w, move)) ==>
      s.workers[v].process != Moved(s, w, move).process
  {
    ProcessesMove(s.workers, w, Moved(s, w, move), s.spawned, DoWork(s, w, move).spawned);
    var now := MovedWorkers(s, w, move);
    assert now[w] == Moved(s, w, move);
    assert forall v :: 0 <= v < |s.workers| && v != w ==> now[v] == s.workers[v];
  }

  lemma WorkKeepsLive(s: State, w: nat, move: Move)
    requires CanMove(s, w, move) && ProcessesKept(s.workers, s.spawned) && LiveKept(s.workers, s.live, s.alive)
    ensures LiveKept(MovedWorkers(s, w, move), LiveAfter(s, w, move), AliveAfter(s, w, move))
  {
    WorkKeepsProcesses(s, w, move);
    LiveMoves(s.workers, w, Moved(s, w, move), s.live, LiveAfter(s, w, move), s.alive, AliveAfter(s, w, move));
  }

  lemma WorkKeepsKilled(s: State, w: nat, move: Move)
    requires CanMove(s, w, move) && ProcessesKept(s.workers, s.spawned) && KilledKept(s.workers, s.killed, s.spawned)
    ensures KilledKept(MovedWorkers(s, w, move), KilledAfter(s, w, move), DoWork(s, w, move).spawned)
  {
    WorkKeepsProcesses(s, w, move);
  }

  lemma WorkKeepsRecords(s: State, w: nat, move: Move)
    requires CanMove(s, w, move) && ProcessesKept(s.workers, s.spawned) && LiveKept(s.workers, s.live, s.alive)
    requires KilledKept(s.workers, s.killed, s.spawned) && RecordsKept(s)
    ensures RecordsKept(DoWork(s, w, move))
  {
    var t := DoWork(s, w, move);
    forall job | job in t.futures && t.futures[job].Record?
      ensures IsFinal(t.workers, t.futures[job].process, t.killed, t.live, t.spawned)
    {
      if !move.PutProject? || job != s.workers[w].job {
        assert s.futures[job] == t.futures[job];
        FinalMoves(s.workers, w, Moved(s, w, move), s.futures[job].process, s.killed, KilledAfter(s, w, move),
                   s.live, LiveAfter(s, w, move), s.spawned, t.spawned);
      }
    }
  }

  lemma WorkKeepsSweep(s: State, w: nat, move: Move)
    requires CanMove(s, w, move) && Exclusive(s) && SweepKept(s)
    ensures SweepKept(DoWork(s, w, move))
  {
  }

  lemma WorkKeepsLate(s: State, w: nat, move: Move)
    requires CanMove(s, w, move) && (s.late != [] ==> s.stop) && LateKept(s.workers, s.late)
    ensures LateKept(MovedWorkers(s, w, move), LateAfter(s, w, move))
  {
  }

  lemma WorkKeepsCases(s: State, w: nat, move: Move, selected: set<Case>)
    requires CanMove(s, w, move) && CasesKept(s.workers, s.pending, s.cancelled, s.futures.Keys, selected)
    ensures CasesKept(MovedWorkers(s, w, move), DoWork(s, w, move).pending, s.cancelled, FuturesAfter(s, w, move).Keys,
                      selected)
    ensures forall job :: job in s.futures ==>
            job in FuturesAfter(s, w, move) && FuturesAfter(s, w, move)[job] == s.futures[job]
  {
    CasesMove(s.workers, w, Moved(s, w, move), s.pending, DoWork(s, w, move).pending, s.cancelled, s.futures.Keys,
              FuturesAfter(s, w, move).Keys, selected);
  }

  lemma WorkKeepsReport(s: State, w: nat, move: Move, selected: set<Case>)
    requires CanMove(s, w, move) && CasesKept(s.workers, s.pending, s.cancelled, s.futures.Keys, selected)
    requires ReportKept(s) && AtRest(s)
    ensures ReportKept(DoWork(s, w, move)) && AtRest(DoWork(s, w, move))
  {
    WorkKeepsCases(s, w, move, selected);
    if AllIdle(s.workers) && s.pending == {} {
      assert s.workers[w].phase.Idle?;
    }
  }

  lemma WorkKeepsCause(s: State, w: nat, move: Move, selected: set<Case>)
    requires CanMove(s, w, move) && CasesKept(s.workers, s.pending, s.cancelled, s.futures.Keys, selected)
    requires CauseKept(s)
    ensures CauseKept(DoWork(s, w, move))
  {
    WorkKeepsCases(s, w, move, selected);
    if FailureSeen(s.workers, s.futures) {
      FailureStaysSeen(s.workers, w, Moved(s, w, move), s.futures, FuturesAfter(s, w, move));
    } else if move.SetStop? {
      assert IsFailing(MovedWorkers(s, w, move)[w]);
    }
  }

  lemma WorkKeepsOutcomes(s: State, w: nat, move: Move)
    requires CanMove(s, w, move) && OutcomesKept(s)
    ensures OutcomesKept(DoWork(s, w, move))
  {
    assert s.killed <= KilledAfter(s, w, move);
  }

  lemma WorkKeepsInv(s: State, w: nat, move: Move, projects: set<Project>, selected: set<Case>)
    requires CanMove(s, w, move) && Inv(s, projects, selected)
    ensures Inv(DoWork(s, w, move), projects, selected)
  {
    WorkKeepsExclusive(s, w, move);
    WorkKeepsProjects(s, w, move, projects);
    WorkKeepsProcesses(s, w, move);
    WorkKeepsLive(s, w, move);
    WorkKeepsKilled(s, w, move);
    WorkKeepsRecords(s, w, move);
    WorkKeepsSweep(s, w, move);
    WorkKeepsLate(s, w, move);
    WorkKeepsCases(s, w, move, selected);
    WorkKeepsReport(s, w, move, selected);
    WorkKeepsCause(s, w, move, selected);
    WorkKeepsOutcomes(s, w, move);
  }

  lemma ActKeepsWorkers(s: State, act: Act)
    requires CanAct(s, act) && Exclusive(s)
    ensures var t := DoAct(s, act);
            && Exclusive(t)
            && t.workers == s.workers && t.live == s.live && t.alive == s.alive && t.spawned == s.spawned
            && t.idle == s.idle && t.late == s.late && t.futures == s.futures
  {
  }

  /** A sweep only reaches live processes, and those have no result yet. */
  lemma ActKeepsKilled(s: State, act: Act)
    requires CanAct(s, act) && ProcessesKept(s.workers, s.spawned) && LiveKept(s.workers, s.live, s.alive)
    requires KilledKept(s.workers, s.killed, s.spawned) && SweepKept(s)
    ensures KilledKept(s.workers, DoAct(s, act).killed, s.spawned)
    ensures forall p :: p in DoAct(s, act).killed ==> p in s.killed || p in s.live
  {
    if act.KillNext? {
      forall w | 0 <= w < |s.workers| && IsClean(s.workers[w]) ensures s.workers[w].process != act.process {
        assert Owns(s.workers[w]);
      }
    }
  }

  lemma ActKeepsSweep(s: State, act: Act)
    requires CanAct(s, act) && SweepKept(s) && LiveKept(s.workers, s.live, s.alive)
    ensures SweepKept(DoAct(s, act))
  {
    if act.UnlockSwept? {
      forall w | 0 <= w < |s.workers| && IsLive(s.workers[w].phase) ensures s.workers[w].process in s.killed {
        assert Owns(s.workers[w]);
      }
    }
  }

  lemma DrainKeepsReport(s: State)
    requires ReportKept(s)
    ensures ReportKept(DrainFutures(s))
  {
  }

  lemma ActKeepsReport(s: State, act: Act)
    requires CanAct(s, act) && ReportKept(s)
    ensures ReportKept(DoAct(s, act))
  {
    if act.Drain? {
      DrainKeepsReport(s);
    } else if !act.Absorb? {
      var t := DoAct(s, act);
      assert t.futures == s.futures && t.absorbed == s.absorbed && t.finished == s.finished && t.stopped == s.stopped;
    }
  }

  lemma ActKeepsRest(s: State, act: Act)
    requires CanAct(s, act) && AtRest(s)
    ensures AtRest(DoAct(s, act))
  {
  }

  lemma ActKeepsCause(s: State, act: Act)
    requires CanAct(s, act) && CauseKept(s) && OutcomesKept(s) && Exclusive(s)
    ensures CauseKept(DoAct(s, act)) && OutcomesKept(DoAct(s, act))
  {
    ActKeepsWorkers(s, act);
  }

  lemma ActKeepsInv(s: State, act: Act, projects: set<Project>, selected: set<Case>)
    requires CanAct(s, act) && Inv(s, projects, selected)
    ensures Inv(DoAct(s, act), projects, selected)
  {
    ActKeepsWorkers(s, act);
    ActKeepsKilled(s, act);
    ActKeepsSweep(s, act);
    ActKeepsReport(s, act);
    ActKeepsRest(s, act);
    ActKeepsCause(s, act);
    assert s.late != [] ==> DoAct(s, act).stop;
  }

  lemma StepKeepsInv(s: State, step: Step, projects: set<Project>, selected: set<Case>)
    requires Inv(s, projects, selected)
    ensures Inv(Take(s, step), projects, selected)
  {
    if Enabled(s, step) {
      match step
      case Work(w, move) => WorkKeepsInv(s, w, move, projects, selected);
      case Supervise(act) => ActKeepsInv(s, act, projects, selected);
    }
  }

  lemma {:induction false} NobodyHolds(ws: seq<Worker>)
    requires AllIdle(ws)
    ensures Holders(ws) == 0
  {
    if ws != [] { NobodyHolds(ws[..|ws| - 1]); }
  }

  lemma IdleWorkersKeep(ws: seq<Worker>, projects: set<Project>, selected: set<Case>)
    requires AllIdle(ws) && |projects| == |ws|
    ensures LockKept(ws, Free) && ProjectsKept(ws, projects, projects) && ProcessesKept(ws, 0)
    ensures LiveKept(ws, {}, {}) && KilledKept(ws, {}, 0) && LateKept(ws, [])
            && CasesKept(ws, selected, {}, {}, selected)
  {
    NobodyHolds(ws);
  }

  lemma StartKeepsInv(workers: nat, projects: set<Project>, selected: set<Case>)
    requires |projects| == workers
    ensures Inv(Start(workers, projects, selected), projects, selected)
  {
    var s := Start(workers, projects, selected);
    assert AllIdle(s.workers);
    IdleWorkersKeep(s.workers, projects, selected);
    assert s.futures.Keys == {};
    assert RecordsKept(s) && SweepKept(s) && ReportKept(s) && AtRest(s) && CauseKept(s) && OutcomesKept(s);
  }

  /** The invariant holds after every schedule. */
  lemma {:induction false} Reachable(workers: nat, projects: set<Project>, selected: set<Case>, schedule: seq<Step>)
    requires |projects| == workers
    ensures Inv(After(Start(workers, projects, selected), schedule), projects, selected)
  {
    if schedule == [] {
      StartKeepsInv(workers, projects, selected);
    } else {
      Reachable(workers, projects, selected, schedule[..|schedule| - 1]);
      StepKeepsInv(After(Start(workers, projects, selected), schedule[..|schedule| - 1]), schedule[|schedule| - 1],
                   projects, selected);
    }
  }

  // ---------------------------------------------------------------- results

  /** Once the sweep is over, whoever gets the lock finds every live process
      killed, those that registered after the sweep included. */
  lemma SweptProcessesAreKilled(workers: nat, projects: set<Project>, selected: set<Case>, schedule: seq<Step>)
    requires |projects| == workers
    ensures var s := After(Start(workers, projects, selected), schedule);
            IsSwept(s) && s.lock.Free? ==> s.stop && s.live <= s.killed
  {
    Reachable(workers, projects, selected, schedule);
    var s := After(Start(workers, projects, selected), schedule);
    if IsSwept(s) && s.lock.Free? {
      forall p | p in s.live ensures p in s.killed {
        var w :| 0 <= w < |s.workers| && IsLive(s.workers[w].phase) && s.workers[w].process == p;
        assert !HasLock(s.workers[w].phase);
      }
    }
  }

  /** No case whose process was signalled is published as a result, whether the
      signal came before or after the case was done; it is published as stopped
      only if its process was signalled. */
  lemma KilledCasesAreNotPublished(workers: nat, projects: set<Project>, selected: set<Case>, schedule: seq<Step>,
                                   job: Case)
    requires |projects| == workers
    ensures var s := After(Start(workers, projects, selected), schedule);
            && s.finished.Keys + s.stopped <= s.futures.Keys
            && (job in s.finished ==> s.finished[job] !in s.killed && job !in s.stopped)
            && (job in s.stopped ==> s.futures[job].Killed? && s.futures[job].process in s.killed)
  {
    Reachable(workers, projects, selected, schedule);
    var s := After(Start(workers, projects, selected), schedule);
    if job in s.finished {
      assert s.futures[job] == Record(s.finished[job]);
      assert IsFinal(s.workers, s.finished[job], s.killed, s.live, s.spawned);
    }
  }

  /** Each project is in one place; and since there are as many projects as
      workers, no worker ever waits for one. */
  lemma ProjectsAreNeitherSharedNorLost(workers: nat, projects: set<Project>, selected: set<Case>, schedule: seq<Step>)
    requires |projects| == workers
    ensures var s := After(Start(workers, projects, selected), schedule);
            && ProjectsKept(s.workers, s.idle, projects)
            && (forall p :: p in projects ==> p in s.idle || IsHeld(s.workers, p))
            && (forall w :: 0 <= w < |s.workers| && s.workers[w].phase.Passed? ==> s.idle != {})
  {
    Reachable(workers, projects, selected, schedule);
    var s := After(Start(workers, projects, selected), schedule);
    HeldProjectsCount(s.workers, s.idle, projects);
    forall w | 0 <= w < |s.workers| && s.workers[w].phase.Passed?
      ensures s.idle != {}
    {
      SomeoneHoldsNothing(s.workers, w);
    }
  }

  predicate IsHeld(ws: seq<Worker>, p: Project) {
    exists w :: 0 <= w < |ws| && HasProject(ws[w].phase) && ws[w].project == p
  }

  lemma {:induction false} SomeoneHoldsNothing(ws: seq<Worker>, w: nat)
    requires w < |ws| && !HasProject(ws[w].phase)
    ensures Holders(ws) < |ws|
  {
    var n := |ws| - 1;
    if w < n {
      SomeoneHoldsNothing(ws[..n], w);
    } else {
      HoldersAtMost(ws[..n]);
    }
  }

  lemma {:induction false} HoldersAtMost(ws: seq<Worker>)
    ensures Holders(ws) <= |ws|
  {
    if ws != [] { HoldersAtMost(ws[..|ws| - 1]); }
  }

  lemma {:induction false} HeldProjectsCount(ws: seq<Worker>, idle: set<Project>, projects: set<Project>)
    requires ProjectsKept(ws, idle, projects)
    ensures forall p :: p in projects ==> p in idle || IsHeld(ws, p)
    decreases |ws|
  {
    if ws == [] {
      SubsetOfSameSize(idle, projects);
    } else {
      var n := |ws| - 1;
      var more := if HasProject(ws[n].phase) then idle + {ws[n].project} else idle;
      HeldProjectsCount(ws[..n], more, projects);
      forall p | p in projects ensures p in idle || IsHeld(ws, p) {
        if p !in more {
          var w :| 0 <= w < |ws[..n]| && HasProject(ws[..n][w].phase) && ws[..n][w].project == p;
          assert ws[w].project == p;
        }
      }
    }
  }

  lemma SubsetOfSameSize(a: set<Project>, b: set<Project>)
    requires a <= b && |a| == |b|
    ensures a == b
  {
    assert b == a + (b - a);
  }

  /** After the stop, at most one more process starts for each worker. */
  lemma FewProcessesStartLate(workers: nat, projects: set<Project>, selected: set<Case>, schedule: seq<Step>)
    requires |projects| == workers
    ensures |After(Start(workers, projects, selected), schedule).late| <= workers
  {
    Reachable(workers, projects, selected, schedule);
    var s := After(Start(workers, projects, selected), schedule);
    DistinctBelow(s.late, workers);
  }

  lemma {:induction false} DistinctBelow(xs: seq<nat>, n: nat)
    requires forall i :: 0 <= i < |xs| ==> xs[i] < n
    requires forall i, j :: 0 <= i < j < |xs| ==> xs[i] != xs[j]
    ensures |xs| <= n
    decreases n
  {
    assert xs != [] ==> xs[0] >= 0;
    if n == 0 {
    } else if k :| 0 <= k < |xs| && xs[k] == n - 1 {
      var rest := xs[..k] + xs[k + 1..];
      forall i | 0 <= i < |rest| ensures rest[i] < n - 1 {
        assert rest[i] == if i < k then xs[i] else xs[i + 1];
      }
      forall i, j | 0 <= i < j < |rest| ensures rest[i] != rest[j] {
        assert rest[i] == if i < k then xs[i] else xs[i + 1];
        assert rest[j] == if j < k then xs[j] else xs[j + 1];
      }
      DistinctBelow(rest, n - 1);
    } else {
      DistinctBelow(xs, n - 1);
    }
  }

  /** A run that completes has a result for every case, and nothing was killed. */
  lemma CompletedRunsAreWhole(workers: nat, projects: set<Project>, selected: set<Case>, schedule: seq<Step>)
    requires |projects| == workers
    ensures var s := After(Start(workers, projects, selected), schedule);
            s.supervisor.Completed? ==>
            s.finished.Keys == selected && s.killed == {} && s.alive == {} && s.idle == projects
  {
    Reachable(workers, projects, selected, schedule);
    var s := After(Start(workers, projects, selected), schedule);
    if s.supervisor.Completed? {
      assert !FailureSeen(s.workers, s.futures);
      NothingIsLeft(s, projects);
      forall job | job in selected ensures job in s.finished {
        assert job in s.absorbed;
      }
    }
  }

  lemma NothingIsLeft(s: State, projects: set<Project>)
    requires LiveKept(s.workers, s.live, s.alive) && ProjectsKept(s.workers, s.idle, projects) && AllIdle(s.workers)
    ensures s.live == {} && s.alive == {} && s.idle == projects
  {
    forall p ensures !IsLiveProcess(s.workers, p) && !IsRunningProcess(s.workers, p) {}
    NobodyHolds(s.workers);
    SubsetOfSameSize(s.idle, projects);
  }

  /** A run that was stopped leaves no process and no project behind, and reports
      every case for what it is: the finished ones, the killed ones, and, in
      neither list, those that failed or were never started. */
  lemma StoppedRunsAreAccountedFor(workers: nat, projects: set<Project>, selected: set<Case>, schedule: seq<Step>)
    requires |projects| == workers
    ensures var s := After(Start(workers, projects, selected), schedule);
            s.supervisor.Drained? ==>
              && s.alive == {} && s.live == {} && s.idle == projects
              && s.futures.Keys + s.cancelled == selected && s.futures.Keys !! s.cancelled
              && (forall job :: job in s.futures ==>
                   && (job in s.finished <==> s.futures[job].Record?)
                   && (job in s.stopped <==> s.futures[job].Killed?))
              && s.finished.Keys + s.stopped <= s.futures.Keys
  {
    Reachable(workers, projects, selected, schedule);
    var s := After(Start(workers, projects, selected), schedule);
    if s.supervisor.Drained? {
      NothingIsLeft(s, projects);
    }
  }
}
