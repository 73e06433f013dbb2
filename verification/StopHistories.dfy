/** What a schedule did, told by its steps: which processes it started and ended,
    which workers started one after the stop, and what became of failures. */
module StopHistories {
  import opened StopProtocol

  /** The step starts this process. */
  predicate IsStart(s: State, step: Step, p: Process) {
    step.Work? && step.move.Spawn? && CanMove(s, step.w, step.move) && s.spawned == p
  }

  /** The process ends at this step, well or not. */
  predicate IsEnd(s: State, step: Step, p: Process, broken: bool) {
    step.Work? && step.move == Exit(broken) && CanMove(s, step.w, step.move) && s.workers[step.w].process == p
  }

  predicate Starts(s: State, schedule: seq<Step>, i: int, p: Process) {
    0 <= i < |schedule| && IsStart(After(s, schedule[..i]), schedule[i], p)
  }

  predicate Ends(s: State, schedule: seq<Step>, i: int, p: Process, broken: bool) {
    0 <= i < |schedule| && IsEnd(After(s, schedule[..i]), schedule[i], p, broken)
  }

  ghost predicate HasStarted(s: State, schedule: seq<Step>, p: Process) {
    exists i :: Starts(s, schedule, i, p)
  }

  ghost predicate HasEnded(s: State, schedule: seq<Step>, p: Process) {
    exists i, broken :: Ends(s, schedule, i, p, broken)
  }

  lemma Front(schedule: seq<Step>)
    requires schedule != []
    ensures forall i :: 0 <= i < |schedule| - 1 ==>
              schedule[..|schedule| - 1][i] == schedule[i] && schedule[..|schedule| - 1][..i] == schedule[..i]
  {
  }

  lemma OneMoreStep(s: State, schedule: seq<Step>, p: Process)
    requires schedule != []
    ensures var n := |schedule| - 1;
            && (HasStarted(s, schedule, p) <==> HasStarted(s, schedule[..n], p) || Starts(s, schedule, n, p))
            && (HasEnded(s, schedule, p) <==>
                HasEnded(s, schedule[..n], p) || Ends(s, schedule, n, p, false) || Ends(s, schedule, n, p, true))
  {
    var n := |schedule| - 1;
    Front(schedule);
    if i :| Starts(s, schedule[..n], i, p) {
      assert Starts(s, schedule, i, p);
    }
    if i :| Starts(s, schedule, i, p) && i != n {
      assert Starts(s, schedule[..n], i, p);
    }
    if i, broken :| Ends(s, schedule[..n], i, p, broken) {
      assert Ends(s, schedule, i, p, broken);
    }
    if i, broken :| Ends(s, schedule, i, p, broken) && i != n {
      assert Ends(s, schedule[..n], i, p, broken);
    }
  }

  // ---------------------------------------------------------------- processes

  /** Processes are numbered as they start, and only one that has started ends. */
  lemma {:induction false} StartedAreBelow(workers: nat, projects: set<Project>, selected: set<Case>,
                                           schedule: seq<Step>, p: Process)
    requires |projects| == workers
    ensures var s := Start(workers, projects, selected);
            && (HasStarted(s, schedule, p) <==> p < After(s, schedule).spawned)
            && (HasEnded(s, schedule, p) ==> p < After(s, schedule).spawned)
    decreases |schedule|
  {
    var s := Start(workers, projects, selected);
    if schedule != [] {
      var n := |schedule| - 1;
      StartedAreBelow(workers, projects, selected, schedule[..n], p);
      Reachable(workers, projects, selected, schedule[..n]);
      OneMoreStep(s, schedule, p);
      SpawnedGrows(After(s, schedule[..n]), schedule[n], p);
    }
  }

  lemma SpawnedGrows(s: State, step: Step, p: Process)
    requires ProcessesKept(s.workers, s.spawned)
    ensures p < Take(s, step).spawned <==> p < s.spawned || IsStart(s, step, p)
    ensures IsEnd(s, step, p, false) || IsEnd(s, step, p, true) ==> p < s.spawned
  {
  }

  /** Alive are exactly the processes that some step has started and none has ended. */
  lemma {:induction false} AliveIff(workers: nat, projects: set<Project>, selected: set<Case>, schedule: seq<Step>,
                                    p: Process)
    requires |projects| == workers
    ensures var s := Start(workers, projects, selected);
            p in After(s, schedule).alive <==> HasStarted(s, schedule, p) && !HasEnded(s, schedule, p)
    decreases |schedule|
  {
    var s := Start(workers, projects, selected);
    if schedule != [] {
      var n := |schedule| - 1;
      AliveIff(workers, projects, selected, schedule[..n], p);
      StartedAreBelow(workers, projects, selected, schedule[..n], p);
      OneMoreStep(s, schedule, p);
      AliveChanges(After(s, schedule[..n]), schedule[n], p);
    }
  }

  lemma AliveChanges(s: State, step: Step, p: Process)
    ensures p in Take(s, step).alive <==>
            IsStart(s, step, p) || (p in s.alive && !IsEnd(s, step, p, false) && !IsEnd(s, step, p, true))
  {
  }

  /** When the run is over, completed or drained, every process that was started has
      ended. */
  lemma EveryProcessEnds(workers: nat, projects: set<Project>, selected: set<Case>, schedule: seq<Step>, p: Process)
    requires |projects| == workers
    ensures var s := Start(workers, projects, selected);
            var over := After(s, schedule).supervisor;
            (over.Completed? || over.Drained?) && HasStarted(s, schedule, p) ==> HasEnded(s, schedule, p)
  {
    AliveIff(workers, projects, selected, schedule, p);
    CompletedRunsAreWhole(workers, projects, selected, schedule);
    StoppedRunsAreAccountedFor(workers, projects, selected, schedule);
  }

  // ---------------------------------------------------------------- late starts

  /** Step `i` starts a process although the stop event is set. */
  predicate StartsLate(s: State, schedule: seq<Step>, i: int, w: nat) {
    && 0 <= i < |schedule| && schedule[i] == Work(w, Spawn)
    && CanMove(After(s, schedule[..i]), w, Spawn) && After(s, schedule[..i]).stop
  }

  lemma {:induction false} LateStartsAreRecorded(s: State, schedule: seq<Step>, i: int, w: nat)
    requires StartsLate(s, schedule, i, w)
    ensures w in After(s, schedule).late
    decreases |schedule|
  {
    var n := |schedule| - 1;
    if i < n {
      Front(schedule);
      LateStartsAreRecorded(s, schedule[..n], i, w);
    }
  }

  /** After the stop each worker starts at most one more process. */
  lemma EachStartsLateOnce(workers: nat, projects: set<Project>, selected: set<Case>, schedule: seq<Step>, i: int,
                           j: int, w: nat)
    requires |projects| == workers
    requires StartsLate(Start(workers, projects, selected), schedule, i, w)
    requires StartsLate(Start(workers, projects, selected), schedule, j, w)
    ensures i == j && w < workers
  {
    var s := Start(workers, projects, selected);
    Reachable(workers, projects, selected, schedule[..i]);
    if i < j {
      NoSecondLateStart(workers, projects, selected, schedule, i, j, w);
    } else if j < i {
      NoSecondLateStart(workers, projects, selected, schedule, j, i, w);
    }
  }

  lemma NoSecondLateStart(workers: nat, projects: set<Project>, selected: set<Case>, schedule: seq<Step>, i: int,
                          j: int, w: nat)
    requires |projects| == workers && i < j
    requires StartsLate(Start(workers, projects, selected), schedule, i, w)
    ensures !StartsLate(Start(workers, projects, selected), schedule, j, w)
  {
    var s := Start(workers, projects, selected);
    if j < |schedule| {
      Reachable(workers, projects, selected, schedule[..j]);
      assert schedule[..j][..i] == schedule[..i];
      LateStartsAreRecorded(s, schedule[..j], i, w);
    }
  }

  // ---------------------------------------------------------------- failures

  /** Once a case has failed, the stop event is set. */
  lemma {:induction false} FailuresStop(workers: nat, projects: set<Project>, selected: set<Case>,
                                        schedule: seq<Step>)
    ensures var s := After(Start(workers, projects, selected), schedule);
            FailureSeen(s.workers, s.futures) ==> s.stop
    decreases |schedule|
  {
    if schedule != [] {
      var n := |schedule| - 1;
      var before := After(Start(workers, projects, selected), schedule[..n]);
      FailuresStop(workers, projects, selected, schedule[..n]);
      FailureStep(before, schedule[n]);
    }
  }

  lemma FailureStep(s: State, step: Step)
    ensures FailureSeen(Take(s, step).workers, Take(s, step).futures) ==>
            FailureSeen(s.workers, s.futures) || Take(s, step).stop
    ensures s.stop ==> Take(s, step).stop
  {
    var t := Take(s, step);
    if job :| job in t.futures && t.futures[job].Failed? {
      if Enabled(s, step) && step.Work? && step.move.PutProject? && s.workers[step.w].job == job {
        assert IsFailing(s.workers[step.w]);
      } else {
        assert job in s.futures && s.futures[job].Failed?;
      }
    } else if w :| 0 <= w < |t.workers| && IsFailing(t.workers[w]) {
      if !(step.Work? && step.move.SetStop?) {
        assert IsFailing(s.workers[w]);
      }
    }
  }

  /** Worker `w` fails at step `i`. */
  predicate Fails(s: State, schedule: seq<Step>, i: int, w: nat) {
    0 <= i < |schedule| && schedule[i] == Work(w, SetStop) && CanMove(After(s, schedule[..i]), w, SetStop)
  }

  /** No new case gets as far as its process. */
  predicate StandsBack(s: State, w: nat) {
    s.stop && w < |s.workers| && !s.workers[w].phase.Passed? && !s.workers[w].phase.Holding?
  }

  lemma StandingBackLasts(s: State, step: Step, w: nat)
    requires StandsBack(s, w)
    ensures StandsBack(Take(s, step), w)
  {
  }

  lemma {:induction false} FailedWorkersStandBack(s: State, schedule: seq<Step>, i: int, w: nat)
    requires Fails(s, schedule, i, w)
    ensures StandsBack(After(s, schedule), w)
    decreases |schedule|
  {
    var n := |schedule| - 1;
    if i < n {
      Front(schedule);
      FailedWorkersStandBack(s, schedule[..n], i, w);
      StandingBackLasts(After(s, schedule[..n]), schedule[n], w);
    }
  }

  /** A worker that has failed starts nothing any more, although it gets its next
      case before the supervisor hears of the failure. */
  lemma FailedWorkersStartNothing(s: State, schedule: seq<Step>, i: int, j: int, w: nat)
    requires Fails(s, schedule, i, w) && i < j < |schedule| && schedule[j] == Work(w, Spawn)
    ensures !CanMove(After(s, schedule[..j]), w, Spawn)
  {
    assert schedule[..j][..i] == schedule[..i] && schedule[..j][i] == schedule[i];
    FailedWorkersStandBack(s, schedule[..j], i, w);
  }

  /** The worker's process did not end well. */
  predicate IsBroken(worker: Worker) {
    worker.broken && (worker.phase.Exited? || worker.phase.Forgetting? || worker.phase.Forgotten?)
  }

  ghost predicate Unpublished(s: State, p: Process) {
    && p < s.spawned
    && (forall w :: 0 <= w < |s.workers| && Owns(s.workers[w]) && s.workers[w].process == p ==> IsBroken(s.workers[w]))
    && (forall job :: job in s.futures ==> s.futures[job] != Record(p))
  }

  lemma UnpublishedStep(s: State, step: Step, p: Process)
    requires Unpublished(s, p) && ProcessesKept(s.workers, s.spawned)
    ensures Unpublished(Take(s, step), p)
  {
  }

  lemma BrokenIsUnpublished(s: State, step: Step, p: Process)
    requires IsEnd(s, step, p, true) && ProcessesKept(s.workers, s.spawned) && RecordsKept(s)
    ensures Unpublished(Take(s, step), p)
  {
  }

  lemma {:induction false} StaysUnpublished(workers: nat, projects: set<Project>, selected: set<Case>,
                                            schedule: seq<Step>, i: int, p: Process)
    requires |projects| == workers && Ends(Start(workers, projects, selected), schedule, i, p, true)
    ensures Unpublished(After(Start(workers, projects, selected), schedule), p)
    decreases |schedule|
  {
    var s, n := Start(workers, projects, selected), |schedule| - 1;
    Reachable(workers, projects, selected, schedule[..n]);
    if i == n {
      BrokenIsUnpublished(After(s, schedule[..n]), schedule[n], p);
    } else {
      Front(schedule);
      StaysUnpublished(workers, projects, selected, schedule[..n], i, p);
      UnpublishedStep(After(s, schedule[..n]), schedule[n], p);
    }
  }

  /** What a process left behind that did not end well is never published. */
  lemma BrokenProcessesAreNotPublished(workers: nat, projects: set<Project>, selected: set<Case>,
                                       schedule: seq<Step>, i: int, p: Process, job: Case)
    requires |projects| == workers && Ends(Start(workers, projects, selected), schedule, i, p, true)
    ensures var s := After(Start(workers, projects, selected), schedule);
            job in s.finished ==> s.finished[job] != p
  {
    StaysUnpublished(workers, projects, selected, schedule, i, p);
    Reachable(workers, projects, selected, schedule);
  }
}
