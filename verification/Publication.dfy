/** Publishing generated outputs over existing ones, and taking all of it back
    if a step fails. */
module Publication {

  /** The staging directory holds the generated outputs and the previous ones. */
  datatype Path = Fresh(index: nat) | Previous(index: nat) | Outside(name: nat)

  datatype Node = File(content: nat) | Directory(content: nat, empty: bool)

  type Nodes = map<Path, Node>

  /** `os.replace` overwrites a file with a file, and only an empty directory
      with a directory. */
  predicate Overwrites(a: Node, b: Node) {
    (a.File? && b.File?) || (a.Directory? && b.Directory? && b.empty)
  }

  predicate CanReplace(nodes: Nodes, a: Path, b: Path) {
    a in nodes && (b in nodes ==> Overwrites(nodes[a], nodes[b]))
  }

  function Replace(nodes: Nodes, a: Path, b: Path): Nodes
    requires CanReplace(nodes, a, b)
  {
    (nodes - {a})[b := nodes[a]]
  }

  datatype Step = Move(index: nat) | Publish(index: nat)

  /** A step can fail without any effect; or an interruption can arrive after its
      effect, before the step is written down. */
  datatype Fault = NoFault | Fails(step: Step) | Interrupted(step: Step)

  predicate DistinctNames(targets: seq<nat>) {
    forall i, j :: 0 <= i < j < |targets| ==> targets[i] != targets[j]
  }

  /** Everything is generated, and nothing is backed up yet. */
  predicate Staged(nodes: Nodes, targets: seq<nat>) {
    && DistinctNames(targets)
    && (forall i :: 0 <= i < |targets| ==> Fresh(i) in nodes && Previous(i) !in nodes)
  }

  predicate Happens(nodes: Nodes, targets: seq<nat>, fault: Fault) {
    !fault.NoFault? && fault.step.index < |targets|
    && (fault.step.Move? ==> Outside(targets[fault.step.index]) in nodes)
  }

  // ---------------------------------------------------------------- rollback

  function RemoveAll(nodes: Nodes, published: seq<nat>): Nodes {
    if published == [] then nodes
    else RemoveAll(nodes - {Outside(published[|published| - 1])}, published[..|published| - 1])
  }

  lemma {:induction false} RemovedAt(nodes: Nodes, published: seq<nat>, p: Path)
    ensures p in RemoveAll(nodes, published) <==> p in nodes && !(p.Outside? && p.name in published)
    ensures p in RemoveAll(nodes, published) ==> RemoveAll(nodes, published)[p] == nodes[p]
    decreases |published|
  {
    if published != [] {
      var n := |published| - 1;
      assert published == published[..n] + [published[n]];
      RemovedAt(nodes - {Outside(published[n])}, published[..n], p);
    }
  }

  /** Indices of targets, in the order in which they were moved away. */
  predicate Increasing(moved: seq<nat>, bound: nat) {
    && (forall a :: 0 <= a < |moved| ==> moved[a] < bound)
    && (forall a, b :: 0 <= a < b < |moved| ==> moved[a] < moved[b])
  }

  /** Stops where a replacement fails: the error leaves the handler. */
  function RestoreAll(nodes: Nodes, targets: seq<nat>, moved: seq<nat>): Nodes
    requires Increasing(moved, |targets|)
    decreases |moved|
  {
    if moved == [] then nodes
    else
      var j := moved[|moved| - 1];
      if !CanReplace(nodes, Previous(j), Outside(targets[j])) then nodes
      else RestoreAll(Replace(nodes, Previous(j), Outside(targets[j])), targets, moved[..|moved| - 1])
  }

  /** Every backup has a free place to go back to. */
  predicate Restorable(nodes: Nodes, targets: seq<nat>, moved: seq<nat>) {
    && Increasing(moved, |targets|)
    && (forall a :: 0 <= a < |moved| ==> Previous(moved[a]) in nodes && Outside(targets[moved[a]]) !in nodes)
  }

  predicate IsMoved(targets: seq<nat>, moved: seq<nat>, name: nat)
    requires Increasing(moved, |targets|)
  {
    exists a :: 0 <= a < |moved| && targets[moved[a]] == name
  }

  lemma {:induction false} RestoredAt(nodes: Nodes, targets: seq<nat>, moved: seq<nat>, name: nat)
    requires DistinctNames(targets) && Restorable(nodes, targets, moved)
    ensures var now := RestoreAll(nodes, targets, moved);
            && (!IsMoved(targets, moved, name) ==>
                 (Outside(name) in now <==> Outside(name) in nodes)
                 && (Outside(name) in now ==> now[Outside(name)] == nodes[Outside(name)]))
            && (forall a :: 0 <= a < |moved| && targets[moved[a]] == name ==>
                 Outside(name) in now && now[Outside(name)] == nodes[Previous(moved[a])])
    decreases |moved|
  {
    if moved != [] {
      var n := |moved| - 1;
      var j := moved[n];
      var now := Replace(nodes, Previous(j), Outside(targets[j]));
      var rest := moved[..n];
      forall a | 0 <= a < |rest|
        ensures Previous(rest[a]) in now && Outside(targets[rest[a]]) !in now
                && now[Previous(rest[a])] == nodes[Previous(rest[a])]
      {
        assert rest[a] < j && targets[rest[a]] != targets[j];
      }
      RestoredAt(now, targets, rest, name);
      if targets[j] == name {
        assert !IsMoved(targets, rest, name);
      }
      assert forall a :: 0 <= a < n ==> rest[a] == moved[a];
      assert IsMoved(targets, rest, name) ==> IsMoved(targets, moved, name);
    }
  }

  // ---------------------------------------------------------------- what a run leaves

  predicate SameOutside(before: Nodes, now: Nodes, name: nat) {
    && (Outside(name) in now <==> Outside(name) in before)
    && (Outside(name) in now ==> now[Outside(name)] == before[Outside(name)])
  }

  ghost predicate Restored(before: Nodes, now: Nodes) {
    forall name :: SameOutside(before, now, name)
  }

  /** The first `i` targets are published, and those that existed are backed up. */
  ghost predicate Progress(before: Nodes, now: Nodes, targets: seq<nat>, moved: seq<nat>, i: nat)
    requires i <= |targets| && Staged(before, targets)
  {
    && Increasing(moved, i)
    && (forall k :: 0 <= k < i ==> (k in moved <==> Outside(targets[k]) in before))
    && (forall k :: 0 <= k < i ==> Outside(targets[k]) in now && now[Outside(targets[k])] == before[Fresh(k)])
    && (forall k :: k in moved ==> Previous(k) in now && now[Previous(k)] == before[Outside(targets[k])])
    && (forall k :: i <= k < |targets| ==> Fresh(k) in now && now[Fresh(k)] == before[Fresh(k)] && Previous(k) !in now)
    && (forall name :: name !in targets[..i] ==> SameOutside(before, now, name))
  }

  /** Between the two steps for target `i`: it is out of the way. */
  ghost predicate Cleared(before: Nodes, now: Nodes, targets: seq<nat>, moved: seq<nat>, i: nat)
    requires i < |targets| && Staged(before, targets)
  {
    && Increasing(moved, i + 1)
    && (forall k :: 0 <= k <= i ==> (k in moved <==> Outside(targets[k]) in before))
    && (forall k :: 0 <= k < i ==> Outside(targets[k]) in now && now[Outside(targets[k])] == before[Fresh(k)])
    && (forall k :: k in moved ==> Previous(k) in now && now[Previous(k)] == before[Outside(targets[k])])
    && (forall k :: i <= k < |targets| ==> Fresh(k) in now && now[Fresh(k)] == before[Fresh(k)])
    && (forall k :: i < k < |targets| ==> Previous(k) !in now)
    && Outside(targets[i]) !in now
    && (forall name :: name !in targets[..i + 1] ==> SameOutside(before, now, name))
  }

  /** Rollback of published targets whose places are then free. */
  lemma RollbackRestores(before: Nodes, now: Nodes, targets: seq<nat>, moved: seq<nat>, published: seq<nat>,
                         changed: nat)
    requires changed <= |targets| && DistinctNames(targets) && published <= targets[..changed]
    requires Increasing(moved, changed)
    requires forall k :: 0 <= k < changed ==> (k in moved <==> Outside(targets[k]) in before)
    requires forall k :: k in moved ==> Previous(k) in now && now[Previous(k)] == before[Outside(targets[k])]
    requires forall k :: |published| <= k < changed ==> Outside(targets[k]) !in now
    requires forall name :: name !in targets[..changed] ==> SameOutside(before, now, name)
    ensures Restored(before, RestoreAll(RemoveAll(now, published), targets, moved))
  {
    var removed := RemoveAll(now, published);
    forall p
      ensures p in removed <==> p in now && !(p.Outside? && p.name in published)
      ensures p in removed ==> removed[p] == now[p]
    {
      RemovedAt(now, published, p);
    }
    forall k | 0 <= k < changed
      ensures Outside(targets[k]) !in removed
    {
      if k < |published| {
        assert published[k] == targets[..changed][k] == targets[k];
      }
    }
    assert forall a :: 0 <= a < |moved| ==> moved[a] in moved;
    assert Restorable(removed, targets, moved);
    forall name
      ensures SameOutside(before, RestoreAll(removed, targets, moved), name)
    {
      RestoredAt(removed, targets, moved, name);
      if name in targets[..changed] {
        var k :| 0 <= k < changed && targets[..changed][k] == name;
        if Outside(name) in before {
          var a :| 0 <= a < |moved| && moved[a] == k;
        } else {
          forall a | 0 <= a < |moved| ensures targets[moved[a]] != name {
            assert moved[a] in moved && moved[a] != k;
          }
        }
      } else {
        forall a | 0 <= a < |moved| ensures targets[moved[a]] != name {
          assert targets[..changed][moved[a]] == targets[moved[a]];
        }
        assert name !in published;
      }
    }
  }

  lemma RemovedEverywhere(now: Nodes, published: seq<nat>)
    ensures forall p :: p in RemoveAll(now, published) <==> p in now && !(p.Outside? && p.name in published)
    ensures forall p :: p in RemoveAll(now, published) ==> RemoveAll(now, published)[p] == now[p]
  {
    forall p
      ensures p in RemoveAll(now, published) <==> p in now && !(p.Outside? && p.name in published)
      ensures p in RemoveAll(now, published) ==> RemoveAll(now, published)[p] == now[p]
    {
      RemovedAt(now, published, p);
    }
  }

  /** Interrupted after target `i` was moved away, before that was written down:
      nobody puts it back. */
  lemma UnrecordedMoveIsLost(before: Nodes, now: Nodes, targets: seq<nat>, moved: seq<nat>, i: nat)
    requires i < |targets| && Staged(before, targets) && Progress(before, now, targets, moved, i)
    requires Outside(targets[i]) in before && Outside(targets[i]) in now
    ensures Increasing(moved, |targets|)
    ensures Outside(targets[i]) !in
      RestoreAll(RemoveAll(Replace(now, Outside(targets[i]), Previous(i)), targets[..i]), targets, moved)
  {
    var lost := Replace(now, Outside(targets[i]), Previous(i));
    RemovedEverywhere(lost, targets[..i]);
    var removed := RemoveAll(lost, targets[..i]);
    forall a | 0 <= a < |moved|
      ensures Previous(moved[a]) in removed && Outside(targets[moved[a]]) !in removed && targets[moved[a]] != targets[i]
    {
      assert moved[a] in moved;
      assert targets[..i][moved[a]] == targets[moved[a]];
    }
    RestoredAt(removed, targets, moved, targets[i]);
  }

  lemma LastMoved(moved: seq<nat>, i: nat)
    requires Increasing(moved, i + 1) && i in moved
    ensures moved[|moved| - 1] == i
  {
    var a :| 0 <= a < |moved| && moved[a] == i;
  }

  /** Putting a backup over whatever is in its place. */
  lemma ReplaceHidesTarget(nodes: Nodes, a: Path, b: Path)
    requires a != b && CanReplace(nodes, a, b)
    ensures CanReplace(nodes - {b}, a, b) && Replace(nodes, a, b) == Replace(nodes - {b}, a, b)
  {
  }

  lemma RemovalsCommute(now: Nodes, published: seq<nat>, target: Path)
    ensures RemoveAll(now - {target}, published) == RemoveAll(now, published) - {target}
  {
    RemovedEverywhere(now, published);
    RemovedEverywhere(now - {target}, published);
  }

  lemma FreedIsRestored(before: Nodes, now: Nodes, targets: seq<nat>, moved: seq<nat>, i: nat)
    requires i < |targets| && Staged(before, targets) && Cleared(before, now, targets, moved, i)
    requires CanReplace(now, Fresh(i), Outside(targets[i]))
    ensures Increasing(moved, |targets|)
    ensures var free := Replace(now, Fresh(i), Outside(targets[i])) - {Outside(targets[i])};
            Restored(before, RestoreAll(RemoveAll(free, targets[..i]), targets, moved))
  {
    var free := Replace(now, Fresh(i), Outside(targets[i])) - {Outside(targets[i])};
    SameOutsideButOne(before, now, free, targets, i);
    assert targets[..i] <= targets[..i + 1];
    RollbackRestores(before, free, targets, moved, targets[..i], i + 1);
  }

  lemma UnrecordedReplacement(before: Nodes, now: Nodes, targets: seq<nat>, moved: seq<nat>, i: nat)
    requires i < |targets| && Staged(before, targets) && Cleared(before, now, targets, moved, i)
    requires Outside(targets[i]) in before
    ensures Increasing(moved, |targets|) && CanReplace(now, Fresh(i), Outside(targets[i]))
    ensures var end := RestoreAll(RemoveAll(Replace(now, Fresh(i), Outside(targets[i])), targets[..i]), targets, moved);
            if Forgiven(before, targets, i) then Restored(before, end)
            else Outside(targets[i]) in end && end[Outside(targets[i])] == before[Fresh(i)]
  {
    var target := Outside(targets[i]);
    var both := Replace(now, Fresh(i), target);
    var published := targets[..i];
    RemovedEverywhere(both, published);
    var removed := RemoveAll(both, published);
    assert targets[i] !in published;
    assert i in moved;
    LastMoved(moved, i);
    assert Previous(i) in removed && removed[Previous(i)] == before[target];
    assert target in removed && removed[target] == before[Fresh(i)];
    if Forgiven(before, targets, i) {
      RemovalsCommute(both, published, target);
      ReplaceHidesTarget(removed, Previous(i), target);
      FreedIsRestored(before, now, targets, moved, i);
    }
  }

  lemma UnrecordedAddition(before: Nodes, now: Nodes, targets: seq<nat>, moved: seq<nat>, i: nat)
    requires i < |targets| && Staged(before, targets) && Cleared(before, now, targets, moved, i)
    requires Outside(targets[i]) !in before
    ensures Increasing(moved, |targets|) && CanReplace(now, Fresh(i), Outside(targets[i]))
    ensures var end := RestoreAll(RemoveAll(Replace(now, Fresh(i), Outside(targets[i])), targets[..i]), targets, moved);
            Outside(targets[i]) in end && end[Outside(targets[i])] == before[Fresh(i)]
  {
    var both := Replace(now, Fresh(i), Outside(targets[i]));
    var published := targets[..i];
    RemovedEverywhere(both, published);
    var removed := RemoveAll(both, published);
    assert targets[i] !in published;
    assert i !in moved;
    forall a | 0 <= a < |moved|
      ensures moved[a] < i && Previous(moved[a]) in removed && Outside(targets[moved[a]]) !in removed
              && targets[moved[a]] != targets[i]
    {
      assert moved[a] in moved;
      assert published[moved[a]] == targets[moved[a]];
    }
    RestoredAt(removed, targets, moved, targets[i]);
  }

  /** Interrupted after target `i` was published, before that was written down: the
      backup, if there is one, is put over the published output, if it can be. */
  lemma UnrecordedPublication(before: Nodes, now: Nodes, targets: seq<nat>, moved: seq<nat>, i: nat)
    requires i < |targets| && Staged(before, targets) && Cleared(before, now, targets, moved, i)
    ensures Increasing(moved, |targets|) && CanReplace(now, Fresh(i), Outside(targets[i]))
    ensures var end := RestoreAll(RemoveAll(Replace(now, Fresh(i), Outside(targets[i])), targets[..i]), targets, moved);
            if Forgiven(before, targets, i) then Restored(before, end)
            else Outside(targets[i]) in end && end[Outside(targets[i])] == before[Fresh(i)]
  {
    if Outside(targets[i]) in before {
      UnrecordedReplacement(before, now, targets, moved, i);
    } else {
      UnrecordedAddition(before, now, targets, moved, i);
    }
  }

  /** A step that fails is undone together with all steps before it. */
  lemma FailedStepIsUndone(before: Nodes, now: Nodes, targets: seq<nat>, moved: seq<nat>, i: nat)
    requires i < |targets| && Staged(before, targets)
    requires Progress(before, now, targets, moved, i) || Cleared(before, now, targets, moved, i)
    ensures Increasing(moved, |targets|)
    ensures Restored(before, RestoreAll(RemoveAll(now, targets[..i]), targets, moved))
  {
    if Progress(before, now, targets, moved, i) {
      RollbackRestores(before, now, targets, moved, targets[..i], i);
    } else {
      assert targets[..i] <= targets[..i + 1];
      RollbackRestores(before, now, targets, moved, targets[..i], i + 1);
    }
  }

  lemma MoveClears(before: Nodes, now: Nodes, targets: seq<nat>, moved: seq<nat>, i: nat)
    requires i < |targets| && Staged(before, targets) && Progress(before, now, targets, moved, i)
    ensures Outside(targets[i]) in now <==> Outside(targets[i]) in before
    ensures if Outside(targets[i]) in now
            then CanReplace(now, Outside(targets[i]), Previous(i))
                 && Cleared(before, Replace(now, Outside(targets[i]), Previous(i)), targets, moved + [i], i)
            else Cleared(before, now, targets, moved, i)
  {
    assert targets[i] !in targets[..i];
    assert targets[..i + 1] == targets[..i] + [targets[i]];
    assert i !in moved;
  }

  lemma PublishProgresses(before: Nodes, now: Nodes, targets: seq<nat>, moved: seq<nat>, i: nat)
    requires i < |targets| && Staged(before, targets) && Cleared(before, now, targets, moved, i)
    ensures CanReplace(now, Fresh(i), Outside(targets[i]))
    ensures Progress(before, Replace(now, Fresh(i), Outside(targets[i])), targets, moved, i + 1)
  {
    var next := Replace(now, Fresh(i), Outside(targets[i]));
    SameOutsideButOne(before, now, next, targets, i);
    forall k | 0 <= k < i + 1
      ensures Outside(targets[k]) in next && next[Outside(targets[k])] == before[Fresh(k)]
    {
      assert k < i ==> targets[k] != targets[i];
    }
  }

  lemma SameOutsideButOne(before: Nodes, now: Nodes, next: Nodes, targets: seq<nat>, i: nat)
    requires i < |targets|
    requires forall name :: name !in targets[..i + 1] ==> SameOutside(before, now, name)
    requires forall name :: name != targets[i] ==> SameOutside(now, next, name)
    ensures forall name :: name !in targets[..i + 1] ==> SameOutside(before, next, name)
  {
    assert targets[..i + 1] == targets[..i] + [targets[i]];
    forall name | name !in targets[..i + 1] ensures SameOutside(before, next, name) {
      assert SameOutside(before, now, name) && SameOutside(now, next, name);
    }
  }

  /** Whether rollback can put the previous output over the published one. */
  predicate Forgiven(before: Nodes, targets: seq<nat>, i: nat)
    requires i < |targets| && Staged(before, targets)
  {
    Outside(targets[i]) in before && Overwrites(before[Outside(targets[i])], before[Fresh(i)])
  }

  /** What is left behind after a fault.  A step that fails leaves everything as it
      was.  An interruption between a step and its record does so exactly if
      rollback can undo that step blindly: otherwise the moved target is gone, or
      the new output stays. */
  ghost predicate Undone(before: Nodes, now: Nodes, targets: seq<nat>, fault: Fault)
    requires Staged(before, targets)
  {
    Happens(before, targets, fault) &&
    var i := fault.step.index;
    if fault.Fails? then Restored(before, now)
    else if fault.step.Move? then Outside(targets[i]) !in now
    else if Forgiven(before, targets, i) then Restored(before, now)
    else Outside(targets[i]) in now && now[Outside(targets[i])] == before[Fresh(i)]
  }

  // ---------------------------------------------------------------- the run

  class Publisher {
    var nodes: Nodes
    var moved: seq<nat>
    var published: seq<nat>

    constructor (nodes: Nodes)
      ensures this.nodes == nodes && moved == [] && published == []
    {
      this.nodes := nodes;
      moved := [];
      published := [];
    }

    method Rollback(targets: seq<nat>)
      requires Increasing(moved, |targets|)
      modifies this`nodes
      ensures nodes == RestoreAll(RemoveAll(old(nodes), published), targets, moved)
    {
      var i := |published|;
      assert published[..i] == published;
      while i > 0
        invariant 0 <= i <= |published|
        invariant RemoveAll(nodes, published[..i]) == RemoveAll(old(nodes), published)
      {
        i := i - 1;
        assert published[..i + 1][..i] == published[..i];
        nodes := nodes - {Outside(published[i])};
      }
      ghost var removed := nodes;
      var k := |moved|;
      assert moved[..k] == moved;
      while k > 0
        invariant 0 <= k <= |moved| && Increasing(moved[..k], |targets|)
        invariant RestoreAll(nodes, targets, moved[..k]) == RestoreAll(removed, targets, moved)
      {
        k := k - 1;
        var j := moved[k];
        assert moved[..k + 1][..k] == moved[..k];
        if !CanReplace(nodes, Previous(j), Outside(targets[j])) { return; }
        nodes := Replace(nodes, Previous(j), Outside(targets[j]));
      }
    }

    /** One target: moved out of the way if it exists, then published. */
    method PublishOne(ghost before: Nodes, targets: seq<nat>, i: nat, fault: Fault) returns (done: bool)
      requires i < |targets| && Staged(before, targets)
      requires published == targets[..i] && Progress(before, nodes, targets, moved, i)
      modifies this
      ensures done <==> !(Happens(before, targets, fault) && fault.step.index == i)
      ensures done ==> published == targets[..i + 1] && Progress(before, nodes, targets, moved, i + 1)
      ensures !done ==> Undone(before, nodes, targets, fault)
    {
      var target := Outside(targets[i]);
      MoveClears(before, nodes, targets, moved, i);
      if target in nodes {
        if fault == Fails(Move(i)) {
          FailedStepIsUndone(before, nodes, targets, moved, i);
          Rollback(targets);
          return false;
        }
        if fault == Interrupted(Move(i)) {
          UnrecordedMoveIsLost(before, nodes, targets, moved, i);
          nodes := Replace(nodes, target, Previous(i));
          Rollback(targets);
          return false;
        }
        nodes := Replace(nodes, target, Previous(i));
        moved := moved + [i];
      }
      done := PublishCleared(before, targets, i, fault);
    }

    method PublishCleared(ghost before: Nodes, targets: seq<nat>, i: nat, fault: Fault) returns (done: bool)
      requires i < |targets| && Staged(before, targets)
      requires published == targets[..i] && Cleared(before, nodes, targets, moved, i)
      modifies this
      ensures done <==> fault != Fails(Publish(i)) && fault != Interrupted(Publish(i))
      ensures done ==> published == targets[..i + 1] && Progress(before, nodes, targets, moved, i + 1)
      ensures !done ==> Undone(before, nodes, targets, fault)
    {
      PublishProgresses(before, nodes, targets, moved, i);
      if fault == Fails(Publish(i)) {
        FailedStepIsUndone(before, nodes, targets, moved, i);
        Rollback(targets);
        return false;
      }
      if fault == Interrupted(Publish(i)) {
        UnrecordedPublication(before, nodes, targets, moved, i);
        nodes := Replace(nodes, Fresh(i), Outside(targets[i]));
        Rollback(targets);
        return false;
      }
      nodes := Replace(nodes, Fresh(i), Outside(targets[i]));
      published := published + [targets[i]];
      assert published == targets[..i + 1];
      return true;
    }

    /** With no fault everything is published; with one, what `Undone` says. */
    method ImportCorpus(targets: seq<nat>, fault: Fault) returns (done: bool)
      requires Staged(nodes, targets) && moved == [] && published == []
      modifies this
      ensures done <==> !Happens(old(nodes), targets, fault)
      ensures done ==> published == targets && Progress(old(nodes), nodes, targets, moved, |targets|)
      ensures !done ==> Undone(old(nodes), nodes, targets, fault)
    {
      ghost var before := nodes;
      for i := 0 to |targets|
        invariant published == targets[..i]
        invariant Progress(before, nodes, targets, moved, i)
        invariant Happens(before, targets, fault) ==> fault.step.index >= i
      {
        var ok := PublishOne(before, targets, i, fault);
        if !ok { return false; }
      }
      assert targets[..|targets|] == targets;
      return true;
    }
  }
}
