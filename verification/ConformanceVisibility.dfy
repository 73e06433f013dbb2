/** Which source files a script can see, over a graph of parsers that grows
    while the analysis runs.  Positive answers are remembered. */
module ConformanceVisibility {

  type Path = string

  /** The paths a parser declares, and the parsers it has already pulled in.  A
      path whose parser is gone counts as declared. */
  datatype Parser = Parser(declared: seq<Path>, depended: map<Path, nat>)

  datatype Graph = Graph(root: nat, rootPath: Path, parsers: map<nat, Parser>) {
    ghost predicate Valid() {
      root in parsers && forall n, p :: n in parsers && p in parsers[n].depended ==> parsers[n].depended[p] in parsers
    }

    ghost predicate Edge(n: nat, m: nat) {
      n in parsers && exists p :: p in parsers[n].depended && parsers[n].depended[p] == m
    }

    ghost predicate Route(route: seq<nat>) {
      route != [] && route[0] == root && forall i :: 0 <= i < |route| - 1 ==> Edge(route[i], route[i + 1])
    }

    ghost predicate Reaches(n: nat) {
      exists route :: Route(route) && route[|route| - 1] == n
    }

    predicate Mentions(n: nat, p: Path) {
      n in parsers && (p in parsers[n].declared || p in parsers[n].depended)
    }

    /** Some parser that the script reaches mentions the file. */
    ghost predicate Sees(p: Path) {
      exists n :: Reaches(n) && Mentions(n, p)
    }

    ghost function ReachableParsers(): set<nat> {
      set n | n in parsers && Reaches(n)
    }
  }

  /** The graph only ever grows. */
  ghost predicate Extends(later: Graph, earlier: Graph) {
    && later.root == earlier.root && later.rootPath == earlier.rootPath
    && forall n :: n in earlier.parsers ==>
         && n in later.parsers
         && (forall p :: p in earlier.parsers[n].declared ==> p in later.parsers[n].declared)
         && (forall p :: p in earlier.parsers[n].depended ==>
               p in later.parsers[n].depended && later.parsers[n].depended[p] == earlier.parsers[n].depended[p])
  }

  lemma NextIsReached(g: Graph, n: nat, m: nat)
    requires g.Reaches(n) && g.Edge(n, m)
    ensures g.Reaches(m)
  {
    var route :| g.Route(route) && route[|route| - 1] == n;
    var longer := route + [m];
    assert forall i :: 0 <= i < |longer| - 1 ==> g.Edge(longer[i], longer[i + 1]);
    assert g.Route(longer) && longer[|longer| - 1] == m;
  }

  /** What was visible stays visible. */
  lemma GrowthKeepsSight(later: Graph, earlier: Graph, p: Path)
    requires Extends(later, earlier) && earlier.Sees(p)
    ensures later.Sees(p)
  {
    var n :| earlier.Reaches(n) && earlier.Mentions(n, p);
    var route :| earlier.Route(route) && route[|route| - 1] == n;
    forall i | 0 <= i < |route| - 1
      ensures later.Edge(route[i], route[i + 1])
    {
      assert earlier.Edge(route[i], route[i + 1]);
      var q :| q in earlier.parsers[route[i]].depended && earlier.parsers[route[i]].depended[q] == route[i + 1];
      assert q in later.parsers[route[i]].depended && later.parsers[route[i]].depended[q] == route[i + 1];
    }
    assert later.Route(route);
    assert later.Reaches(n) && later.Mentions(n, p);
  }

  ghost predicate ClosedUnderEdges(g: Graph, done: set<nat>) {
    g.root in done && forall n, m :: n in done && g.Edge(n, m) ==> m in done
  }

  lemma {:induction false} ClosedContainsRoute(g: Graph, done: set<nat>, route: seq<nat>, i: nat)
    requires ClosedUnderEdges(g, done) && g.Route(route) && i < |route|
    ensures route[i] in done
    decreases i
  {
    if i > 0 {
      ClosedContainsRoute(g, done, route, i - 1);
      assert g.Edge(route[i - 1], route[i - 1 + 1]);
    }
  }

  /** What is seen for the first time is queued behind the rest, each once. */
  ghost predicate Queued(pending: seq<nat>, seen: set<nat>, pending': seq<nat>, seen': set<nat>) {
    && seen <= seen' && pending <= pending'
    && (forall i :: |pending| <= i < |pending'| ==> pending'[i] in seen' - seen)
    && (forall i, j :: |pending| <= i < j < |pending'| ==> pending'[i] != pending'[j])
    && (forall n :: n in seen' - seen ==> n in pending'[|pending|..])
  }

  lemma NextIsQueued(pending: seq<nat>, seen: set<nat>, pending': seq<nat>, seen': set<nat>, next: nat)
    requires Queued(pending, seen, pending', seen') && next !in seen'
    ensures Queued(pending, seen, pending' + [next], seen' + {next})
  {
    assert (pending' + [next])[|pending|..] == pending'[|pending|..] + [next];
  }

  const MAX_VISITS := 4096

  class Visibility {
    var visibleFiles: set<Path>

    constructor ()
      ensures visibleFiles == {}
    {
      visibleFiles := {};
    }

    /** Every remembered file is visible. */
    ghost predicate MemoIsCorrect(g: Graph)
      reads this
    {
      forall p :: p in visibleFiles ==> g.Sees(p)
    }

    /** Remembers what one parser mentions and queues the parsers it pulled in. */
    method Visit(g: Graph, current: nat, pending: seq<nat>, seen: set<nat>)
      returns (pending': seq<nat>, seen': set<nat>)
      requires g.Valid() && MemoIsCorrect(g) && g.Reaches(current) && current in g.parsers
      requires forall n :: n in seen ==> g.Reaches(n) && n in g.parsers
      modifies this
      ensures MemoIsCorrect(g) && old(visibleFiles) <= visibleFiles
      ensures visibleFiles == old(visibleFiles) + (set p | p in g.parsers[current].declared)
                              + g.parsers[current].depended.Keys
      ensures forall n :: n in seen' ==> g.Reaches(n) && n in g.parsers
      ensures forall m :: g.Edge(current, m) ==> m in seen'
      ensures Queued(pending, seen, pending', seen')
    {
      var node := g.parsers[current];
      for i := 0 to |node.declared|
        invariant visibleFiles == old(visibleFiles) + set p | p in node.declared[..i]
      {
        assert node.declared[..i + 1] == node.declared[..i] + [node.declared[i]];
        visibleFiles := visibleFiles + {node.declared[i]};
      }
      assert node.declared[..|node.declared|] == node.declared;
      ghost var before := visibleFiles;
      pending', seen' := pending, seen;
      var keys := node.depended.Keys;
      while keys != {}
        invariant keys <= node.depended.Keys
        invariant visibleFiles == before + (node.depended.Keys - keys)
        invariant forall p :: p in node.depended && p !in keys ==> node.depended[p] in seen'
        invariant (forall n :: n in seen' ==> g.Reaches(n) && n in g.parsers)
        invariant Queued(pending, seen, pending', seen')
        decreases keys
      {
        var p :| p in keys;
        keys := keys - {p};
        visibleFiles := visibleFiles + {p};
        var next := node.depended[p];
        assert g.Edge(current, next);
        NextIsReached(g, current, next);
        if next !in seen' {
          NextIsQueued(pending, seen, pending', seen', next);
          seen' := seen' + {next};
          pending' := pending' + [next];
        }
      }
      assert forall p :: p in visibleFiles - old(visibleFiles) ==> g.Mentions(current, p);
    }

    /** The search has visited `done`, and `pending` are still to be visited. */
    ghost predicate Search(g: Graph, pending: seq<nat>, seen: set<nat>, done: set<nat>)
      reads this
    {
      && MemoIsCorrect(g) && g.root in seen
      && (forall n :: n in seen ==> g.Reaches(n) && n in g.parsers)
      && (forall n :: n in seen <==> n in done || n in pending)
      && (forall i :: 0 <= i < |pending| ==> pending[i] !in done)
      && (forall i, j :: 0 <= i < j < |pending| ==> pending[i] != pending[j])
      && (forall n, p :: n in done && g.Mentions(n, p) ==> p in visibleFiles)
      && (forall n, m :: n in done && g.Edge(n, m) ==> m in seen)
    }

    method SearchStep(g: Graph, pending: seq<nat>, seen: set<nat>, ghost done: set<nat>)
      returns (pending': seq<nat>, seen': set<nat>)
      requires g.Valid() && Search(g, pending, seen, done) && pending != []
      modifies this
      ensures Search(g, pending', seen', done + {pending[|pending| - 1]}) && old(visibleFiles) <= visibleFiles
    {
      var current := pending[|pending| - 1];
      var rest := pending[..|pending| - 1];
      assert pending == rest + [current];
      pending', seen' := Visit(g, current, rest, seen);
      assert pending' == rest + pending'[|rest|..];
    }

    method Explore(g: Graph)
      requires g.Valid() && MemoIsCorrect(g)
      modifies this
      ensures MemoIsCorrect(g) && old(visibleFiles) <= visibleFiles
      ensures |g.ReachableParsers()| <= MAX_VISITS ==> forall p :: g.Sees(p) ==> p in visibleFiles
    {
      assert g.Route([g.root]) && [g.root][|[g.root]| - 1] == g.root;
      var pending, seen := [g.root], {g.root};
      var visits := 0;
      ghost var done: set<nat> := {};
      while pending != [] && visits < MAX_VISITS
        invariant Search(g, pending, seen, done) && old(visibleFiles) <= visibleFiles
        invariant visits == |done| <= MAX_VISITS
        decreases MAX_VISITS - visits
      {
        visits := visits + 1;
        ghost var current := pending[|pending| - 1];
        pending, seen := SearchStep(g, pending, seen, done);
        done := done + {current};
      }
      if |g.ReachableParsers()| <= MAX_VISITS {
        if pending != [] {
          assert pending[0] in pending;
          MoreSeenThanDone(g, done, pending[0]);
        }
        forall p | g.Sees(p)
          ensures p in visibleFiles
        {
          var n :| g.Reaches(n) && g.Mentions(n, p);
          var route :| g.Route(route) && route[|route| - 1] == n;
          ClosedContainsRoute(g, done, route, |route| - 1);
        }
      }
    }

    /** Can the script see the file?  A positive answer is always right; a
        negative one is if the script reaches no more parsers than the cap on
        visits allows.  The memo stays correct, also when the graph grows. */
    method CanSee(g: Graph, sourceFile: Path) returns (visible: bool)
      requires g.Valid() && MemoIsCorrect(g)
      modifies this
      ensures MemoIsCorrect(g) && old(visibleFiles) <= visibleFiles
      ensures visible ==> sourceFile == "" || sourceFile == g.rootPath || g.Sees(sourceFile)
      ensures |g.ReachableParsers()| <= MAX_VISITS ==>
          (visible <==> sourceFile == "" || sourceFile == g.rootPath || g.Sees(sourceFile))
    {
      if sourceFile == "" || sourceFile == g.rootPath || sourceFile in visibleFiles {
        return true;
      }
      Explore(g);
      visible := sourceFile in visibleFiles;
    }
  }

  /** A memo that is correct stays correct when the graph grows. */
  lemma GrowthKeepsMemo(v: Visibility, later: Graph, earlier: Graph)
    requires Extends(later, earlier) && v.MemoIsCorrect(earlier)
    ensures v.MemoIsCorrect(later)
  {
    forall p | p in v.visibleFiles
      ensures later.Sees(p)
    {
      GrowthKeepsSight(later, earlier, p);
    }
  }

  lemma MoreSeenThanDone(g: Graph, done: set<nat>, n: nat)
    requires forall m :: m in done ==> g.Reaches(m) && m in g.parsers
    requires n !in done && g.Reaches(n) && n in g.parsers
    ensures |done| < |g.ReachableParsers()|
  {
    assert done + {n} <= g.ReachableParsers();
    SubsetSize(done + {n}, g.ReachableParsers());
  }

  lemma {:induction false} SubsetSize<T>(a: set<T>, b: set<T>)
    requires a <= b
    ensures |a| <= |b|
    decreases a
  {
    if a != {} {
      var x :| x in a;
      SubsetSize(a - {x}, b - {x});
    }
  }
}
