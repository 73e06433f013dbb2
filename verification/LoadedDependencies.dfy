/** The files that a script loads, directly or through other files.  The load
    graph may contain cycles. */
module LoadedDependencies {

  type Path = string

  /** What the parse tree of a file says: the files it loads, whether it
      declares conformances, and whether one of its classes uses a trait. */
  datatype File = File(dependencies: seq<Path>, declaresConformances: bool, usesTraits: bool)

  /** The script under analysis, the files that can be parsed, and the files
      with the extension of the language. */
  datatype World = World(path: Path, head: File, parsed: map<Path, File>, isScript: Path -> bool) {
    predicate FollowsClosure() {
      head.declaresConformances || head.usesTraits
    }

    /** The files that a file on the way loads in turn. */
    function Nested(p: Path): seq<Path> {
      if FollowsClosure() && p in parsed then parsed[p].dependencies else []
    }

    predicate IsRaised(p: Path) {
      p in parsed && (parsed[p].declaresConformances || (head.declaresConformances && parsed[p].usesTraits))
    }

    /** Files further away matter only to a script that declares conformances or uses
        traits itself. */
    predicate HasEdge(p: Path, q: Path) {
      (head.declaresConformances || head.usesTraits) && p in parsed && q in parsed[p].dependencies
    }

    /** A chain of load edges from the script through script files. */
    ghost predicate Route(route: seq<Path>) {
      && route != [] && route[0] in head.dependencies
      && (forall i :: 0 <= i < |route| ==> isScript(route[i]) && route[i] != path)
      && (forall i :: 0 <= i < |route| - 1 ==> HasEdge(route[i], route[i + 1]))
    }

    ghost predicate Loads(p: Path) {
      exists route :: Route(route) && route[|route| - 1] == p
    }
  }

  /** A path in the frontier continues some route. */
  ghost predicate Continues(w: World, p: Path) {
    p in w.head.dependencies || exists q :: w.Loads(q) && p in w.Nested(q)
  }

  lemma ContinuedRoutesLoad(w: World, p: Path)
    requires Continues(w, p) && w.isScript(p) && p != w.path
    ensures w.Loads(p)
  {
    if p in w.head.dependencies {
      assert w.Route([p]) && [p][|[p]| - 1] == p;
    } else {
      var q :| w.Loads(q) && p in w.Nested(q);
      var route :| w.Route(route) && route[|route| - 1] == q;
      var longer := route + [p];
      assert forall i :: 0 <= i < |longer| - 1 ==> longer[i + 1] in w.Nested(longer[i]);
      assert w.Route(longer) && longer[|longer| - 1] == p;
    }
  }

  /** Closed under load edges, so that it contains all that is loaded. */
  ghost predicate Closed(w: World, closure: set<Path>, pending: set<Path>) {
    forall p :: p in w.head.dependencies || (exists q :: q in closure && p in w.Nested(q))
      ==> p in closure || p in pending || p == w.path || !w.isScript(p)
  }

  lemma {:induction false} ClosedContainsRoutes(w: World, closure: set<Path>, route: seq<Path>, i: nat)
    requires Closed(w, closure, {}) && w.Route(route) && i < |route|
    ensures route[i] in closure
    decreases i
  {
    if i > 0 {
      ClosedContainsRoutes(w, closure, route, i - 1);
      assert route[i - 1 + 1] in w.Nested(route[i - 1]);
    }
  }

  function AllPaths(w: World): set<Path> {
    (set p | p in w.head.dependencies) + set q, p | q in w.parsed && p in w.parsed[q].dependencies :: p
  }

  function AsSet(s: seq<Path>): set<Path> {
    set p | p in s
  }

  /** Queues the files that have not been visited. */
  method Enqueue(frontier: seq<Path>, nested: seq<Path>, visited: set<Path>) returns (longer: seq<Path>)
    ensures AsSet(longer) == AsSet(frontier) + (AsSet(nested) - visited)
  {
    longer := frontier;
    for i := 0 to |nested|
      invariant AsSet(longer) == AsSet(frontier) + (AsSet(nested[..i]) - visited)
    {
      assert AsSet(nested[..i + 1]) == AsSet(nested[..i]) + {nested[i]};
      if nested[i] !in visited {
        assert AsSet(longer + [nested[i]]) == AsSet(longer) + {nested[i]};
        longer := longer + [nested[i]];
      }
    }
    assert nested[..|nested|] == nested;
  }

  ghost predicate Walk(w: World, frontier: set<Path>, closure: set<Path>) {
    && w.path !in closure
    && closure <= AllPaths(w) && frontier <= AllPaths(w)
    && (forall p :: p in closure ==> w.isScript(p) && w.Loads(p))
    && (forall p :: p in frontier ==> Continues(w, p))
    && Closed(w, closure, frontier)
  }

  lemma VisitKeepsWalk(w: World, frontier: set<Path>, rest: set<Path>, closure: set<Path>, p: Path)
    requires Walk(w, frontier, closure) && frontier == rest + {p}
    requires w.isScript(p) && p !in closure && p != w.path
    ensures var closure' := closure + {p};
            Walk(w, rest + (AsSet(w.Nested(p)) - (closure' + {w.path})), closure') &&
            closure' <= AllPaths(w)
  {
    ContinuedRoutesLoad(w, p);
    var closure' := closure + {p};
    var frontier' := rest + (AsSet(w.Nested(p)) - (closure' + {w.path}));
    assert AsSet(w.Nested(p)) <= AllPaths(w);
    forall x | x in w.head.dependencies || (exists q :: q in closure' && x in w.Nested(q))
      ensures x in closure' || x in frontier' || x == w.path || !w.isScript(x)
    {
      if x in w.Nested(p) {
        assert x in AsSet(w.Nested(p));
      } else {
        assert x in closure || x in frontier || x == w.path || !w.isScript(x);
      }
    }
  }

  lemma FinishedWalkIsComplete(w: World, closure: set<Path>, p: Path)
    requires Walk(w, {}, closure)
    ensures p in closure <==> w.Loads(p)
  {
    if w.Loads(p) {
      var route :| w.Route(route) && route[|route| - 1] == p;
      ClosedContainsRoutes(w, closure, route, |route| - 1);
    }
  }

  /** Walks the load graph from the script.  The closure is exactly the set of
      script files that the script loads through any number of parsed files, or
      the direct ones alone if it declares neither a conformance nor a trait
      use; of these, exactly the ones that declare something relevant are
      raised.  Cycles do not keep the walk from ending. */
  method RaiseDeclaredConformanceDependencies(w: World) returns (closure: set<Path>, raised: set<Path>)
    ensures forall p :: p in closure <==> w.Loads(p)
    ensures forall p :: p in raised <==>
              && w.Loads(p) && p in w.parsed
              && (w.parsed[p].declaresConformances || (w.head.declaresConformances && w.parsed[p].usesTraits))
  {
    var frontier := w.head.dependencies;
    var visited := {w.path};
    closure, raised := {}, {};
    while frontier != []
      invariant visited == closure + {w.path} && Walk(w, AsSet(frontier), closure)
      invariant raised == set p | p in closure && w.IsRaised(p)
      decreases AllPaths(w) - closure, |frontier|
    {
      ghost var before := AsSet(frontier);
      var dependency := frontier[0];
      assert frontier == [dependency] + frontier[1..];
      frontier := frontier[1..];
      assert before == AsSet(frontier) + {dependency};
      if !w.isScript(dependency) || dependency in visited {
        continue;
      }
      VisitKeepsWalk(w, before, AsSet(frontier), closure, dependency);
      visited := visited + {dependency};
      closure := closure + {dependency};
      frontier := Enqueue(frontier, w.Nested(dependency), visited);
      if w.IsRaised(dependency) {
        raised := raised + {dependency};
      }
    }
    forall p
      ensures p in closure <==> w.Loads(p)
    {
      assert AsSet(frontier) == {};
      FinishedWalkIsComplete(w, closure, p);
    }
  }
}
