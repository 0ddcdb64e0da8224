/**
  The name-collapsed call graph of the mutation census, and its reachable closure.

  The production lines of all files come in scanning order.  A line is given by what the
  scanner reads off it: its file, the function it belongs to, the function it declares if any,
  and the names in call position after attributes are stripped.
 */
module CallGraph {
  import opened Shared

  type Name = string

  datatype Line = Line(path: string, enclosing: Name, declares: Option<Name>, tokens: seq<Name>)

  datatype Edge = Edge(caller: Name, callee: Name)

  type Graph = map<Name, set<Name>>

  const NON_CALL_KEYWORDS: set<Name> :=
    {"if", "while", "for", "match", "return", "loop", "else", "fn", "let", "pub"}

  // ---------------------------------------------------------------------------------------
  // Reading the sources
  // ---------------------------------------------------------------------------------------

  /** The token counts as a call on this line. */
  predicate IsCall(line: Line, token: Name) {
    token !in NON_CALL_KEYWORDS && line.declares != Some(token)
  }

  ghost predicate Declared(lines: seq<Line>, name: Name) {
    exists i :: 0 <= i < |lines| && lines[i].declares == Some(name)
  }

  method IndexFunctions(lines: seq<Line>) returns (names: set<Name>)
    ensures forall name :: name in names <==> Declared(lines, name)
  {
    names := {};
    for i := 0 to |lines|
      invariant forall name :: name in names <==> exists k :: 0 <= k < i && lines[k].declares == Some(name)
    {
      if lines[i].declares.Some? {
        names := names + {lines[i].declares.value};
      }
    }
  }

  function CallCount(line: Line, upto: nat): nat
    requires upto <= |line.tokens|
  {
    if upto == 0 then 0 else CallCount(line, upto - 1) + if IsCall(line, line.tokens[upto - 1]) then 1 else 0
  }

  /** Every call on the line becomes an edge or is counted as unresolved; none is dropped. */
  method ExtractCallEdges(names: set<Name>, line: Line) returns (edges: seq<Edge>, unresolved: nat)
    ensures forall e :: e in edges <==>
              e.caller == line.enclosing && e.callee in line.tokens && IsCall(line, e.callee) && e.callee in names
    ensures |edges| + unresolved == CallCount(line, |line.tokens|)
  {
    edges, unresolved := [], 0;
    for i := 0 to |line.tokens|
      invariant forall e :: e in edges <==>
                  e.caller == line.enclosing && e.callee in line.tokens[..i]
                  && IsCall(line, e.callee) && e.callee in names
      invariant |edges| + unresolved == CallCount(line, i)
    {
      var token := line.tokens[i];
      assert line.tokens[..i + 1] == line.tokens[..i] + [token];
      if IsCall(line, token) {
        if token in names {
          edges := edges + [Edge(line.enclosing, token)];
        } else {
          unresolved := unresolved + 1;
        }
      }
    }
    assert line.tokens[..|line.tokens|] == line.tokens;
  }

  function Successors(graph: Graph, name: Name): set<Name> {
    if name in graph then graph[name] else {}
  }

  /** Some line of `caller` calls `callee`, a declared function. */
  ghost predicate CallsByName(lines: seq<Line>, names: set<Name>, caller: Name, callee: Name) {
    exists i :: 0 <= i < |lines| && lines[i].enclosing == caller && callee in lines[i].tokens
                && IsCall(lines[i], callee) && callee in names
  }

  method AddEdges(graph: Graph, edges: seq<Edge>) returns (graph': Graph)
    ensures forall a, b :: b in Successors(graph', a) <==> b in Successors(graph, a) || Edge(a, b) in edges
  {
    graph' := graph;
    for i := 0 to |edges|
      invariant forall a, b :: b in Successors(graph', a) <==> b in Successors(graph, a) || Edge(a, b) in edges[..i]
    {
      var e := edges[i];
      assert edges[..i + 1] == edges[..i] + [e];
      graph' := graph'[e.caller := Successors(graph', e.caller) + {e.callee}];
    }
    assert edges[..|edges|] == edges;
  }

  method BuildGraph(lines: seq<Line>, names: set<Name>) returns (graph: Graph)
    ensures forall a, b :: b in Successors(graph, a) <==> CallsByName(lines, names, a, b)
  {
    graph := map[];
    for i := 0 to |lines|
      invariant forall a, b :: b in Successors(graph, a) <==> CallsByName(lines[..i], names, a, b)
    {
      var edges, unresolved := ExtractCallEdges(names, lines[i]);
      ghost var before := graph;
      graph := AddEdges(graph, edges);
      forall a, b
        ensures b in Successors(graph, a) <==> CallsByName(lines[..i + 1], names, a, b)
      {
        CallsInOneMoreLine(lines, i, names, a, b);
        assert Edge(a, b) in edges <==>
               a == lines[i].enclosing && b in lines[i].tokens && IsCall(lines[i], b) && b in names;
      }
    }
    assert lines[..|lines|] == lines;
  }

  lemma CallsInOneMoreLine(lines: seq<Line>, i: nat, names: set<Name>, a: Name, b: Name)
    requires i < |lines|
    ensures CallsByName(lines[..i + 1], names, a, b) <==>
            || CallsByName(lines[..i], names, a, b)
            || (lines[i].enclosing == a && b in lines[i].tokens && IsCall(lines[i], b) && b in names)
  {
    assert lines[..i + 1] == lines[..i] + [lines[i]];
    if CallsByName(lines[..i], names, a, b) {
      var k :| 0 <= k < i && lines[..i][k].enclosing == a && b in lines[..i][k].tokens
               && IsCall(lines[..i][k], b) && b in names;
      assert lines[..i + 1][k] == lines[k];
    }
    if lines[i].enclosing == a && b in lines[i].tokens && IsCall(lines[i], b) && b in names {
      assert lines[..i + 1][i] == lines[i];
    }
    if CallsByName(lines[..i + 1], names, a, b) {
      var k :| 0 <= k < i + 1 && lines[..i + 1][k].enclosing == a && b in lines[..i + 1][k].tokens
               && IsCall(lines[..i + 1][k], b) && b in names;
      assert k < i ==> lines[..i][k] == lines[k];
    }
  }

  // ---------------------------------------------------------------------------------------
  // Reachability
  // ---------------------------------------------------------------------------------------

  ghost predicate Closed(graph: Graph, s: set<Name>) {
    forall a, b :: a in s && b in Successors(graph, a) ==> b in s
  }

  ghost predicate IsPath(graph: Graph, path: seq<Name>) {
    path != [] && forall i :: 0 < i < |path| ==> path[i] in Successors(graph, path[i - 1])
  }

  ghost predicate Reachable(graph: Graph, roots: set<Name>, name: Name) {
    exists path :: IsPath(graph, path) && path[0] in roots && path[|path| - 1] == name
  }

  /** All names a path can visit. */
  ghost function Universe(graph: Graph, roots: set<Name>): set<Name> {
    roots + graph.Keys + (set a, b | a in graph && b in graph[a] :: b)
  }

  /** The elements of a set, in some order. */
  method Listed(s: set<Name>) returns (xs: seq<Name>)
    ensures forall x :: x in xs <==> x in s
  {
    xs := [];
    var left := s;
    while left != {}
      invariant left <= s
      invariant forall x :: x in xs <==> x in s - left
      decreases |left|
    {
      var x := Pick(left);
      xs := xs + [x];
      left := left - {x};
    }
  }

  lemma StepIsReachable(graph: Graph, roots: set<Name>, a: Name, b: Name)
    requires Reachable(graph, roots, a) && b in Successors(graph, a)
    ensures Reachable(graph, roots, b)
  {
    var path :| IsPath(graph, path) && path[0] in roots && path[|path| - 1] == a;
    var longer := path + [b];
    assert IsPath(graph, longer) && longer[0] in roots && longer[|longer| - 1] == b;
  }

  lemma RootIsReachable(graph: Graph, roots: set<Name>, root: Name)
    requires root in roots
    ensures Reachable(graph, roots, root)
  {
    assert IsPath(graph, [root]);
  }

  lemma {:induction false} PathStaysInside(graph: Graph, s: set<Name>, path: seq<Name>, i: nat)
    requires Closed(graph, s) && IsPath(graph, path) && path[0] in s && i < |path|
    ensures path[i] in s
    decreases i
  {
    if i > 0 {
      PathStaysInside(graph, s, path, i - 1);
    }
  }

  /** A set of names that the search cannot leave. */
  ghost predicate Confines(graph: Graph, roots: set<Name>, goal: iset<Name>) {
    && (forall x :: x in roots ==> x in goal)
    && (forall a, b :: a in goal && b in Successors(graph, a) ==> b in goal)
  }

  /** Everything met so far is inside, and every open end is on the frontier. */
  ghost predicate Searching(graph: Graph, roots: set<Name>, goal: iset<Name>, seen: set<Name>, frontier: seq<Name>) {
    && (forall x :: x in seen || x in frontier ==> x in goal)
    && (forall x :: x in roots ==> x in seen || x in frontier)
    && (forall a, b :: a in seen && b in Successors(graph, a) ==> b in seen || b in frontier)
  }

  lemma SearchStep(graph: Graph, roots: set<Name>, goal: iset<Name>, seen: set<Name>,
                   rest: seq<Name>, name: Name, successors: seq<Name>)
    requires Confines(graph, roots, goal) && Searching(graph, roots, goal, seen, rest + [name])
    requires forall x :: x in successors <==> x in Successors(graph, name)
    ensures Searching(graph, roots, goal, seen + {name}, rest + successors)
  {
    assert name in rest + [name];
    assert forall x :: x in rest ==> x in rest + [name];
    forall a, b | a in seen + {name} && b in Successors(graph, a)
      ensures b in seen + {name} || b in rest + successors
    {
      if a != name {
        assert b in seen || b in rest + [name];
      }
    }
    forall x | x in roots
      ensures x in seen + {name} || x in rest + successors
    {
      assert x in seen || x in rest + [name];
    }
  }

  /** The worklist loop: it ends, and what it returns holds the roots, is closed, and is confined. */
  method Worklist(graph: Graph, roots: set<Name>, ghost universe: set<Name>, ghost goal: iset<Name>)
    returns (seen: set<Name>)
    requires Confines(graph, roots, goal) && forall x :: x in goal ==> x in universe
    ensures roots <= seen && Closed(graph, seen)
    ensures forall x :: x in seen ==> x in goal
  {
    seen := {};
    var frontier := Listed(roots);
    while frontier != []
      invariant Searching(graph, roots, goal, seen, frontier)
      decreases |universe - seen|, |frontier|
    {
      var name := frontier[|frontier| - 1];
      var rest := frontier[..|frontier| - 1];
      assert frontier == rest + [name];
      if name in seen {
        frontier := rest;
      } else {
        var successors := Listed(Successors(graph, name));
        SearchStep(graph, roots, goal, seen, rest, name, successors);
        assert name in universe - seen;
        SmallerSet(universe - (seen + {name}), universe - seen);
        seen := seen + {name};
        frontier := rest + successors;
      }
    }
  }

  lemma {:induction false} ReachableIsConfined(graph: Graph, roots: set<Name>)
    ensures Confines(graph, roots, iset x | Reachable(graph, roots, x))
    ensures forall x :: Reachable(graph, roots, x) ==> x in Universe(graph, roots)
  {
    forall x | x in roots
      ensures Reachable(graph, roots, x)
    {
      RootIsReachable(graph, roots, x);
    }
    forall a, b | Reachable(graph, roots, a) && b in Successors(graph, a)
      ensures Reachable(graph, roots, b)
    {
      StepIsReachable(graph, roots, a, b);
    }
    forall x | Reachable(graph, roots, x)
      ensures x in Universe(graph, roots)
    {
      var path :| IsPath(graph, path) && path[0] in roots && path[|path| - 1] == x;
      if |path| > 1 {
        assert path[|path| - 1] in Successors(graph, path[|path| - 2]);
      }
    }
  }

  /** The search returns exactly what paths from the roots reach, which is the least closed set. */
  method BfsReachable(graph: Graph, roots: set<Name>) returns (seen: set<Name>)
    ensures forall name :: name in seen <==> Reachable(graph, roots, name)
    ensures roots <= seen && Closed(graph, seen)
    ensures forall s :: roots <= s && Closed(graph, s) ==> seen <= s
  {
    ReachableIsConfined(graph, roots);
    seen := Worklist(graph, roots, Universe(graph, roots), iset x | Reachable(graph, roots, x));
    LeastClosed(graph, roots, seen);
  }

  lemma SmallerSet(a: set<Name>, b: set<Name>)
    requires a < b
    ensures |a| < |b|
  {
    var x :| x in b && x !in a;
    assert a <= b - {x};
    SubsetSize(a, b - {x});
  }

  /** A closed set that holds the roots holds everything reachable. */
  lemma ReachableIsInside(graph: Graph, roots: set<Name>, s: set<Name>, name: Name)
    requires roots <= s && Closed(graph, s) && Reachable(graph, roots, name)
    ensures name in s
  {
    var path :| IsPath(graph, path) && path[0] in roots && path[|path| - 1] == name;
    PathStaysInside(graph, s, path, |path| - 1);
  }

  lemma LeastClosed(graph: Graph, roots: set<Name>, seen: set<Name>)
    requires roots <= seen && Closed(graph, seen)
    requires forall x :: x in seen ==> Reachable(graph, roots, x)
    ensures forall name :: name in seen <==> Reachable(graph, roots, name)
    ensures forall s :: roots <= s && Closed(graph, s) ==> seen <= s
  {
    forall name | Reachable(graph, roots, name)
      ensures name in seen
    {
      ReachableIsInside(graph, roots, seen, name);
    }
    forall s | roots <= s && Closed(graph, s)
      ensures seen <= s
    {
      forall name | name in seen
        ensures name in s
      {
        ReachableIsInside(graph, roots, s, name);
      }
    }
  }

  // ---------------------------------------------------------------------------------------
  // Over-approximation
  // ---------------------------------------------------------------------------------------

  /** A function as the compiler sees it: many files may declare the same name. */
  datatype Function = Function(path: string, name: Name)

  type Calls = (Function, Function) -> bool

  /**
    Every concrete call stands on some line of the caller's name, in call position, and goes to
    a declared function; on a line that declares that very name it can only be a self-call.
   */
  ghost predicate StandsInSource(lines: seq<Line>, calls: Calls) {
    forall a, b :: calls(a, b) ==>
      Declared(lines, b.name) &&
      exists i :: 0 <= i < |lines| && Spells(lines[i], a.name, b.name)
  }

  ghost predicate Spells(line: Line, caller: Name, callee: Name) {
    && line.enclosing == caller && callee in line.tokens && callee !in NON_CALL_KEYWORDS
    && (line.declares == Some(callee) ==> caller == callee)
  }

  ghost predicate IsTrace(calls: Calls, trace: seq<Function>) {
    trace != [] && forall i :: 0 < i < |trace| ==> calls(trace[i - 1], trace[i])
  }

  lemma CallIsEdgeOrSelf(lines: seq<Line>, names: set<Name>, calls: Calls, a: Function, b: Function)
    requires StandsInSource(lines, calls) && calls(a, b)
    requires forall name :: name in names <==> Declared(lines, name)
    ensures a.name == b.name || CallsByName(lines, names, a.name, b.name)
  {
    var i :| 0 <= i < |lines| && Spells(lines[i], a.name, b.name);
  }

  lemma {:induction false} TraceStaysInside(lines: seq<Line>, names: set<Name>, graph: Graph, s: set<Name>,
                                            calls: Calls, trace: seq<Function>, i: nat)
    requires StandsInSource(lines, calls) && IsTrace(calls, trace) && i < |trace|
    requires forall name :: name in names <==> Declared(lines, name)
    requires forall a, b :: b in Successors(graph, a) <==> CallsByName(lines, names, a, b)
    requires Closed(graph, s) && trace[0].name in s
    ensures trace[i].name in s
    decreases i
  {
    if i > 0 {
      TraceStaysInside(lines, names, graph, s, calls, trace, i - 1);
      CallIsEdgeOrSelf(lines, names, calls, trace[i - 1], trace[i]);
      assert trace[i].name in Successors(graph, trace[i - 1].name) || trace[i].name == trace[i - 1].name;
    }
  }

  /**
    The census never misses a reachable function: for every call graph over (file, function)
    declarations that the sources spell out, the name of every function on a trace from a root
    is in the computed set.
   */
  method ReachableNames(lines: seq<Line>, roots: set<Name>, ghost calls: Calls) returns (seen: set<Name>)
    ensures StandsInSource(lines, calls) ==>
              forall trace: seq<Function>, i :: IsTrace(calls, trace) && trace[0].name in roots && 0 <= i < |trace| ==>
                trace[i].name in seen
  {
    var names := IndexFunctions(lines);
    var graph := BuildGraph(lines, names);
    seen := BfsReachable(graph, roots);
    if StandsInSource(lines, calls) {
      forall trace: seq<Function>, i | IsTrace(calls, trace) && trace[0].name in roots && 0 <= i < |trace|
        ensures trace[i].name in seen
      {
        TraceStaysInside(lines, names, graph, seen, calls, trace, i);
      }
    }
  }
}
