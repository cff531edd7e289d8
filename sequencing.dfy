/**
 * Ordering the parsed modules of a package for type checking
 * (`ParsedModules::sequence`), and, when their imports are circular,
 * recovering one concrete import cycle for the diagnostic (`find_cycle`).
 *
 * The parsed-module set is a map from module name to module.  Its iteration
 * order is unspecified, so the loops below pick the next key arbitrarily and
 * every contract is independent of that choice.
 */
module Sequencing {
  import opened Wrappers
  import opened Ast
  import opened ImportGraphs

  datatype Error = ImportCycle(modules: seq<string>)

  /** `ParsedModule::deps_for_graph`: the module's name and the names it imports, in order, without spans. */
  function DepsForGraph(m: ParsedModule): (r: (string, seq<string>))
    ensures r.0 == m.name && |r.1| == |m.dependencies|
    ensures forall x :: x in r.1 <==> exists d :: d in m.dependencies && d.moduleName == x
  {
    var names := seq(|m.dependencies|, i requires 0 <= i < |m.dependencies| => m.dependencies[i].moduleName);
    ImportNamesMembers(m.dependencies, names);
    (m.name, names)
  }

  lemma ImportNamesMembers(deps: seq<Dependency>, names: seq<string>)
    requires |names| == |deps| && forall i :: 0 <= i < |deps| ==> names[i] == deps[i].moduleName
    ensures forall x :: x in names <==> exists d :: d in deps && d.moduleName == x
  {
    forall x | x in names ensures exists d :: d in deps && d.moduleName == x {
      var i :| 0 <= i < |names| && names[i] == x;
      assert deps[i] in deps;
    }
    forall d | d in deps ensures d.moduleName in names {
      var i :| 0 <= i < |deps| && deps[i] == d;
      assert names[i] == d.moduleName;
    }
  }

  /** The import names of a concatenation of import lists are the concatenation of their import names. */
  lemma DepsForGraphAppend(m: ParsedModule, a: seq<Dependency>, b: seq<Dependency>)
    ensures DepsForGraph(m.(dependencies := a + b)).1
         == DepsForGraph(m.(dependencies := a)).1 + DepsForGraph(m.(dependencies := b)).1
  {
    var r, ra, rb := DepsForGraph(m.(dependencies := a + b)).1, DepsForGraph(m.(dependencies := a)).1, DepsForGraph(m.(dependencies := b)).1;
    forall i | 0 <= i < |r| ensures r[i] == (ra + rb)[i] {
      if i < |a| {
        assert r[i] == (a + b)[i].moduleName == a[i].moduleName == ra[i];
      } else {
        assert r[i] == (a + b)[i].moduleName == b[i - |a|].moduleName == rb[i - |a|];
      }
    }
  }

  /** Every module is stored under its own name (module names are unique). */
  predicate NamesAreKeys(parsed: map<string, ParsedModule>) {
    forall k :: k in parsed ==> parsed[k].name == k
  }

  /** Module `a` imports module `b`, and both belong to the set being compiled. */
  ghost predicate Imports(parsed: map<string, ParsedModule>, a: string, b: string) {
    a in parsed && b in parsed && b in DepsForGraph(parsed[a]).1
  }

  /** Every module of the set exactly once, each after every module of the set it imports. */
  ghost predicate IsCompilationSequence(parsed: map<string, ParsedModule>, s: seq<string>) {
    && Distinct(s)
    && (forall k :: k in parsed <==> k in s)
    && (forall i, j :: 0 <= i < |s| && 0 <= j < |s| && Imports(parsed, s[i], s[j]) ==> j < i)
  }

  /** Each module of `m` is imported by the one after it. */
  ghost predicate ImportChain(parsed: map<string, ParsedModule>, m: seq<string>) {
    forall i :: 0 <= i < |m| - 1 ==> Imports(parsed, m[i + 1], m[i])
  }

  /**
   * The diagnostic of an import cycle: distinct modules of the set, each
   * imported by the next, and the first importing the last, so read
   * backwards the report is a closed walk along imports.
   */
  ghost predicate IsCycleReport(parsed: map<string, ParsedModule>, m: seq<string>) {
    && |m| >= 1
    && Distinct(m)
    && (forall i :: 0 <= i < |m| ==> m[i] in parsed)
    && ImportChain(parsed, m)
    && Imports(parsed, m[0], m[|m| - 1])
  }

  ghost predicate HasImportCycle(parsed: map<string, ParsedModule>) {
    exists m :: IsCycleReport(parsed, m)
  }

  /** `m` imports itself and every import between modules of the set points at `m`. */
  ghost predicate SelfImportOnly(parsed: map<string, ParsedModule>, m: string) {
    Imports(parsed, m, m) && forall a, b :: Imports(parsed, a, b) ==> b == m
  }

  // ---------------------------------------------------------------------------
  // find_cycle

  /** Read backwards, `q` follows edges: each node is entered from the node after it. */
  ghost predicate BackWalk(g: seq<seq<nat>>, q: seq<nat>) {
    forall i :: 0 <= i < |q| - 1 ==> Edge(g, q[i + 1], q[i])
  }

  /**
   * What a successful search from `parent` appends to the path: the origin
   * first, then the nodes of the branch from the deepest up, each entered from
   * the next, the last one entered from `parent`; the nodes after the origin
   * are distinct, were not yet seen when the search started, and are not `parent`.
   */
  ghost predicate CyclePath(g: seq<seq<nat>>, origin: nat, parent: nat, q: seq<nat>, seen: set<nat>) {
    && |q| >= 1
    && q[0] == origin
    && (forall i :: 0 <= i < |q| ==> q[i] < |g|)
    && BackWalk(g, q)
    && Edge(g, parent, q[|q| - 1])
    && (forall i :: 1 <= i < |q| ==> q[i] !in seen && q[i] != parent)
    && Distinct(q[1..])
  }

  /** Every node a failed search added to `seen` had all its successors seen, none of them the origin. */
  ghost predicate Exhausted(g: seq<seq<nat>>, origin: nat, before: set<nat>, after: set<nat>) {
    forall x, y :: x in after - before && Edge(g, x, y) ==> y in after && y != origin
  }

  lemma ExtendCyclePath(g: seq<seq<nat>>, origin: nat, parent: nat, node: nat, q: seq<nat>,
                        seen: set<nat>, seenChild: set<nat>)
    requires CyclePath(g, origin, node, q, seenChild)
    requires Edge(g, parent, node) && node !in seenChild && seen + {parent} <= seenChild
    ensures CyclePath(g, origin, parent, q + [node], seen)
  {
    var q' := q + [node];
    assert q'[1..] == q[1..] + [node];
    forall i | 0 <= i < |q'| - 1 ensures Edge(g, q'[i + 1], q'[i]) {
      if i < |q| - 1 { assert q'[i + 1] == q[i + 1] && q'[i] == q[i]; }
    }
  }

  /**
   * `find_cycle(origin, parent, graph, path, seen)`: depth-first search for
   * a way back to `origin`, trying the neighbours of `parent` in the graph's
   * order.  The mutable `path` and `seen` are passed in and handed back.  A
   * node is pushed onto the path only while a successful branch unwinds; a
   * failed search leaves the path as it was.
   */
  method FindCycle(origin: nat, parent: nat, g: seq<seq<nat>>, path: seq<nat>, seen: set<nat>)
    returns (found: bool, path': seq<nat>, seen': set<nat>)
    requires ValidGraph(g) && parent < |g|
    ensures seen + {parent} <= seen'
    ensures found ==> |path'| > |path| && path'[..|path|] == path
    ensures found ==> CyclePath(g, origin, parent, path'[|path|..], seen)
    ensures !found ==> path' == path && Exhausted(g, origin, seen, seen')
    ensures |g[parent]| > 0 && g[parent][0] == origin ==> found && path' == path + [origin]
    ensures found ==> exists k :: 0 <= k < |g[parent]| && path'[|path'| - 1] == g[parent][k]
                                 && forall j :: 0 <= j < k ==> g[parent][j] != origin && g[parent][j] in seen'
    decreases NodesBelow(|g|) - (seen + {parent})
  {
    seen' := seen + {parent};
    path' := path;
    var neighbours := g[parent];
    var k := 0;
    while k < |neighbours|
      invariant 0 <= k <= |neighbours|
      invariant path' == path
      invariant seen + {parent} <= seen'
      invariant forall j :: 0 <= j < k ==> neighbours[j] in seen' && neighbours[j] != origin
      invariant forall x, y :: x in seen' - seen && x != parent && Edge(g, x, y) ==> y in seen' && y != origin
    {
      var node := neighbours[k];
      if node == origin {
        found, path' := true, path' + [node];
        assert path'[|path|..] == [origin];
        return;
      }
      if node !in seen' {
        assert node in NodesBelow(|g|) - (seen + {parent});
        var before := seen';
        var ok;
        ok, path', seen' := FindCycle(origin, node, g, path', seen');
        if ok {
          ExtendCyclePath(g, origin, parent, node, path'[|path|..], seen, before);
          assert (path' + [node])[|path|..] == path'[|path|..] + [node];
          found, path' := true, path' + [node];
          return;
        }
      }
      k := k + 1;
    }
    found := false;
  }

  /** `find_cycle` from the origin itself: what it appends is a simple cycle through the origin. */
  lemma CyclePathFromOrigin(g: seq<seq<nat>>, origin: nat, q: seq<nat>)
    requires CyclePath(g, origin, origin, q, {})
    ensures Distinct(q) && Edge(g, origin, q[|q| - 1])
  {
    forall i, j | 0 <= i < j < |q| ensures q[i] != q[j] {
      if i > 0 { assert q[i] == q[1..][i - 1] && q[j] == q[1..][j - 1]; }
    }
  }

  /**
   * A closed walk through `o` must leave any set of nodes containing `o`, or
   * re-enter `o` from inside it: the two things a failed search rules out.
   */
  lemma CycleEscapes(g: seq<seq<nat>>, o: nat, s: set<nat>)
    requires OnCycle(g, o) && o in s
    ensures exists x, y :: x in s && Edge(g, x, y) && (y !in s || y == o)
  {
    var w :| ClosedWalk(g, w, o);
    EscapeFrom(g, o, s, w, 0);
  }

  lemma {:induction false} EscapeFrom(g: seq<seq<nat>>, o: nat, s: set<nat>, w: seq<nat>, i: nat)
    requires ClosedWalk(g, w, o) && i < |w| - 1 && w[i] in s
    ensures exists x, y :: x in s && Edge(g, x, y) && (y !in s || y == o)
    decreases |w| - i
  {
    assert Edge(g, w[i], w[i + 1]);
    if w[i + 1] !in s || w[i + 1] == o {
    } else {
      EscapeFrom(g, o, s, w, i + 1);
    }
  }

  /** A search from a node on a cycle never fails. */
  lemma SearchFromCycleSucceeds(g: seq<seq<nat>>, o: nat, seen: set<nat>)
    requires OnCycle(g, o) && o in seen
    ensures !Exhausted(g, o, {}, seen)
  {
    CycleEscapes(g, o, seen);
    var x, y :| x in seen && Edge(g, x, y) && (y !in seen || y == o);
    assert x in seen - {};
  }

  // ---------------------------------------------------------------------------
  // sequence

  ghost function Names(inputs: seq<(string, seq<string>)>): (r: seq<string>)
    ensures |r| == |inputs| && forall i :: 0 <= i < |inputs| ==> r[i] == inputs[i].0
  {
    seq(|inputs|, i requires 0 <= i < |inputs| => inputs[i].0)
  }

  /** `values().map(|m| m.deps_for_graph()).collect()`: one entry per module, in iteration order. */
  method CollectInputs(parsed: map<string, ParsedModule>) returns (inputs: seq<(string, seq<string>)>)
    requires NamesAreKeys(parsed)
    ensures forall i :: 0 <= i < |inputs| ==> inputs[i].0 in parsed && inputs[i] == DepsForGraph(parsed[inputs[i].0])
    ensures Distinct(Names(inputs))
    ensures forall k :: k in parsed <==> k in Names(inputs)
  {
    inputs := [];
    var rest := parsed.Keys;
    while rest != {}
      invariant rest <= parsed.Keys
      invariant forall i :: 0 <= i < |inputs| ==> inputs[i].0 in parsed && inputs[i].0 !in rest
      invariant forall i :: 0 <= i < |inputs| ==> inputs[i] == DepsForGraph(parsed[inputs[i].0])
      invariant Distinct(Names(inputs))
      invariant forall k :: k in parsed && k !in rest <==> k in Names(inputs)
      decreases rest
    {
      var key :| key in rest;
      ghost var before := inputs;
      inputs := inputs + [DepsForGraph(parsed[key])];
      assert Names(inputs) == Names(before) + [key];
      rest := rest - {key};
    }
  }

  /** The node loop: one node per entry, and the name-to-index and index-to-name tables. */
  method AddNodes(graph: ImportGraph, inputs: seq<(string, seq<string>)>)
    returns (indices: map<string, nat>, values: map<nat, string>)
    requires graph.Valid() && graph.adj == []
    requires Distinct(Names(inputs))
    modifies graph
    ensures graph.Valid() && |graph.adj| == |inputs|
    ensures forall i :: 0 <= i < |inputs| ==> graph.adj[i] == []
    ensures forall i :: 0 <= i < |inputs| ==> inputs[i].0 in indices && indices[inputs[i].0] == i
    ensures forall k :: k in indices ==> indices[k] < |inputs| && inputs[indices[k]].0 == k
    ensures forall i: nat :: i in values <==> i < |inputs|
    ensures forall i :: i in values ==> values[i] == inputs[i].0
  {
    indices, values := map[], map[];
    var t := 0;
    while t < |inputs|
      invariant 0 <= t <= |inputs|
      invariant graph.Valid() && |graph.adj| == t
      invariant forall i :: 0 <= i < t ==> graph.adj[i] == []
      invariant forall i :: 0 <= i < t ==> inputs[i].0 in indices && indices[inputs[i].0] == i
      invariant forall k :: k in indices ==> indices[k] < t && inputs[indices[k]].0 == k
      invariant forall i: nat :: i in values <==> i < t
      invariant forall i :: i in values ==> values[i] == inputs[i].0
    {
      var value := inputs[t].0;
      assert forall i :: 0 <= i < t ==> inputs[i].0 != value by {
        assert forall i :: 0 <= i < t ==> Names(inputs)[i] == inputs[i].0 && Names(inputs)[t] == value;
      }
      var index := graph.AddNode();
      indices := indices[value := index];
      values := values[index := value];
      t := t + 1;
    }
  }

  /** The edge loop: an edge from each module to each import that is a node; other imports are dropped. */
  method AddEdges(graph: ImportGraph, inputs: seq<(string, seq<string>)>, indices: map<string, nat>)
    requires graph.Valid() && |graph.adj| == |inputs|
    requires forall i :: 0 <= i < |inputs| ==> graph.adj[i] == []
    requires forall i :: 0 <= i < |inputs| ==> inputs[i].0 in indices && indices[inputs[i].0] == i
    requires forall k :: k in indices ==> indices[k] < |inputs| && inputs[indices[k]].0 == k
    modifies graph
    ensures graph.Valid() && |graph.adj| == |inputs|
    ensures forall i, j :: 0 <= i < |inputs| && 0 <= j < |inputs| ==>
              (Edge(graph.adj, i, j) <==> inputs[j].0 in inputs[i].1)
  {
    var t := 0;
    while t < |inputs|
      invariant 0 <= t <= |inputs|
      invariant graph.Valid() && |graph.adj| == |inputs|
      invariant forall i, j :: 0 <= i < t && 0 <= j < |inputs| ==> (j in graph.adj[i] <==> inputs[j].0 in inputs[i].1)
      invariant forall i :: t <= i < |inputs| ==> graph.adj[i] == []
    {
      var (value, deps) := inputs[t];
      if value in indices {
        var from := indices[value];
        ghost var before := graph.adj;
        var k := 0;
        while k < |deps|
          invariant 0 <= k <= |deps|
          invariant graph.Valid() && |graph.adj| == |inputs|
          invariant forall i :: 0 <= i < |inputs| && i != from ==> graph.adj[i] == before[i]
          invariant forall j :: 0 <= j < |inputs| ==> (j in graph.adj[from] <==> inputs[j].0 in deps[..k])
        {
          var dep := deps[k];
          assert deps[..k + 1] == deps[..k] + [dep];
          if dep in indices {
            graph.AddEdge(from, indices[dep]);
          }
          k := k + 1;
        }
        assert deps[..k] == deps;
      }
      t := t + 1;
    }
  }

  /** `filter_map(|i| values.remove(i))` over `order`: the names of the indices still present, each taken once. */
  function Taken(values: map<nat, string>, order: seq<nat>): (r: seq<string>)
  {
    if order == [] then []
    else if order[0] in values then [values[order[0]]] + Taken(values - {order[0]}, order[1..])
    else Taken(values, order[1..])
  }

  lemma {:induction false} TakenDistinct(values: map<nat, string>, order: seq<nat>)
    requires Distinct(order) && forall i :: 0 <= i < |order| ==> order[i] in values
    ensures |Taken(values, order)| == |order|
    ensures forall t :: 0 <= t < |order| ==> Taken(values, order)[t] == values[order[t]]
  {
    if order != [] {
      var rest := values - {order[0]};
      assert forall i :: 0 <= i < |order[1..]| ==> order[1..][i] in rest by {
        forall i | 0 <= i < |order[1..]| ensures order[1..][i] in rest {
          assert order[1..][i] == order[i + 1] != order[0];
        }
      }
      TakenDistinct(rest, order[1..]);
    }
  }

  method TakeNames(values: map<nat, string>, order: seq<nat>) returns (names: seq<string>)
    ensures names == Taken(values, order)
  {
    names := [];
    var rest := values;
    var k := 0;
    while k < |order|
      invariant 0 <= k <= |order|
      invariant names + Taken(rest, order[k..]) == Taken(values, order)
    {
      var i := order[k];
      assert order[k..][1..] == order[k + 1..];
      if i in rest {
        names := names + [rest[i]];
        rest := rest - {i};
      }
      k := k + 1;
    }
  }

  /** `.rev()`: the same elements, last first. */
  function Reversed(s: seq<nat>): (r: seq<nat>)
    ensures |r| == |s| && forall i :: 0 <= i < |s| ==> r[i] == s[|s| - 1 - i]
  {
    seq(|s|, i requires 0 <= i < |s| => s[|s| - 1 - i])
  }

  /** Reversing twice gives the sequence back. */
  lemma ReversedInvolutive(s: seq<nat>)
    ensures Reversed(Reversed(s)) == s
  {
    var r := Reversed(Reversed(s));
    forall i | 0 <= i < |s| ensures r[i] == s[i] {
      assert r[i] == Reversed(s)[|s| - 1 - i];
    }
  }

  /** Reversing keeps every element with its multiplicity. */
  lemma {:induction false} ReversedSameItems(s: seq<nat>)
    ensures multiset(Reversed(s)) == multiset(s)
  {
    if s != [] {
      var n := |s| - 1;
      ReversedSameItems(s[..n]);
      assert Reversed(s) == [s[n]] + Reversed(s[..n]);
      assert s == s[..n] + [s[n]];
    }
  }

  /** The graph over `names` has an edge `i -> j` exactly when module `names[i]` imports `names[j]`. */
  ghost predicate Mirrors(parsed: map<string, ParsedModule>, names: seq<string>, g: seq<seq<nat>>) {
    && ValidGraph(g)
    && |g| == |names|
    && Distinct(names)
    && (forall k :: k in parsed <==> k in names)
    && (forall i, j :: 0 <= i < |g| && 0 <= j < |g| ==> (Edge(g, i, j) <==> Imports(parsed, names[i], names[j])))
  }

  /** Reversing a topological order of the import graph gives a compilation sequence. */
  lemma SequenceFromOrder(parsed: map<string, ParsedModule>, names: seq<string>, g: seq<seq<nat>>,
                          order: seq<nat>, s: seq<string>)
    requires Mirrors(parsed, names, g) && IsTopologicalOrder(g, order)
    requires |s| == |order| && forall t :: 0 <= t < |s| ==> s[t] == names[order[|order| - 1 - t]]
    ensures IsCompilationSequence(parsed, s)
  {
    ReversedNamesDistinct(names, g, order, s);
    ReversedNamesCover(parsed, names, g, order, s);
    ReversedNamesRespectImports(parsed, names, g, order, s);
  }

  lemma ReversedNamesDistinct(names: seq<string>, g: seq<seq<nat>>, order: seq<nat>, s: seq<string>)
    requires Distinct(names) && |g| == |names| && IsTopologicalOrder(g, order)
    requires |s| == |order| && forall t :: 0 <= t < |s| ==> s[t] == names[order[|order| - 1 - t]]
    ensures Distinct(s)
  {
    var n := |order|;
    forall a, b | 0 <= a < b < n ensures s[a] != s[b] {
      assert order[n - 1 - a] != order[n - 1 - b];
    }
  }

  lemma ReversedNamesCover(parsed: map<string, ParsedModule>, names: seq<string>, g: seq<seq<nat>>, order: seq<nat>, s: seq<string>)
    requires (forall k :: k in parsed <==> k in names) && |g| == |names| && IsTopologicalOrder(g, order)
    requires |s| == |order| && forall t :: 0 <= t < |s| ==> s[t] == names[order[|order| - 1 - t]]
    ensures forall k :: k in parsed <==> k in s
  {
    var n := |order|;
    forall k | k in parsed ensures k in s {
      var x :| 0 <= x < |names| && names[x] == k;
      assert x in order;
      var p :| 0 <= p < n && order[p] == x;
      assert s[n - 1 - p] == k;
    }
  }

  lemma ReversedNamesRespectImports(parsed: map<string, ParsedModule>, names: seq<string>, g: seq<seq<nat>>,
                                    order: seq<nat>, s: seq<string>)
    requires Mirrors(parsed, names, g) && IsTopologicalOrder(g, order)
    requires |s| == |order| && forall t :: 0 <= t < |s| ==> s[t] == names[order[|order| - 1 - t]]
    ensures forall i, j :: 0 <= i < |s| && 0 <= j < |s| && Imports(parsed, s[i], s[j]) ==> j < i
  {
    var n := |order|;
    forall a, b | 0 <= a < n && 0 <= b < n && Imports(parsed, s[a], s[b]) ensures b < a {
      assert Edge(g, order[n - 1 - a], order[n - 1 - b]);
    }
  }

  /** The names along a cycle path found from the origin form a cycle report. */
  lemma ReportFromPath(parsed: map<string, ParsedModule>, names: seq<string>, g: seq<seq<nat>>,
                       o: nat, q: seq<nat>, m: seq<string>)
    requires Mirrors(parsed, names, g) && CyclePath(g, o, o, q, {})
    requires |m| == |q| && forall t :: 0 <= t < |m| ==> m[t] == names[q[t]]
    ensures IsCycleReport(parsed, m)
  {
    CyclePathFromOrigin(g, o, q);
    forall a, b | 0 <= a < b < |m| ensures m[a] != m[b] {
      assert q[a] != q[b];
    }
    forall i | 0 <= i < |m| - 1 ensures Imports(parsed, m[i + 1], m[i]) {
      assert Edge(g, q[i + 1], q[i]);
    }
    assert Edge(g, q[0], q[|q| - 1]);
  }

  /** In a compilation sequence no module imports itself. */
  lemma NoSelfImportInSequence(parsed: map<string, ParsedModule>, s: seq<string>, m: string)
    requires IsCompilationSequence(parsed, s)
    ensures !Imports(parsed, m, m)
  {
    if m in parsed {
      var i := IndexOf(s, m);
    }
  }

  /** When `m` imports itself and every import between modules of the set is an import of `m`, a node on a cycle is `m`, and its first edge is the self-loop. */
  lemma SelfLoopOrigin(parsed: map<string, ParsedModule>, names: seq<string>, g: seq<seq<nat>>, m: string, o: nat)
    requires Mirrors(parsed, names, g) && SelfImportOnly(parsed, m) && OnCycle(g, o)
    ensures o < |g| && names[o] == m && |g[o]| > 0 && g[o][0] == o
  {
    var w :| ClosedWalk(g, w, o);
    assert Edge(g, w[0], w[1]);
    var last := |w| - 1;
    assert Edge(g, w[last - 1], w[last]);
    assert Imports(parsed, names[w[last - 1]], names[o]);
    var t := g[o][0];
    assert Edge(g, o, t);
    assert Imports(parsed, names[o], names[t]);
  }

  function IndexOf(s: seq<string>, x: string): (r: nat)
    requires x in s
    ensures r < |s| && s[r] == x
  {
    if s[0] == x then 0 else 1 + IndexOf(s[1..], x)
  }

  lemma {:induction false} ChainRises(parsed: map<string, ParsedModule>, s: seq<string>, m: seq<string>, k: nat)
    requires IsCompilationSequence(parsed, s) && ImportChain(parsed, m)
    requires k < |m| && forall i :: 0 <= i < |m| ==> m[i] in parsed
    ensures IndexOf(s, m[0]) <= IndexOf(s, m[k])
  {
    if k > 0 {
      ChainRises(parsed, s, m, k - 1);
      assert Imports(parsed, m[k], m[k - 1]);
      assert Imports(parsed, s[IndexOf(s, m[k])], s[IndexOf(s, m[k - 1])]);
    }
  }

  /** A set that has a compilation sequence has no import cycle. */
  lemma {:induction false} SequenceExcludesCycle(parsed: map<string, ParsedModule>, s: seq<string>, m: seq<string>)
    requires IsCompilationSequence(parsed, s)
    ensures !IsCycleReport(parsed, m)
  {
    if |m| >= 1 && (forall i :: 0 <= i < |m| ==> m[i] in parsed) && ImportChain(parsed, m) {
      ChainRises(parsed, s, m, |m| - 1);
      var first, last := IndexOf(s, m[0]), IndexOf(s, m[|m| - 1]);
      assert s[first] == m[0] && s[last] == m[|m| - 1];
    }
  }

  /** `values` maps each node index to the name of its module. */
  ghost predicate NameTable(values: map<nat, string>, names: seq<string>) {
    && (forall i: nat :: i in values <==> i < |names|)
    && (forall i :: i in values ==> values[i] == names[i])
  }

  /** The graph the node and edge loops build mirrors the import relation of the set. */
  lemma GraphMirrorsImports(parsed: map<string, ParsedModule>, inputs: seq<(string, seq<string>)>, g: seq<seq<nat>>)
    requires forall i :: 0 <= i < |inputs| ==> inputs[i].0 in parsed && inputs[i] == DepsForGraph(parsed[inputs[i].0])
    requires Distinct(Names(inputs)) && forall k :: k in parsed <==> k in Names(inputs)
    requires ValidGraph(g) && |g| == |inputs|
    requires forall i, j :: 0 <= i < |inputs| && 0 <= j < |inputs| ==> (Edge(g, i, j) <==> inputs[j].0 in inputs[i].1)
    ensures Mirrors(parsed, Names(inputs), g)
  {
  }

  /** The success branch: the reversed topological order, as names, is a compilation sequence and rules out every cycle. */
  lemma SequenceBranch(parsed: map<string, ParsedModule>, names: seq<string>, g: seq<seq<nat>>,
                       values: map<nat, string>, order: seq<nat>)
    requires Mirrors(parsed, names, g) && NameTable(values, names) && IsTopologicalOrder(g, order)
    ensures IsCompilationSequence(parsed, Taken(values, Reversed(order)))
    ensures !HasImportCycle(parsed)
    ensures forall m :: !SelfImportOnly(parsed, m)
  {
    var sequence := Taken(values, Reversed(order));
    TakenDistinct(values, Reversed(order));
    SequenceFromOrder(parsed, names, g, order, sequence);
    forall m ensures !IsCycleReport(parsed, m) {
      SequenceExcludesCycle(parsed, sequence, m);
    }
    forall m ensures !SelfImportOnly(parsed, m) {
      NoSelfImportInSequence(parsed, sequence, m);
    }
  }

  /** The failure branch: the names along the path found from the origin form a cycle report. */
  lemma CycleBranch(parsed: map<string, ParsedModule>, names: seq<string>, g: seq<seq<nat>>,
                    values: map<nat, string>, origin: nat, path: seq<nat>)
    requires Mirrors(parsed, names, g) && NameTable(values, names)
    requires CyclePath(g, origin, origin, path, {})
    ensures IsCycleReport(parsed, Taken(values, path))
    ensures HasImportCycle(parsed)
  {
    CyclePathFromOrigin(g, origin, path);
    TakenDistinct(values, path);
    ReportFromPath(parsed, names, g, origin, path, Taken(values, path));
  }

  /** When `m` imports itself and every import between modules of the set is an import of `m`, the cycle is found along the origin's first edge and reported as `m` alone. */
  lemma SelfImportBranch(parsed: map<string, ParsedModule>, names: seq<string>, g: seq<seq<nat>>,
                         values: map<nat, string>, origin: nat, m: string)
    requires Mirrors(parsed, names, g) && NameTable(values, names)
    requires SelfImportOnly(parsed, m) && OnCycle(g, origin)
    ensures origin < |g| && |g[origin]| > 0 && g[origin][0] == origin && Taken(values, [origin]) == [m]
  {
    SelfLoopOrigin(parsed, names, g, m, origin);
    assert [origin][1..] == [];
  }

  /**
   * The graph-building half of `sequence`: a node per module in iteration
   * order, then an edge per import of a module of the set.  Returns the
   * adjacency lists and the index-to-name table.
   */
  method BuildGraph(parsed: map<string, ParsedModule>)
    returns (g: seq<seq<nat>>, values: map<nat, string>, ghost names: seq<string>)
    requires NamesAreKeys(parsed)
    ensures Mirrors(parsed, names, g) && NameTable(values, names)
  {
    var inputs := CollectInputs(parsed);
    var graph := new ImportGraph();
    var indices;
    indices, values := AddNodes(graph, inputs);
    AddEdges(graph, inputs, indices);
    names := Names(inputs);
    GraphMirrorsImports(parsed, inputs, graph.adj);
    g := graph.adj;
  }

  /**
   * `ParsedModules::sequence`.  On success every module appears once, after
   * the modules of the set it imports; on failure the error reports one
   * import cycle.  It fails exactly when the imports are circular, and a
   * module that imports itself, when that is the only cycle, is reported alone.
   */
  method Sequence(parsed: map<string, ParsedModule>) returns (r: Result<seq<string>, Error>)
    requires NamesAreKeys(parsed)
    ensures r.Ok? ==> IsCompilationSequence(parsed, r.value)
    ensures r.Err? ==> IsCycleReport(parsed, r.error.modules)
    ensures r.Ok? <==> !HasImportCycle(parsed)
    ensures forall m :: SelfImportOnly(parsed, m) ==> r == Err(ImportCycle([m]))
  {
    var g, values, names := BuildGraph(parsed);
    var sorted := TopoSort(g);
    match sorted
    case Ok(order) =>
      var sequence := TakeNames(values, Reversed(order));
      SequenceBranch(parsed, names, g, values, order);
      r := Ok(sequence);
    case Err(origin) =>
      var found, path, seen := FindCycle(origin, origin, g, [], {});
      SearchFromCycleSucceeds(g, origin, seen);
      assert found && path[0..] == path;
      var modules := TakeNames(values, path);
      CycleBranch(parsed, names, g, values, origin, path);
      r := Err(ImportCycle(modules));
      forall m | SelfImportOnly(parsed, m) ensures r == Err(ImportCycle([m])) {
        SelfImportBranch(parsed, names, g, values, origin, m);
      }
  }

  /**
   * Imports of modules outside the set add no edge: appending them to a
   * module changes neither the import relation nor which sequences and cycle
   * reports are valid.
   */
  lemma DanglingImportsIgnored(parsed: map<string, ParsedModule>, key: string, extra: seq<Dependency>)
    requires key in parsed
    requires forall d :: d in extra ==> d.moduleName !in parsed
    ensures var parsed' := parsed[key := parsed[key].(dependencies := parsed[key].dependencies + extra)];
      && (forall a, b :: Imports(parsed, a, b) <==> Imports(parsed', a, b))
      && (forall s :: IsCompilationSequence(parsed, s) <==> IsCompilationSequence(parsed', s))
      && (forall m :: IsCycleReport(parsed, m) <==> IsCycleReport(parsed', m))
  {
    var parsed' := parsed[key := parsed[key].(dependencies := parsed[key].dependencies + extra)];
    var old_ := DepsForGraph(parsed[key]).1;
    var new_ := DepsForGraph(parsed'[key]).1;
    var m := parsed[key];
    DepsForGraphAppend(m, m.dependencies, extra);
    assert m.(dependencies := m.dependencies) == m;
    assert new_ == old_ + DepsForGraph(m.(dependencies := extra)).1;
    assert forall a, b :: Imports(parsed, a, b) <==> Imports(parsed', a, b);
    assert forall s :: IsCompilationSequence(parsed, s) <==> IsCompilationSequence(parsed', s);
    assert forall m :: ImportChain(parsed, m) <==> ImportChain(parsed', m);
  }
}
