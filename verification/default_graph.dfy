/** The built-in graph that the trace generator falls back on when it is
    called without a graph (dijkstra-algorithm.ts, lines 97-121), and the
    trace it produces. */
module DefaultGraph {
  import opened Types
  import opened Paths
  import opened Search
  import opened Dijkstra

  function DefaultVertices(): (r: seq<Vertex>)
    ensures |r| == 7 && forall i :: 0 <= i < 7 ==> r[i].id == i && !r[i].processed
  {
    [ Vertex(0, Fin(0), false, 100.0, 200.0),
      Vertex(1, Inf, false, 300.0, 100.0),
      Vertex(2, Inf, false, 300.0, 300.0),
      Vertex(3, Inf, false, 500.0, 50.0),
      Vertex(4, Inf, false, 500.0, 200.0),
      Vertex(5, Inf, false, 500.0, 350.0),
      Vertex(6, Inf, false, 700.0, 200.0) ]
  }

  function E(from: int, to: int, weight: int): Edge
  {
    Edge(from, to, weight, false, None)
  }

  function DefaultEdges(): (r: seq<Edge>)
    ensures |r| == 12 && forall e :: e in r ==> 0 <= e.from < 7 && 0 <= e.to < 7 && e.weight > 0
  {
    [ E(0, 1, 2), E(0, 2, 1), E(1, 3, 11), E(1, 4, 3), E(1, 2, 5), E(2, 5, 15),
      E(3, 4, 2), E(4, 2, 1), E(4, 5, 4), E(4, 6, 5), E(6, 3, 1), E(6, 5, 1) ]
  }

  /** The shortest distances from vertex 0 in the built-in graph. */
  function ExpectedDist(): map<int, Dist>
  {
    map[0 := Fin(0), 1 := Fin(2), 2 := Fin(1), 3 := Fin(11), 4 := Fin(5), 5 := Fin(9), 6 := Fin(10)]
  }

  /** The last hop of each shortest path from vertex 0; `None` at vertex 0. */
  function ExpectedPred(): map<int, Option<int>>
  {
    map[0 := None, 1 := Some(0), 2 := Some(0), 3 := Some(6), 4 := Some(1), 5 := Some(4), 6 := Some(4)]
  }

  function Potential(): map<int, int>
  {
    map[0 := 0, 1 := 2, 2 := 1, 3 := 11, 4 := 5, 5 := 9, 6 := 10]
  }

  lemma DefaultIds()
    ensures Ids(DefaultVertices()) == {0, 1, 2, 3, 4, 5, 6}
  {
    var vs := DefaultVertices();
    assert vs[0] in vs && vs[1] in vs && vs[2] in vs && vs[3] in vs;
    assert vs[4] in vs && vs[5] in vs && vs[6] in vs;
  }

  lemma DefaultGraphOk()
    ensures GraphOk(DefaultVertices(), DefaultEdges())
  {
    DefaultIds();
  }

  /** No edge of the built-in graph lowers the expected distances by more
      than its weight. */
  lemma PotentialOk()
    ensures forall e :: e in DefaultEdges() ==>
      e.from in Potential() && e.to in Potential() && Potential()[e.to] <= Potential()[e.from] + e.weight
  {
  }

  /** A path whose weight meets a potential bound is a shortest one, so any
      shortest-path distance to its end is that weight. */
  lemma PotentialExact(es: seq<Edge>, pot: map<int, int>, s: int, t: int, q: seq<Edge>, d: Dist)
    requires forall e :: e in es ==> e.from in pot && e.to in pot && pot[e.to] <= pot[e.from] + e.weight
    requires s in pot && pot[s] == 0 && t in pot
    requires IsPath(es, q, s, t) && Weight(q) == pot[t]
    requires IsShortest(es, s, t, d)
    ensures d == Fin(pot[t])
  {
    assert Le(d, Fin(Weight(q)));
    var p :| IsPath(es, p, s, t) && Weight(p) == d.n;
    PotentialBound(es, pot, p, s, t);
  }

  /** Following the edge with index `k` of the built-in list. */
  lemma Hop(p: seq<Edge>, k: nat) returns (q: seq<Edge>)
    requires k < 12 && IsPath(DefaultEdges(), p, 0, DefaultEdges()[k].from)
    ensures IsPath(DefaultEdges(), q, 0, DefaultEdges()[k].to)
    ensures Weight(q) == Weight(p) + DefaultEdges()[k].weight
  {
    var es := DefaultEdges();
    assert es[k] in es;
    PathExtend(es, p, 0, es[k]);
    q := p + [es[k]];
  }

  /** The path 0, 1, 4 of weight 5. */
  lemma PathTo4() returns (q: seq<Edge>)
    ensures IsPath(DefaultEdges(), q, 0, 4) && Weight(q) == 5
  {
    var p1 := Hop([], 0);
    q := Hop(p1, 3);
  }

  /** The path 0, 1, 4, 6 of weight 10. */
  lemma PathTo6() returns (q: seq<Edge>)
    ensures IsPath(DefaultEdges(), q, 0, 6) && Weight(q) == 10
  {
    var p4 := PathTo4();
    q := Hop(p4, 9);
  }

  /** A path from 0 to `u` in the built-in graph whose weight is the
      expected distance of `u`. */
  lemma ShortestPath(u: int) returns (q: seq<Edge>)
    requires 0 <= u < 7
    ensures IsPath(DefaultEdges(), q, 0, u) && Weight(q) == Potential()[u]
  {
    if u == 0 {
      q := [];
    } else if u == 1 {
      q := Hop([], 0);
    } else if u == 2 {
      q := Hop([], 1);
    } else if u == 3 {
      var p6 := PathTo6();
      q := Hop(p6, 10);
    } else if u == 4 {
      q := PathTo4();
    } else if u == 5 {
      var p4 := PathTo4();
      q := Hop(p4, 8);
    } else {
      q := PathTo6();
    }
  }

  /** Shortest-path distances from 0 in the built-in graph are the expected ones. */
  lemma DefaultDistances(d: map<int, Dist>)
    requires d.Keys == {0, 1, 2, 3, 4, 5, 6}
    requires forall u :: u in d ==> IsShortest(DefaultEdges(), 0, u, d[u])
    ensures d == ExpectedDist() && forall u :: u in d ==> d[u].Fin?
  {
    forall u | u in d
      ensures d[u] == Fin(Potential()[u])
    {
      DistanceOf(u, d[u]);
    }
    DistEq(d);
  }

  /** The shortest-path distance from 0 to one vertex of the built-in graph. */
  lemma DistanceOf(u: int, du: Dist)
    requires 0 <= u < 7 && IsShortest(DefaultEdges(), 0, u, du)
    ensures du == Fin(Potential()[u])
  {
    var q := ShortestPath(u);
    PotentialOk();
    PotentialExact(DefaultEdges(), Potential(), 0, u, q, du);
  }

  lemma DistEq(d: map<int, Dist>)
    requires d.Keys == {0, 1, 2, 3, 4, 5, 6}
    requires forall u :: u in d ==> d[u] == Fin(Potential()[u])
    ensures d == ExpectedDist()
  {
    assert d.Keys == ExpectedDist().Keys;
    forall u | u in d
      ensures d[u] == ExpectedDist()[u]
    {
    }
  }

  /** In the built-in graph, the only edge into `u` that continues a
      shortest path leaves the vertex recorded in ExpectedPred. */
  lemma OnlyLastHop(e: Edge)
    requires e in DefaultEdges() && e.to != 0
    requires ExpectedDist()[e.to] == Add(ExpectedDist()[e.from], e.weight)
    ensures ExpectedPred()[e.to] == Some(e.from)
  {
  }

  /** Predecessors that each close a shortest path of the built-in graph
      are the expected ones. */
  lemma DefaultPreds(d: map<int, Dist>, p: map<int, Option<int>>)
    requires d == ExpectedDist() && p.Keys == {0, 1, 2, 3, 4, 5, 6}
    requires forall u :: u in p ==> (p[u] == None <==> u == 0 || d[u] == Inf)
    requires forall u :: u in p && p[u].Some? ==>
      p[u].value in d &&
      exists e :: e in DefaultEdges() && e.from == p[u].value && e.to == u && d[u] == Add(d[p[u].value], e.weight)
    ensures p == ExpectedPred()
  {
    forall u | u in p && u != 0
      ensures p[u] == ExpectedPred()[u]
    {
      PredOf(d, p, u);
    }
    PredEq(p);
  }

  lemma ExpectedFinite()
    ensures ExpectedDist().Keys == {0, 1, 2, 3, 4, 5, 6}
    ensures forall u :: u in ExpectedDist() ==> ExpectedDist()[u].Fin?
  {
  }

  /** The recorded last hop into one vertex other than 0. */
  lemma PredOf(d: map<int, Dist>, p: map<int, Option<int>>, u: int)
    requires d == ExpectedDist() && p.Keys == {0, 1, 2, 3, 4, 5, 6}
    requires forall u :: u in p ==> (p[u] == None <==> u == 0 || d[u] == Inf)
    requires forall u :: u in p && p[u].Some? ==>
      p[u].value in d &&
      exists e :: e in DefaultEdges() && e.from == p[u].value && e.to == u && d[u] == Add(d[p[u].value], e.weight)
    requires u in p && u != 0
    ensures p[u] == ExpectedPred()[u]
  {
    ExpectedFinite();
    assert p[u].Some?;
    var e :| e in DefaultEdges() && e.from == p[u].value && e.to == u && d[u] == Add(d[p[u].value], e.weight);
    OnlyLastHop(e);
  }

  lemma PredEq(p: map<int, Option<int>>)
    requires p.Keys == {0, 1, 2, 3, 4, 5, 6} && p[0] == None
    requires forall u :: u in p && u != 0 ==> p[u] == ExpectedPred()[u]
    ensures p == ExpectedPred()
  {
    assert p.Keys == ExpectedPred().Keys;
  }

  /** The only tree of shortest paths of the built-in graph from vertex 0. */
  lemma DefaultTree(d: map<int, Dist>, p: map<int, Option<int>>)
    requires ShortestPathTree(DefaultVertices(), DefaultEdges(), 0, d, p)
    ensures d == ExpectedDist() && p == ExpectedPred()
  {
    DefaultIds();
    DefaultDistances(d);
    DefaultPreds(d, p);
  }

  /** The vertex list `customVertices || [...]` (lines 97-105). */
  function VerticesOr(customVertices: Option<seq<Vertex>>): seq<Vertex>
  {
    if customVertices.Some? then customVertices.value else DefaultVertices()
  }

  /** The edge list `customEdges || [...]` (lines 107-120). */
  function EdgesOr(customEdges: Option<seq<Edge>>): seq<Edge>
  {
    if customEdges.Some? then customEdges.value else DefaultEdges()
  }

  /** Lines 96-121: `generateSteps(customVertices?, customEdges?, startNode = 0)`
      with the built-in vertices and edges standing in for a missing
      argument. Run on the built-in graph from vertex 0, the last Step holds
      the distances 0, 2, 1, 11, 5, 9, 10 for vertices 0 to 6. */
  method GenerateStepsOr(customVertices: Option<seq<Vertex>>, customEdges: Option<seq<Edge>>, startNode: int)
    returns (steps: seq<Step>)
    requires GraphOk(VerticesOr(customVertices), EdgesOr(customEdges))
    ensures |steps| == |VerticesOr(customVertices)| + 1
    ensures steps[0].vertices == VerticesOr(customVertices) && steps[0].edges == EdgesOr(customEdges)
    ensures ShortestPathTree(VerticesOr(customVertices), EdgesOr(customEdges), startNode,
                             steps[|steps| - 1].distTo, steps[|steps| - 1].edgeTo)
    ensures customVertices == None && customEdges == None && startNode == 0 ==>
      |steps| == 8 && steps[7].distTo == ExpectedDist() && steps[7].edgeTo == ExpectedPred()
  {
    steps := GenerateSteps(VerticesOr(customVertices), EdgesOr(customEdges), startNode);
    if customVertices == None && customEdges == None && startNode == 0 {
      DefaultTree(steps[7].distTo, steps[7].edgeTo);
    }
  }
}
