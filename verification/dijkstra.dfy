/** The trace generator (dijkstra-algorithm.ts, generateSteps): Dijkstra's
    single-source search that records one immutable Step before the search
    and one after each vertex it takes off the fringe. */
module Dijkstra {
  import opened Types
  import opened Heap
  import opened Paths
  import opened Search

  /** The vertex list of the next Step: `v` becomes processed, every other
      flag and every other field is copied. */
  function MarkProcessed(vs: seq<Vertex>, v: int): (r: seq<Vertex>)
    ensures |r| == |vs|
    ensures forall i :: 0 <= i < |vs| ==>
      && (r[i].processed <==> vs[i].processed || vs[i].id == v)
      && r[i].(processed := vs[i].processed) == vs[i]
  {
    seq(|vs|, i requires 0 <= i < |vs| => vs[i].(processed := if vs[i].id == v then true else vs[i].processed))
  }

  /** The edge list of the next Step: exactly the edges leaving `v` are
      active, every other field is copied. */
  function ActivateFrom(es: seq<Edge>, v: int): (r: seq<Edge>)
    ensures |r| == |es|
    ensures forall i :: 0 <= i < |es| ==>
      && (r[i].active <==> es[i].from == v)
      && r[i].(active := es[i].active) == es[i]
  {
    seq(|es|, i requires 0 <= i < |es| => es[i].(active := es[i].from == v))
  }

  /** Every fringe entry of a Step carries its vertex's current `distTo`. */
  ghost predicate FringeMatches(s: Step)
  {
    forall e :: e in s.fringe ==> e.id in s.distTo && s.distTo[e.id] == e.key
  }

  /** How `distTo`/`edgeTo` may change while `v` is processed: no distance
      grows, and an `edgeTo` entry changes, always to `v`, exactly when
      that vertex's distance strictly shrinks. */
  ghost predicate Progress(d0: map<int, Dist>, p0: map<int, Option<int>>,
                           d: map<int, Dist>, p: map<int, Option<int>>, v: int)
  {
    && d.Keys == d0.Keys && p.Keys == p0.Keys
    && (forall u :: u in d0 ==> Le(d[u], d0[u]))
    && (forall u :: u in p0 && p[u] != p0[u] ==> p[u] == Some(v))
    && (forall u :: u in p0 && u in d0 ==> (p[u] != p0[u] <==> Less(d[u], d0[u])))
  }

  /** `v` is a vertex of minimal distance in `fringe`: its entry is there
      with its current distance, and no entry has a smaller key. */
  ghost predicate TakenMin(fringe: seq<Entry>, dist: map<int, Dist>, v: int)
  {
    && v in dist && Entry(v, dist[v]) in fringe
    && forall e :: e in fringe ==> Le(dist[v], e.key)
  }

  /** What relaxing the edges out of `v` does to the distances `d0`,
      giving `d`: `v`'s own distance stays; a distance that changes is
      `d0[v]` plus the weight of an edge from `v` to that vertex; and
      afterwards no edge out of `v` offers a shorter distance. */
  ghost predicate RelaxedFrom(es: seq<Edge>, d0: map<int, Dist>, d: map<int, Dist>, v: int)
  {
    && v in d0 && v in d && d[v] == d0[v]
    && (forall u :: u in d0 && u in d && d[u] != d0[u] ==>
          exists e :: e in es && e.from == v && e.to == u && d[u] == Add(d0[v], e.weight))
    && (forall e :: e in es && e.from == v && e.to in d ==> Le(d[e.to], Add(d[v], e.weight)))
  }

  /** Two consecutive Steps: `b` records the processing of its current
      vertex `v` after `a`. `v` had a minimal key in `a`'s fringe, and
      `b`'s distances are `a`'s with the edges out of `v` relaxed. */
  ghost predicate NextStep(es: seq<Edge>, a: Step, b: Step)
  {
    && b.currentVertex.Some?
    && b.vertices == MarkProcessed(a.vertices, b.currentVertex.value)
    && b.edges == ActivateFrom(es, b.currentVertex.value)
    && Progress(a.distTo, a.edgeTo, b.distTo, b.edgeTo, b.currentVertex.value)
    && TakenMin(a.fringe, a.distTo, b.currentVertex.value)
    && RelaxedFrom(es, a.distTo, b.distTo, b.currentVertex.value)
  }

  /** What the recorded Steps say so far: the first Step, one Step per
      processed vertex in `order`, each pair of neighbours related by
      NextStep and every fringe in agreement with its `distTo`. */
  ghost predicate TraceSoFar(es: seq<Edge>, steps: seq<Step>, order: seq<int>, first: Step)
  {
    && |steps| == |order| + 1 && steps[0] == first
    && (forall k :: 0 <= k < |order| ==> steps[k + 1].currentVertex == Some(order[k]))
    && (forall k :: 0 <= k < |steps| ==> FringeMatches(steps[k]))
    && (forall i, j :: 0 <= i && j == i + 1 && j < |steps| ==> NextStep(es, steps[i], steps[j]))
  }

  lemma TraceAppend(es: seq<Edge>, steps: seq<Step>, order: seq<int>, first: Step, s: Step, v: int)
    requires TraceSoFar(es, steps, order, first)
    requires FringeMatches(s) && s.currentVertex == Some(v) && NextStep(es, steps[|steps| - 1], s)
    ensures TraceSoFar(es, steps + [s], order + [v], first)
  {
  }

  /** The entry taken off the fringe belongs to an unprocessed vertex of
      minimal distance, and its key is that vertex's current distance. */
  lemma Extracted(vs: seq<Vertex>, done: set<int>, dist: map<int, Dist>, before: seq<Entry>, m: Entry)
    requires multiset(before) == FringeOf(vs, done, dist) && m in before
    requires forall e :: e in before ==> Le(m.key, e.key)
    ensures m.id in Ids(vs) && m.id !in done && m.id in dist && m.key == dist[m.id]
    ensures forall w :: w in Ids(vs) && w !in done && w in dist ==> Le(dist[m.id], dist[w])
  {
    assert m in multiset(before);
    FringeMember(vs, done, dist, m);
    forall w | w in Ids(vs) && w !in done && w in dist
      ensures Le(dist[m.id], dist[w])
    {
      FringeHas(vs, done, dist, w);
      assert Entry(w, dist[w]) in multiset(before);
    }
  }

  /** Lines 126-129: `distTo` is 0 at the start and `Inf` elsewhere, and
      `edgeTo` is "none" (-1) everywhere. */
  method InitDistances(vertices: seq<Vertex>, startNode: int)
    returns (distTo: map<int, Dist>, edgeTo: map<int, Option<int>>)
    ensures distTo.Keys == Ids(vertices) && edgeTo.Keys == Ids(vertices)
    ensures forall u :: u in distTo ==> distTo[u] == if u == startNode then Fin(0) else Inf
    ensures forall u :: u in edgeTo ==> edgeTo[u] == None
  {
    distTo, edgeTo := map[], map[];
    for i := 0 to |vertices|
      invariant distTo.Keys == Ids(vertices[..i]) && edgeTo.Keys == Ids(vertices[..i])
      invariant forall u :: u in distTo ==> distTo[u] == if u == startNode then Fin(0) else Inf
      invariant forall u :: u in edgeTo ==> edgeTo[u] == None
    {
      var v := vertices[i];
      distTo := distTo[v.id := if v.id == startNode then Fin(0) else Inf];
      edgeTo := edgeTo[v.id := None];
      assert vertices[..i + 1][..i] == vertices[..i];
      IdsSnoc(vertices[..i + 1]);
    }
    assert vertices[..|vertices|] == vertices;
  }

  /** Lines 132-136: a fresh fringe holding every vertex with its initial distance. */
  method InitFringe(vertices: seq<Vertex>, startNode: int, ghost distTo: map<int, Dist>)
    returns (fringe: MinHeap)
    requires distTo.Keys == Ids(vertices)
    requires forall u :: u in distTo ==> distTo[u] == if u == startNode then Fin(0) else Inf
    ensures fresh(fringe) && fringe.Valid()
    ensures multiset(fringe.heap) == FringeOf(vertices, {}, distTo)
  {
    fringe := new MinHeap();
    for i := 0 to |vertices|
      invariant fringe.Valid()
      invariant multiset(fringe.heap) == FringeOf(vertices[..i], {}, distTo)
    {
      var vertex := vertices[i];
      var distance := if vertex.id == startNode then Fin(0) else Inf;
      assert vertices[..i + 1][..i] == vertices[..i];
      assert vertex.id in Ids(vertices);
      fringe.Insert(Entry(vertex.id, distance));
    }
    assert vertices[..|vertices|] == vertices;
  }

  /** Lines 163-172: relaxes every edge leaving the vertex `v` just taken
      off the fringe, lowering `distTo`, `edgeTo` and the fringe key of
      each target that gets strictly closer. */
  method RelaxEdgesFrom(vertices: seq<Vertex>, edges: seq<Edge>, startNode: int, v: int, fringe: MinHeap,
                        distTo: map<int, Dist>, edgeTo: map<int, Option<int>>,
                        ghost done: set<int>, ghost paths: map<int, seq<Edge>>, ghost via: map<int, nat>)
    returns (newDistTo: map<int, Dist>, newEdgeTo: map<int, Option<int>>,
             ghost newPaths: map<int, seq<Edge>>, ghost newVia: map<int, nat>)
    requires GraphOk(vertices, edges) && fringe.Valid()
    requires Core(vertices, edges, startNode, done, distTo, edgeTo, paths, via)
    requires RelaxedUpTo(edges, done, distTo, v, 0)
    requires v in done && forall u :: u in done ==> Le(distTo[u], distTo[v])
    requires multiset(fringe.heap) == FringeOf(vertices, done, distTo)
    requires forall u :: u in edgeTo ==> edgeTo[u] != Some(v)
    modifies fringe
    ensures fringe.Valid() && |fringe.heap| == old(|fringe.heap|)
    ensures Core(vertices, edges, startNode, done, newDistTo, newEdgeTo, newPaths, newVia)
    ensures Relaxed(edges, done, newDistTo)
    ensures multiset(fringe.heap) == FringeOf(vertices, done, newDistTo)
    ensures Progress(distTo, edgeTo, newDistTo, newEdgeTo, v)
    ensures PredsKept(done, edgeTo, newEdgeTo)
    ensures newDistTo[v] == distTo[v] && forall u :: u in done ==> Le(newDistTo[u], newDistTo[v])
  {
    newDistTo, newEdgeTo, newPaths, newVia := distTo, edgeTo, paths, via;
    for j := 0 to |edges|
      invariant fringe.Valid() && |fringe.heap| == old(|fringe.heap|)
      invariant Core(vertices, edges, startNode, done, newDistTo, newEdgeTo, newPaths, newVia)
      invariant RelaxedUpTo(edges, done, newDistTo, v, j)
      invariant forall u :: u in done ==> Le(newDistTo[u], newDistTo[v])
      invariant multiset(fringe.heap) == FringeOf(vertices, done, newDistTo)
      invariant Progress(distTo, edgeTo, newDistTo, newEdgeTo, v)
      invariant PredsKept(done, edgeTo, newEdgeTo)
      invariant newDistTo[v] == distTo[v]
    {
      var e := edges[j];
      assert e in edges;
      if e.from == v && Less(Add(newDistTo[v], e.weight), if e.to in newDistTo then newDistTo[e.to] else Inf) {
        var newDist := Add(newDistTo[v], e.weight);
        Improve(vertices, edges, startNode, done, newDistTo, newEdgeTo, newPaths, newVia, v, j);
        ProgressStep(distTo, edgeTo, newDistTo, newEdgeTo, v, e.to, newDist);
        KeptStep(done, edgeTo, newEdgeTo, e.to, Some(v));
        LowerKey(vertices, done, newDistTo, fringe, e.to, newDist);
        newDistTo := newDistTo[e.to := newDist];
        newEdgeTo := newEdgeTo[e.to := Some(v)];
        newPaths := newPaths[e.to := newPaths[v] + [e]];
        newVia := newVia[e.to := j];
      } else {
        RelaxSkip(edges, done, newDistTo, v, j);
      }
    }
  }

  /** Lines 169-170: the fringe entry of `t` gets the smaller key `x`. */
  method LowerKey(vertices: seq<Vertex>, ghost done: set<int>, ghost dist: map<int, Dist>,
                  fringe: MinHeap, t: int, x: Dist)
    requires fringe.Valid() && DistinctIds(vertices)
    requires t in dist && t in Ids(vertices) && t !in done && Le(x, dist[t])
    requires multiset(fringe.heap) == FringeOf(vertices, done, dist)
    modifies fringe
    ensures fringe.Valid() && |fringe.heap| == old(|fringe.heap|)
    ensures multiset(fringe.heap) == FringeOf(vertices, done, dist[t := x])
  {
    FringeKeys(vertices, done, dist, fringe.heap, t, x);
    ghost var h := fringe.heap;
    fringe.UpdateKey(t, x);
    FringeAfterUpdate(vertices, done, dist, h, fringe.heap, t, x);
  }

  /** An edge that is not relaxed (it leaves another vertex, or gives no
      improvement) keeps every earlier edge relaxed. */
  lemma RelaxSkip(es: seq<Edge>, done: set<int>, dist: map<int, Dist>, v: int, j: nat)
    requires RelaxedUpTo(es, done, dist, v, j) && j < |es| && v in dist
    requires es[j].from == v && es[j].to in dist ==> !Less(Add(dist[v], es[j].weight), dist[es[j].to])
    ensures RelaxedUpTo(es, done, dist, v, j + 1)
  {
  }

  /** Every fringe entry of `t` carries `dist[t]`, so a smaller key may replace it. */
  lemma FringeKeys(vs: seq<Vertex>, done: set<int>, dist: map<int, Dist>, h: seq<Entry>, t: int, x: Dist)
    requires multiset(h) == FringeOf(vs, done, dist) && t in dist && Le(x, dist[t])
    requires t in Ids(vs) && t !in done
    ensures Entry(t, dist[t]) in h
    ensures forall e :: e in h && e.id == t ==> Le(x, e.key)
  {
    FringeHas(vs, done, dist, t);
    assert Entry(t, dist[t]) in multiset(h);
    forall e | e in h && e.id == t
      ensures Le(x, e.key)
    {
      assert e in multiset(h);
      FringeMember(vs, done, dist, e);
    }
  }

  /** Replacing the entry of `t` by `(t, x)` gives the fringe for the lowered distance. */
  lemma FringeAfterUpdate(vs: seq<Vertex>, done: set<int>, dist: map<int, Dist>,
                          h: seq<Entry>, h2: seq<Entry>, t: int, x: Dist)
    requires DistinctIds(vs) && t in dist && t in Ids(vs) && t !in done
    requires multiset(h) == FringeOf(vs, done, dist)
    requires exists k :: 0 <= k < |h| && h[k].id == t && multiset(h2) == multiset(h[k := Entry(t, x)])
    ensures multiset(h2) == FringeOf(vs, done, dist[t := x])
  {
    var k :| 0 <= k < |h| && h[k].id == t && multiset(h2) == multiset(h[k := Entry(t, x)]);
    assert h[k] in multiset(h);
    FringeMember(vs, done, dist, h[k]);
    FringeUpdate(vs, done, dist, t, x);
  }

  /** Lowering the distance of `t` and pointing its `edgeTo` at `v` keeps
      Progress, provided `t`'s original `edgeTo` was not already `v`. */
  lemma ProgressStep(d0: map<int, Dist>, p0: map<int, Option<int>>,
                     d: map<int, Dist>, p: map<int, Option<int>>, v: int, t: int, x: Dist)
    requires Progress(d0, p0, d, p, v) && t in d && t in p && Less(x, d[t])
    requires forall u :: u in p0 ==> p0[u] != Some(v)
    ensures Progress(d0, p0, d[t := x], p[t := Some(v)], v)
  {
  }

  /** Changing the `edgeTo` entry of a vertex outside `done` keeps those of `done`. */
  lemma KeptStep(done: set<int>, p0: map<int, Option<int>>, p: map<int, Option<int>>, t: int, x: Option<int>)
    requires PredsKept(done, p0, p) && t !in done
    ensures PredsKept(done, p0, p[t := x])
  {
  }

  /** The vertex taken off the fringe, of minimal distance among the
      unprocessed ones, has a minimal key in the fringe it was taken from. */
  lemma MinInFringe(vs: seq<Vertex>, done: set<int>, dist: map<int, Dist>, f: seq<Entry>, v: int)
    requires dist.Keys == Ids(vs) && multiset(f) == FringeOf(vs, done, dist)
    requires v in Ids(vs) && v !in done
    requires forall w :: w in Ids(vs) && w !in done ==> Le(dist[v], dist[w])
    ensures TakenMin(f, dist, v)
  {
    FringeHas(vs, done, dist, v);
    assert Entry(v, dist[v]) in multiset(f);
    forall e | e in f
      ensures Le(dist[v], e.key)
    {
      assert e in multiset(f);
      FringeMember(vs, done, dist, e);
    }
  }

  /** A distance that changed while `v` was processed came through an edge
      out of `v`: the invariant backs its new `edgeTo` hop, which is `v`. */
  lemma ChangedByEdge(vs: seq<Vertex>, es: seq<Edge>, start: int, done: set<int>,
                      d0: map<int, Dist>, p0: map<int, Option<int>>, d: map<int, Dist>, p: map<int, Option<int>>,
                      paths: map<int, seq<Edge>>, via: map<int, nat>, v: int)
    requires Core(vs, es, start, done, d, p, paths, via) && Progress(d0, p0, d, p, v)
    requires v in d0 && v in d && d[v] == d0[v]
    ensures forall u :: u in d0 && u in d && d[u] != d0[u] ==>
      exists e :: e in es && e.from == v && e.to == u && d[u] == Add(d0[v], e.weight)
  {
    forall u | u in d0 && u in d && d[u] != d0[u]
      ensures exists e :: e in es && e.from == v && e.to == u && d[u] == Add(d0[v], e.weight)
    {
      LessOrder(d[u], d0[u], d0[u]);
      assert p[u] == Some(v);
      assert LinkOk(es, start, done, d, via, u, v);
      assert es[via[u]] in es;
    }
  }

  /** After relaxing, no edge out of `v` offers a shorter distance: edges
      to unprocessed vertices are relaxed, and a processed target is no
      farther than `v` itself. */
  lemma RelaxedOut(vs: seq<Vertex>, es: seq<Edge>, done: set<int>, d: map<int, Dist>, v: int)
    requires GraphOk(vs, es) && Relaxed(es, done, d)
    requires v in done && done <= d.Keys
    requires forall u :: u in done ==> Le(d[u], d[v])
    ensures forall e :: e in es && e.from == v && e.to in d ==> Le(d[e.to], Add(d[v], e.weight))
  {
    forall e | e in es && e.from == v && e.to in d
      ensures Le(d[e.to], Add(d[v], e.weight))
    {
      var j :| 0 <= j < |es| && es[j] == e;
      if e.to in done {
        AddMonotone(d[v], d[v], e.weight);
        LeTrans(d[e.to], d[v], Add(d[v], e.weight));
      }
    }
  }

  /** Line 148: takes an entry of minimal key off a non-empty fringe. It
      belongs to an unprocessed vertex of minimal distance and carries that
      vertex's current distance. */
  method TakeMin(vertices: seq<Vertex>, fringe: MinHeap, ghost done: set<int>, ghost distTo: map<int, Dist>)
    returns (v: int, dist: Dist)
    requires fringe.Valid() && |fringe.heap| > 0 && DistinctIds(vertices)
    requires multiset(fringe.heap) == FringeOf(vertices, done, distTo)
    modifies fringe
    ensures fringe.Valid() && |fringe.heap| == old(|fringe.heap|) - 1
    ensures v in Ids(vertices) && v !in done && v in distTo && dist == distTo[v] && !Less(distTo[v], dist)
    ensures forall w :: w in Ids(vertices) && w !in done && w in distTo ==> Le(distTo[v], distTo[w])
    ensures multiset(fringe.heap) == FringeOf(vertices, done + {v}, distTo)
  {
    ghost var before := fringe.heap;
    var min := fringe.ExtractMin();
    v := min.value.id;
    dist := min.value.key;
    Extracted(vertices, done, distTo, before, min.value);
    FringeRemove(vertices, done, distTo, v);
  }

  /** The Step recorded before the search: no current vertex, the graph as
      given, distance 0 at the start and `Inf` elsewhere, no predecessors,
      and one fringe entry per vertex. */
  ghost predicate InitialStep(vs: seq<Vertex>, es: seq<Edge>, start: int, s: Step)
  {
    && s.currentVertex == None
    && s.vertices == vs && s.edges == es
    && s.distTo.Keys == Ids(vs) && s.edgeTo.Keys == Ids(vs)
    && (forall u :: u in Ids(vs) ==>
          && s.distTo[u] == (if u == start then Fin(0) else Inf)
          && s.edgeTo[u] == None)
    && |s.fringe| == |vs|
    && (forall u :: u in Ids(vs) ==> multiset(s.fringe)[Entry(u, s.distTo[u])] == 1)
  }

  /** Lines 123-145: initialises `distTo`, `edgeTo` and the fringe, and
      records the first Step. */
  method Start(vertices: seq<Vertex>, edges: seq<Edge>, startNode: int)
    returns (distTo: map<int, Dist>, edgeTo: map<int, Option<int>>, fringe: MinHeap, initial: Step)
    requires DistinctIds(vertices)
    ensures fresh(fringe) && fringe.Valid()
    ensures InitialStep(vertices, edges, startNode, initial) && FringeMatches(initial)
    ensures initial.distTo == distTo && initial.edgeTo == edgeTo
    ensures multiset(fringe.heap) == FringeOf(vertices, {}, distTo)
    ensures multiset(initial.fringe) == FringeOf(vertices, {}, distTo)
    ensures Core(vertices, edges, startNode, {}, distTo, edgeTo, map[startNode := []], map[])
    ensures Relaxed(edges, {}, distTo)
  {
    distTo, edgeTo := InitDistances(vertices, startNode);
    fringe := InitFringe(vertices, startNode, distTo);
    var copy := fringe.Copy();
    var initialFringe := copy.ToArray();
    initial := Step(vertices, edges, initialFringe, None, distTo, edgeTo);
    FringeSize(vertices, distTo);
    forall u | u in Ids(vertices)
      ensures multiset(initialFringe)[Entry(u, distTo[u])] == 1
    {
      FringeOnce(vertices, {}, distTo, u);
    }
    forall e | e in initialFringe
      ensures e.id in distTo && distTo[e.id] == e.key
    {
      FringeMember(vertices, {}, distTo, e);
    }
    Initial(vertices, edges, startNode, distTo, edgeTo);
  }

  /** Lines 153-179: processes the vertex `v` just taken off the fringe and
      records the Step that follows `prev`. */
  method Visit(vertices: seq<Vertex>, edges: seq<Edge>, startNode: int, v: int, fringe: MinHeap, prev: Step,
               distTo: map<int, Dist>, edgeTo: map<int, Option<int>>,
               ghost done: set<int>, ghost paths: map<int, seq<Edge>>, ghost via: map<int, nat>)
    returns (step: Step, newDistTo: map<int, Dist>, newEdgeTo: map<int, Option<int>>,
             ghost newPaths: map<int, seq<Edge>>, ghost newVia: map<int, nat>)
    requires GraphOk(vertices, edges) && fringe.Valid()
    requires Core(vertices, edges, startNode, done, distTo, edgeTo, paths, via) && Relaxed(edges, done, distTo)
    requires v in Ids(vertices) && v !in done
    requires forall w :: w in Ids(vertices) && w !in done ==> Le(distTo[v], distTo[w])
    requires multiset(fringe.heap) == FringeOf(vertices, done + {v}, distTo)
    requires prev.distTo == distTo && prev.edgeTo == edgeTo
    requires multiset(prev.fringe) == FringeOf(vertices, done, distTo)
    modifies fringe
    ensures fringe.Valid() && |fringe.heap| == old(|fringe.heap|)
    ensures Core(vertices, edges, startNode, done + {v}, newDistTo, newEdgeTo, newPaths, newVia)
    ensures Relaxed(edges, done + {v}, newDistTo)
    ensures multiset(fringe.heap) == FringeOf(vertices, done + {v}, newDistTo)
    ensures step.currentVertex == Some(v) && FringeMatches(step) && NextStep(edges, prev, step)
    ensures step.distTo == newDistTo && step.edgeTo == newEdgeTo
    ensures multiset(step.fringe) == FringeOf(vertices, done + {v}, newDistTo)
    ensures PredsKept(done + {v}, edgeTo, newEdgeTo)
  {
    var currentVertices := MarkProcessed(prev.vertices, v);
    var currentEdges := ActivateFrom(edges, v);
    assert forall u :: u in edgeTo ==> edgeTo[u] != Some(v);
    Settle(vertices, edges, startNode, done, distTo, edgeTo, paths, via, v);
    newDistTo, newEdgeTo, newPaths, newVia :=
      RelaxEdgesFrom(vertices, edges, startNode, v, fringe, distTo, edgeTo, done + {v}, paths, via);
    MinInFringe(vertices, done, distTo, prev.fringe, v);
    ChangedByEdge(vertices, edges, startNode, done + {v}, distTo, edgeTo, newDistTo, newEdgeTo, newPaths, newVia, v);
    RelaxedOut(vertices, edges, done + {v}, newDistTo, v);
    var copy := fringe.Copy();
    var snapshot := copy.ToArray();
    forall x | x in snapshot
      ensures x.id in newDistTo && newDistTo[x.id] == x.key
    {
      FringeMember(vertices, done + {v}, newDistTo, x);
    }
    step := Step(currentVertices, currentEdges, snapshot, Some(v), newDistTo, newEdgeTo);
  }

  /** Runs the search from `startNode` and returns its trace. The start
      id is not checked: when no vertex has it, every distance stays `Inf`. */
  method GenerateSteps(vertices: seq<Vertex>, edges: seq<Edge>, startNode: int) returns (steps: seq<Step>)
    requires GraphOk(vertices, edges)
    ensures |steps| == |vertices| + 1
    ensures InitialStep(vertices, edges, startNode, steps[0])
    // every Step, and every pair of consecutive Steps
    ensures forall k :: 0 <= k < |steps| ==> FringeMatches(steps[k])
    ensures forall i, j :: 0 <= i && j == i + 1 && j < |steps| ==> NextStep(edges, steps[i], steps[j])
    // each vertex is the current vertex of exactly one Step
    ensures forall k :: 1 <= k < |steps| ==>
      steps[k].currentVertex.Some? && steps[k].currentVertex.value in Ids(vertices)
    ensures forall i, j :: 1 <= i < j < |steps| ==> steps[i].currentVertex != steps[j].currentVertex
    ensures forall u :: u in Ids(vertices) ==> exists k :: 1 <= k < |steps| && steps[k].currentVertex == Some(u)
    // each fringe holds one entry per vertex not yet processed, keyed by that Step's distance
    ensures forall k :: 0 <= k < |steps| ==>
      multiset(steps[k].fringe) == FringeOf(vertices, Visited(steps, k), steps[k].distTo)
    // every final edgeTo hop comes from a vertex processed earlier
    ensures forall k, u ::
      (1 <= k < |steps| && steps[k].currentVertex == Some(u)
       && u in steps[|steps| - 1].edgeTo && steps[|steps| - 1].edgeTo[u].Some?) ==>
        exists k' :: 1 <= k' < k && steps[k'].currentVertex == steps[|steps| - 1].edgeTo[u]
    // the last Step holds the shortest-path distances and predecessors
    ensures ShortestPathTree(vertices, edges, startNode, steps[|steps| - 1].distTo, steps[|steps| - 1].edgeTo)
  {
    var distTo, edgeTo, fringe, initial := Start(vertices, edges, startNode);
    ghost var order, paths, via, rank;
    steps, distTo, edgeTo, order, paths, via, rank :=
      Explore(vertices, edges, startNode, fringe, distTo, edgeTo, initial);
    TraceComplete(vertices, edges, steps, order, initial, Ids(vertices));
    VisitedIsOrder(vertices, edges, steps, order, initial);
    HopsBackward(edges, steps, order, initial, rank);
    Finish(vertices, edges, startNode, distTo, edgeTo, paths, via, rank);
  }

  /** Lines 147-183: the main loop. Takes entries off the fringe until it is
      empty, visiting each vertex once and recording a Step per visit. */
  method Explore(vertices: seq<Vertex>, edges: seq<Edge>, startNode: int, fringe: MinHeap,
                 distTo0: map<int, Dist>, edgeTo0: map<int, Option<int>>, initial: Step)
    returns (steps: seq<Step>, distTo: map<int, Dist>, edgeTo: map<int, Option<int>>,
             ghost order: seq<int>, ghost paths: map<int, seq<Edge>>, ghost via: map<int, nat>,
             ghost rank: map<int, nat>)
    requires GraphOk(vertices, edges) && fringe.Valid()
    requires multiset(fringe.heap) == FringeOf(vertices, {}, distTo0)
    requires multiset(initial.fringe) == FringeOf(vertices, {}, distTo0)
    requires Core(vertices, edges, startNode, {}, distTo0, edgeTo0, map[startNode := []], map[])
    requires Relaxed(edges, {}, distTo0)
    requires FringeMatches(initial) && initial.distTo == distTo0 && initial.edgeTo == edgeTo0
    modifies fringe
    ensures TraceSoFar(edges, steps, order, initial) && Enumerates(order, Ids(vertices))
    ensures steps[|steps| - 1].distTo == distTo && steps[|steps| - 1].edgeTo == edgeTo
    ensures Core(vertices, edges, startNode, Ids(vertices), distTo, edgeTo, paths, via)
    ensures FringesSoFar(vertices, steps, order)
    ensures Ranks(order, rank) && rank.Keys == Ids(vertices) && PredsEarlier(edgeTo, rank)
  {
    steps, distTo, edgeTo := [initial], distTo0, edgeTo0;
    ghost var done: set<int> := {};
    order, paths, via, rank := [], map[startNode := []], map[], map[];
    assert Elems(order[..0]) == {};
    assert Recorded(vertices, edges, initial, steps, order, rank, done, distTo, edgeTo);

    var empty := fringe.IsEmpty();
    while !empty
      invariant fringe.Valid() && (empty <==> |fringe.heap| == 0)
      invariant Core(vertices, edges, startNode, done, distTo, edgeTo, paths, via)
      invariant Relaxed(edges, done, distTo)
      invariant multiset(fringe.heap) == FringeOf(vertices, done, distTo)
      invariant Recorded(vertices, edges, initial, steps, order, rank, done, distTo, edgeTo)
      decreases |fringe.heap|
    {
      steps, distTo, edgeTo, done, order, paths, via, rank :=
        Round(vertices, edges, startNode, fringe, initial, steps, distTo, edgeTo, done, order, paths, via, rank);
      empty := fringe.IsEmpty();
    }

    AllDone(vertices, done, distTo);
  }

  /** Lines 148-182: one round of the main loop. Takes an entry off the
      fringe and, unless it is stale, processes its vertex and records the
      Step that follows. */
  method Round(vertices: seq<Vertex>, edges: seq<Edge>, startNode: int, fringe: MinHeap, initial: Step,
               steps: seq<Step>, distTo: map<int, Dist>, edgeTo: map<int, Option<int>>,
               ghost done: set<int>, ghost order: seq<int>, ghost paths: map<int, seq<Edge>>,
               ghost via: map<int, nat>, ghost rank: map<int, nat>)
    returns (nextSteps: seq<Step>, nextDistTo: map<int, Dist>, nextEdgeTo: map<int, Option<int>>,
             ghost nextDone: set<int>, ghost nextOrder: seq<int>, ghost nextPaths: map<int, seq<Edge>>,
             ghost nextVia: map<int, nat>, ghost nextRank: map<int, nat>)
    requires GraphOk(vertices, edges) && fringe.Valid() && |fringe.heap| > 0
    requires Core(vertices, edges, startNode, done, distTo, edgeTo, paths, via)
    requires Relaxed(edges, done, distTo)
    requires multiset(fringe.heap) == FringeOf(vertices, done, distTo)
    requires Recorded(vertices, edges, initial, steps, order, rank, done, distTo, edgeTo)
    modifies fringe
    ensures fringe.Valid() && |fringe.heap| < old(|fringe.heap|)
    ensures Core(vertices, edges, startNode, nextDone, nextDistTo, nextEdgeTo, nextPaths, nextVia)
    ensures Relaxed(edges, nextDone, nextDistTo)
    ensures multiset(fringe.heap) == FringeOf(vertices, nextDone, nextDistTo)
    ensures Recorded(vertices, edges, initial, nextSteps, nextOrder, nextRank, nextDone, nextDistTo, nextEdgeTo)
  {
    var v, dist := TakeMin(vertices, fringe, done, distTo);
    // the stale-entry skip: the entry's key is always the current distance
    if !Less(distTo[v], dist) {
      LinkedFromDone(vertices, edges, startNode, done, distTo, edgeTo, paths, via, v);
      LastFringe(vertices, edges, initial, steps, order, rank, done, distTo, edgeTo);
      var step;
      step, nextDistTo, nextEdgeTo, nextPaths, nextVia :=
        Visit(vertices, edges, startNode, v, fringe, steps[|steps| - 1], distTo, edgeTo, done, paths, via);
      RecordVisit(vertices, edges, initial, steps, order, rank, done, distTo, edgeTo, step, v);
      nextSteps, nextDone, nextOrder, nextRank := steps + [step], done + {v}, order + [v], rank[v := |order|];
    } else {
      assert false;
    }
  }

  /** `order` lists the elements of `done`, each once. */
  ghost predicate Enumerates(order: seq<int>, done: set<int>)
  {
    && |done| == |order|
    && (forall u :: u in done <==> u in order)
    && (forall i, j :: 0 <= i < j < |order| ==> order[i] != order[j])
  }

  lemma EnumeratesAppend(order: seq<int>, done: set<int>, v: int)
    requires Enumerates(order, done) && v !in done
    ensures Enumerates(order + [v], done + {v})
  {
  }

  /** Once the fringe is empty, every vertex is processed. */
  lemma AllDone(vs: seq<Vertex>, done: set<int>, dist: map<int, Dist>)
    requires dist.Keys == Ids(vs) && done <= Ids(vs)
    requires FringeOf(vs, done, dist) == multiset{}
    ensures done == Ids(vs)
  {
    forall u | u in Ids(vs)
      ensures u in done
    {
      if u !in done {
        FringeHas(vs, done, dist, u);
      }
    }
  }

  /** A trace that processed every vertex has one Step per vertex after the
      first, and each vertex is the current vertex of exactly one of them. */
  lemma TraceComplete(vs: seq<Vertex>, es: seq<Edge>, steps: seq<Step>, order: seq<int>, first: Step, done: set<int>)
    requires DistinctIds(vs) && TraceSoFar(es, steps, order, first)
    requires Enumerates(order, done) && done == Ids(vs)
    ensures |steps| == |vs| + 1
    ensures forall k :: 1 <= k < |steps| ==>
      steps[k].currentVertex.Some? && steps[k].currentVertex.value in Ids(vs)
    ensures forall i, j :: 1 <= i < j < |steps| ==> steps[i].currentVertex != steps[j].currentVertex
    ensures forall u :: u in Ids(vs) ==> exists k :: 1 <= k < |steps| && steps[k].currentVertex == Some(u)
  {
    DistinctIdsCount(vs);
    forall k | 1 <= k < |steps|
      ensures steps[k].currentVertex.Some? && steps[k].currentVertex.value in Ids(vs)
    {
      assert steps[k].currentVertex == Some(order[k - 1]);
      assert order[k - 1] in order;
    }
    forall u | u in Ids(vs)
      ensures exists k :: 1 <= k < |steps| && steps[k].currentVertex == Some(u)
    {
      var i :| 0 <= i < |order| && order[i] == u;
      assert steps[i + 1].currentVertex == Some(order[i]);
    }
    forall i, j | 1 <= i < j < |steps|
      ensures steps[i].currentVertex != steps[j].currentVertex
    {
      assert steps[i].currentVertex == Some(order[i - 1]);
      assert steps[j].currentVertex == Some(order[j - 1]);
    }
  }
  // ---------------------------------------------------------------------
  // The processing order behind the trace

  /** What the main loop has recorded after processing the vertices of
      `done`, in the order `order`: the trace so far and its fringes, the
      ranks of the processed vertices, and `edgeTo` hops that go backward
      in rank. The last Step holds the current maps. */
  ghost predicate Recorded(vs: seq<Vertex>, es: seq<Edge>, first: Step, steps: seq<Step>, order: seq<int>,
                           rank: map<int, nat>, done: set<int>,
                           distTo: map<int, Dist>, edgeTo: map<int, Option<int>>)
  {
    && TraceSoFar(es, steps, order, first)
    && FringesSoFar(vs, steps, order)
    && steps[|steps| - 1].distTo == distTo && steps[|steps| - 1].edgeTo == edgeTo
    && Enumerates(order, done)
    && Ranks(order, rank) && rank.Keys == done && PredsEarlier(edgeTo, rank)
  }

  /** The last recorded fringe holds the vertices not yet processed. */
  lemma LastFringe(vs: seq<Vertex>, es: seq<Edge>, first: Step, steps: seq<Step>, order: seq<int>,
                   rank: map<int, nat>, done: set<int>,
                   distTo: map<int, Dist>, edgeTo: map<int, Option<int>>)
    requires Recorded(vs, es, first, steps, order, rank, done, distTo, edgeTo)
    ensures multiset(steps[|steps| - 1].fringe) == FringeOf(vs, done, distTo)
  {
    assert order[..|steps| - 1] == order;
    ElemsOf(order, done);
  }

  /** Recording the Step of a visit to `v` keeps the loop's record. */
  lemma RecordVisit(vs: seq<Vertex>, es: seq<Edge>, first: Step, steps: seq<Step>, order: seq<int>,
                    rank: map<int, nat>, done: set<int>,
                    distTo: map<int, Dist>, edgeTo: map<int, Option<int>>, step: Step, v: int)
    requires Recorded(vs, es, first, steps, order, rank, done, distTo, edgeTo) && v !in done
    requires v in edgeTo && edgeTo[v].Some? ==> edgeTo[v].value in done
    requires step.currentVertex == Some(v) && FringeMatches(step) && NextStep(es, steps[|steps| - 1], step)
    requires multiset(step.fringe) == FringeOf(vs, done + {v}, step.distTo)
    requires PredsKept(done + {v}, edgeTo, step.edgeTo)
    ensures Recorded(vs, es, first, steps + [step], order + [v], rank[v := |order|], done + {v},
                     step.distTo, step.edgeTo)
  {
    EnumeratesAppend(order, done, v);
    RankAppend(order, rank, done, edgeTo, step.edgeTo, v);
    FringesAppend(vs, steps, order, done + {v}, step, v);
    TraceAppend(es, steps, order, first, step, v);
  }

  /** The elements of `s`, as a set. */
  ghost function Elems(s: seq<int>): set<int>
  {
    set x | x in s
  }

  lemma ElemsOf(order: seq<int>, done: set<int>)
    requires Enumerates(order, done)
    ensures Elems(order) == done
  {
    forall x
      ensures x in Elems(order) <==> x in done
    {
    }
  }

  /** Every recorded fringe holds, as a multiset, one entry per vertex not
      processed by then, keyed by that Step's distance. */
  ghost predicate FringesSoFar(vs: seq<Vertex>, steps: seq<Step>, order: seq<int>)
  {
    && |steps| == |order| + 1
    && forall k :: 0 <= k < |steps| ==>
         multiset(steps[k].fringe) == FringeOf(vs, Elems(order[..k]), steps[k].distTo)
  }

  lemma FringesAppend(vs: seq<Vertex>, steps: seq<Step>, order: seq<int>, done: set<int>, s: Step, v: int)
    requires FringesSoFar(vs, steps, order) && Enumerates(order + [v], done)
    requires multiset(s.fringe) == FringeOf(vs, done, s.distTo)
    ensures FringesSoFar(vs, steps + [s], order + [v])
  {
    forall k | 0 <= k < |steps| + 1
      ensures multiset((steps + [s])[k].fringe)
              == FringeOf(vs, Elems((order + [v])[..k]), (steps + [s])[k].distTo)
    {
      if k < |steps| {
        assert (order + [v])[..k] == order[..k];
      } else {
        assert (order + [v])[..k] == order + [v];
        ElemsOf(order + [v], done);
      }
    }
  }

  /** `rank` gives each vertex of `order` its position there. */
  ghost predicate Ranks(order: seq<int>, rank: map<int, nat>)
  {
    && (forall i :: 0 <= i < |order| ==> order[i] in rank && rank[order[i]] == i)
    && (forall u :: u in rank ==> rank[u] < |order| && order[rank[u]] == u)
  }

  /** The `edgeTo` entries of the vertices in `done` are as they were. */
  ghost predicate PredsKept(done: set<int>, p0: map<int, Option<int>>, p: map<int, Option<int>>)
  {
    forall u :: u in done ==> (u in p <==> u in p0) && (u in p0 ==> p[u] == p0[u])
  }

  /** Processing `v`, whose `edgeTo` hop (if any) comes from a processed
      vertex, gives it the next rank and keeps every hop backward in rank. */
  lemma RankAppend(order: seq<int>, rank: map<int, nat>, done: set<int>,
                   p0: map<int, Option<int>>, p: map<int, Option<int>>, v: int)
    requires Ranks(order, rank) && rank.Keys == done && v !in done
    requires PredsEarlier(p0, rank)
    requires v in p0 && p0[v].Some? ==> p0[v].value in done
    requires PredsKept(done + {v}, p0, p)
    ensures Ranks(order + [v], rank[v := |order|]) && rank[v := |order|].Keys == done + {v}
    ensures PredsEarlier(p, rank[v := |order|])
  {
    var r := rank[v := |order|];
    forall u | u in r && u in p && p[u].Some?
      ensures p[u].value in r && r[p[u].value] < r[u]
    {
      assert u in p0 && p[u] == p0[u];
      var w := p0[u].value;
      if u == v {
        assert w in rank && rank[w] < |order|;
      } else {
        assert w in rank && rank[w] < rank[u] && w != v;
      }
    }
  }

  /** The Step after `k` initial ones has processed the current vertices of Steps 1 to `k`. */
  ghost function Visited(steps: seq<Step>, k: nat): set<int>
    requires k < |steps|
  {
    set i | 1 <= i <= k && steps[i].currentVertex.Some? :: steps[i].currentVertex.value
  }

  lemma VisitedIsOrder(vs: seq<Vertex>, es: seq<Edge>, steps: seq<Step>, order: seq<int>, first: Step)
    requires TraceSoFar(es, steps, order, first) && FringesSoFar(vs, steps, order)
    ensures forall k :: 0 <= k < |steps| ==>
      multiset(steps[k].fringe) == FringeOf(vs, Visited(steps, k), steps[k].distTo)
  {
    forall k | 0 <= k < |steps|
      ensures Visited(steps, k) == Elems(order[..k])
    {
      forall x | x in Visited(steps, k)
        ensures x in Elems(order[..k])
      {
        var i :| 1 <= i <= k && steps[i].currentVertex.Some? && steps[i].currentVertex.value == x;
        assert steps[i].currentVertex == Some(order[i - 1]);
        assert order[..k][i - 1] == x;
      }
      forall x | x in Elems(order[..k])
        ensures x in Visited(steps, k)
      {
        var j :| 0 <= j < k && order[..k][j] == x;
        assert steps[j + 1].currentVertex == Some(order[j]);
      }
    }
  }

  /** In the finished trace, the vertex an `edgeTo` hop comes from is the
      current vertex of an earlier Step than the hop's target. */
  lemma HopsBackward(es: seq<Edge>, steps: seq<Step>, order: seq<int>, first: Step, rank: map<int, nat>)
    requires TraceSoFar(es, steps, order, first)
    requires Ranks(order, rank) && PredsEarlier(steps[|steps| - 1].edgeTo, rank)
    ensures forall k, u ::
      (1 <= k < |steps| && steps[k].currentVertex == Some(u)
       && u in steps[|steps| - 1].edgeTo && steps[|steps| - 1].edgeTo[u].Some?) ==>
        exists k' :: 1 <= k' < k && steps[k'].currentVertex == steps[|steps| - 1].edgeTo[u]
  {
    var last := steps[|steps| - 1].edgeTo;
    forall k, u | 1 <= k < |steps| && steps[k].currentVertex == Some(u) && u in last && last[u].Some?
      ensures exists k' :: 1 <= k' < k && steps[k'].currentVertex == last[u]
    {
      assert steps[k].currentVertex == Some(order[k - 1]);
      var w := last[u].value;
      assert steps[rank[w] + 1].currentVertex == Some(order[rank[w]]);
    }
  }
}
