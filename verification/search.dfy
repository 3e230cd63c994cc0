/** The state of one run of the search (`distTo`, `edgeTo`, the fringe)
    and the invariants that make its result the shortest-path distances. */
module Search {
  import opened Types
  import opened Paths

  lemma IdsSnoc(vs: seq<Vertex>)
    requires |vs| > 0
    ensures Ids(vs) == Ids(vs[..|vs| - 1]) + {vs[|vs| - 1].id}
  {
    assert vs == vs[..|vs| - 1] + [vs[|vs| - 1]];
  }

  /** With distinct ids, a vertex list has as many ids as vertices. */
  lemma {:induction false} DistinctIdsCount(vs: seq<Vertex>)
    requires DistinctIds(vs)
    ensures |Ids(vs)| == |vs|
  {
    if |vs| > 0 {
      var pre := vs[..|vs| - 1];
      IdsSnoc(vs);
      DistinctIdsCount(pre);
      assert vs[|vs| - 1].id !in Ids(pre);
    }
  }

  // ---------------------------------------------------------------------
  // The fringe the search should hold

  /** One entry `(u, dist[u])` for every vertex `u` of `vs` not yet in `done`. */
  ghost function FringeOf(vs: seq<Vertex>, done: set<int>, dist: map<int, Dist>): multiset<Entry>
    decreases |vs|
  {
    if |vs| == 0 then multiset{}
    else
      var v := vs[|vs| - 1];
      FringeOf(vs[..|vs| - 1], done, dist)
        + (if v.id in done || v.id !in dist then multiset{} else multiset{Entry(v.id, dist[v.id])})
  }

  /** Every fringe entry belongs to an unprocessed vertex and carries its distance. */
  lemma {:induction false} FringeMember(vs: seq<Vertex>, done: set<int>, dist: map<int, Dist>, e: Entry)
    requires e in FringeOf(vs, done, dist)
    ensures e.id in Ids(vs) && e.id !in done && e.id in dist && e.key == dist[e.id]
    decreases |vs|
  {
    var pre := vs[..|vs| - 1];
    IdsSnoc(vs);
    if e in FringeOf(pre, done, dist) {
      FringeMember(pre, done, dist, e);
    }
  }

  /** Every unprocessed vertex has its entry in the fringe. */
  lemma {:induction false} FringeHas(vs: seq<Vertex>, done: set<int>, dist: map<int, Dist>, u: int)
    requires u in Ids(vs) && u !in done && u in dist
    ensures Entry(u, dist[u]) in FringeOf(vs, done, dist)
    decreases |vs|
  {
    var pre := vs[..|vs| - 1];
    IdsSnoc(vs);
    if u != vs[|vs| - 1].id {
      FringeHas(pre, done, dist, u);
    }
  }

  /** With distinct ids, each unprocessed vertex has exactly one entry. */
  lemma {:induction false} FringeOnce(vs: seq<Vertex>, done: set<int>, dist: map<int, Dist>, u: int)
    requires DistinctIds(vs) && u in Ids(vs) && u !in done && u in dist
    ensures FringeOf(vs, done, dist)[Entry(u, dist[u])] == 1
    decreases |vs|
  {
    var pre := vs[..|vs| - 1];
    IdsSnoc(vs);
    if u == vs[|vs| - 1].id {
      if Entry(u, dist[u]) in FringeOf(pre, done, dist) {
        FringeMember(pre, done, dist, Entry(u, dist[u]));
        assert false;
      }
    } else {
      FringeOnce(pre, done, dist, u);
    }
  }

  /** When nothing is processed and every vertex has a distance, the fringe
      has one entry per vertex. */
  lemma {:induction false} FringeSize(vs: seq<Vertex>, dist: map<int, Dist>)
    requires Ids(vs) <= dist.Keys
    ensures |FringeOf(vs, {}, dist)| == |vs|
    decreases |vs|
  {
    if |vs| > 0 {
      IdsSnoc(vs);
      FringeSize(vs[..|vs| - 1], dist);
    }
  }

  /** The fringe depends on `dist` only at the vertices' ids. */
  lemma {:induction false} FringeFrame(vs: seq<Vertex>, done: set<int>, d1: map<int, Dist>, d2: map<int, Dist>)
    requires forall u :: u in Ids(vs) ==> (u in d1 <==> u in d2) && (u in d1 ==> d1[u] == d2[u])
    ensures FringeOf(vs, done, d1) == FringeOf(vs, done, d2)
    decreases |vs|
  {
    if |vs| > 0 {
      IdsSnoc(vs);
      FringeFrame(vs[..|vs| - 1], done, d1, d2);
    }
  }

  /** Processing `v` takes exactly its entry out of the fringe. */
  lemma {:induction false} FringeRemove(vs: seq<Vertex>, done: set<int>, dist: map<int, Dist>, v: int)
    requires DistinctIds(vs) && v in dist
    ensures FringeOf(vs, done + {v}, dist) == FringeOf(vs, done, dist) - multiset{Entry(v, dist[v])}
    decreases |vs|
  {
    if |vs| > 0 {
      var pre := vs[..|vs| - 1];
      var w := vs[|vs| - 1];
      var x := Entry(v, dist[v]);
      IdsSnoc(vs);
      FringeRemove(pre, done, dist, v);
      if x in FringeOf(pre, done, dist) {
        FringeMember(pre, done, dist, x);
        assert w.id != v;
      }
    }
  }

  /** Lowering the distance of an unprocessed `t` to `x` replaces its entry. */
  lemma {:induction false} FringeUpdate(vs: seq<Vertex>, done: set<int>, dist: map<int, Dist>, t: int, x: Dist)
    requires DistinctIds(vs) && t in dist && t in Ids(vs) && t !in done
    ensures FringeOf(vs, done, dist[t := x])
         == FringeOf(vs, done, dist) - multiset{Entry(t, dist[t])} + multiset{Entry(t, x)}
    decreases |vs|
  {
    var pre := vs[..|vs| - 1];
    var w := vs[|vs| - 1];
    IdsSnoc(vs);
    var o := Entry(t, dist[t]);
    var n := Entry(t, x);
    if w.id == t {
      assert t !in Ids(pre);
      FringeFrame(pre, done, dist[t := x], dist);
      SwapBack(FringeOf(pre, done, dist), o, n);
    } else {
      FringeUpdate(pre, done, dist, t, x);
      FringeHas(pre, done, dist, t);
      var rest := if w.id in done || w.id !in dist then multiset{} else multiset{Entry(w.id, dist[w.id])};
      SwapInside(FringeOf(pre, done, dist), rest, o, n);
    }
  }

  lemma SwapBack(a: multiset<Entry>, o: Entry, n: Entry)
    ensures a + multiset{n} == a + multiset{o} - multiset{o} + multiset{n}
  {
  }

  lemma SwapInside(a: multiset<Entry>, r: multiset<Entry>, o: Entry, n: Entry)
    requires o in a
    ensures a - multiset{o} + multiset{n} + r == a + r - multiset{o} + multiset{n}
  {
  }

  // ---------------------------------------------------------------------
  // The loop invariant of the search

  /** `edgeTo[u] == Some(w)` is backed by edge number `via[u]`, from an
      already processed `w`, which gives `u` its current distance. */
  ghost predicate LinkOk(es: seq<Edge>, start: int, done: set<int>, dist: map<int, Dist>,
                         via: map<int, nat>, u: int, w: int)
  {
    && u != start && w in done && w in dist && u in dist
    && u in via && via[u] < |es|
    && es[via[u]].from == w && es[via[u]].to == u
    && dist[u].Fin? && dist[u] == Add(dist[w], es[via[u]].weight)
  }

  /** Every finite distance is the weight of some path, recorded in `paths`. */
  ghost predicate Witnessed(es: seq<Edge>, start: int, dist: map<int, Dist>, paths: map<int, seq<Edge>>)
  {
    forall u :: u in dist && dist[u].Fin? ==>
      && dist[u].n >= 0 && u in paths
      && IsPath(es, paths[u], start, u) && Weight(paths[u]) == dist[u].n
  }

  /** Processed vertices have their final distance: no path to them is shorter. */
  ghost predicate Settled(es: seq<Edge>, start: int, done: set<int>, dist: map<int, Dist>)
  {
    forall u, p :: u in done && u in dist && IsPath(es, p, start, u) ==> Le(dist[u], Fin(Weight(p)))
  }

  /** Processed vertices are no farther than unprocessed ones. */
  ghost predicate Below(done: set<int>, dist: map<int, Dist>)
  {
    forall u, w :: u in done && u in dist && w in dist && w !in done ==> Le(dist[u], dist[w])
  }

  /** `edgeTo` is `None` only at `start` and at unreached vertices, and
      every other entry is backed by an edge. */
  ghost predicate Linked(es: seq<Edge>, start: int, done: set<int>, dist: map<int, Dist>,
                         pred: map<int, Option<int>>, via: map<int, nat>)
  {
    forall u :: u in pred && u in dist ==>
      && (pred[u].None? ==> u == start || dist[u] == Inf)
      && (pred[u].Some? ==> LinkOk(es, start, done, dist, via, u, pred[u].value))
  }

  /** The invariant of the search after the vertices in `done` were
      processed. `paths` and `via` are proof-only witnesses: a path of
      weight `dist[u]` for every finite `u`, and the edge behind each
      `edgeTo` entry. */
  ghost predicate Core(vs: seq<Vertex>, es: seq<Edge>, start: int, done: set<int>,
                       dist: map<int, Dist>, pred: map<int, Option<int>>,
                       paths: map<int, seq<Edge>>, via: map<int, nat>)
  {
    && dist.Keys == Ids(vs) && pred.Keys == Ids(vs) && done <= Ids(vs)
    && (start in dist ==> dist[start] == Fin(0))
    && Witnessed(es, start, dist, paths)
    && Settled(es, start, done, dist)
    && Below(done, dist)
    && Linked(es, start, done, dist, pred, via)
  }

  /** Every edge out of a processed vertex has been relaxed, except edges
      out of `v` from index `upto` on. */
  ghost predicate RelaxedUpTo(es: seq<Edge>, done: set<int>, dist: map<int, Dist>, v: int, upto: int)
  {
    forall j ::
      && 0 <= j < |es| && es[j].from in done && es[j].to !in done
      && es[j].from in dist && es[j].to in dist && (es[j].from == v ==> j < upto)
      ==> Le(dist[es[j].to], Add(dist[es[j].from], es[j].weight))
  }

  /** Every edge out of a processed vertex has been relaxed. */
  ghost predicate Relaxed(es: seq<Edge>, done: set<int>, dist: map<int, Dist>)
  {
    forall j ::
      && 0 <= j < |es| && es[j].from in done && es[j].to !in done
      && es[j].from in dist && es[j].to in dist
      ==> Le(dist[es[j].to], Add(dist[es[j].from], es[j].weight))
  }

  /** Every edge of `p` is the `edgeTo` hop into its own target. */
  ghost predicate FollowsEdgeTo(edgeTo: map<int, Option<int>>, p: seq<Edge>)
  {
    forall i :: 0 <= i < |p| ==> p[i].to in edgeTo && edgeTo[p[i].to] == Some(p[i].from)
  }

  /** The result the search promises: `distTo` holds shortest-path
      distances from `start`, and `edgeTo` the last hop of such a path
      (`None` exactly for `start` and the unreachable vertices). Following
      `edgeTo` back from a reachable vertex leads to `start` along a path
      that weighs its distance, so the hops form a tree rooted at `start`. */
  ghost predicate ShortestPathTree(vs: seq<Vertex>, es: seq<Edge>, start: int,
                                   distTo: map<int, Dist>, edgeTo: map<int, Option<int>>)
  {
    && distTo.Keys == Ids(vs) && edgeTo.Keys == Ids(vs)
    && (forall u :: u in Ids(vs) ==> IsShortest(es, start, u, distTo[u]))
    && (forall u :: u in Ids(vs) ==> (edgeTo[u] == None <==> u == start || distTo[u] == Inf))
    && (forall u :: u in Ids(vs) && edgeTo[u].Some? ==>
          edgeTo[u].value in distTo &&
          exists e :: e in es && e.from == edgeTo[u].value && e.to == u
                   && distTo[u] == Add(distTo[edgeTo[u].value], e.weight))
    && (forall u :: u in Ids(vs) && distTo[u].Fin? ==>
          exists p :: IsPath(es, p, start, u) && Weight(p) == distTo[u].n && FollowsEdgeTo(edgeTo, p))
  }

  /** Each ranked vertex with an `edgeTo` hop was ranked after the vertex
      the hop comes from; the search ranks vertices in processing order. */
  ghost predicate PredsEarlier(pred: map<int, Option<int>>, rank: map<int, nat>)
  {
    forall u :: u in rank && u in pred && pred[u].Some? ==>
      pred[u].value in rank && rank[pred[u].value] < rank[u]
  }

  // ---------------------------------------------------------------------
  // Preservation

  /** The state right after initialisation satisfies the invariant. */
  lemma Initial(vs: seq<Vertex>, es: seq<Edge>, start: int,
                dist: map<int, Dist>, pred: map<int, Option<int>>)
    requires dist.Keys == Ids(vs) && pred.Keys == Ids(vs)
    requires forall u :: u in dist ==> dist[u] == if u == start then Fin(0) else Inf
    requires forall u :: u in pred ==> pred[u] == None
    ensures Core(vs, es, start, {}, dist, pred, map[start := []], map[]) && Relaxed(es, {}, dist)
  {
  }

  /** Any path from `start` to a vertex that is not yet processed passes
      an unprocessed vertex whose distance is at most the path's weight. */
  lemma {:induction false} CrossesFringe(vs: seq<Vertex>, es: seq<Edge>, start: int, done: set<int>,
                                         dist: map<int, Dist>, pred: map<int, Option<int>>,
                                         paths: map<int, seq<Edge>>, via: map<int, nat>,
                                         p: seq<Edge>, t: int)
    requires GraphOk(vs, es) && Core(vs, es, start, done, dist, pred, paths, via) && Relaxed(es, done, dist)
    requires IsPath(es, p, start, t) && t in Ids(vs)
    ensures t in done || exists y :: y in Ids(vs) && y !in done && Le(dist[y], Fin(Weight(p)))
    decreases |p|
  {
    if |p| == 0 {
      if t !in done {
        assert Le(dist[t], Fin(Weight(p)));
      }
    } else {
      var e := p[|p| - 1];
      var q := p[..|p| - 1];
      var x := e.from;
      assert x in Ids(vs) && e.weight >= 0;
      CrossesFringe(vs, es, start, done, dist, pred, paths, via, q, x);
      if exists y :: y in Ids(vs) && y !in done && Le(dist[y], Fin(Weight(q))) {
        var y :| y in Ids(vs) && y !in done && Le(dist[y], Fin(Weight(q)));
        assert Le(dist[y], Fin(Weight(p)));
      } else if t !in done {
        var j :| 0 <= j < |es| && es[j] == e;
        assert Le(dist[x], Fin(Weight(q)));
        assert Le(dist[t], Fin(Weight(p)));
      }
    }
  }

  /** Taking a vertex of minimal distance off the fringe settles it: its
      distance is final, and no other processed vertex is farther. */
  lemma Settle(vs: seq<Vertex>, es: seq<Edge>, start: int, done: set<int>,
               dist: map<int, Dist>, pred: map<int, Option<int>>,
               paths: map<int, seq<Edge>>, via: map<int, nat>, v: int)
    requires GraphOk(vs, es) && Core(vs, es, start, done, dist, pred, paths, via) && Relaxed(es, done, dist)
    requires v in Ids(vs) && v !in done
    requires forall w :: w in Ids(vs) && w !in done ==> Le(dist[v], dist[w])
    ensures Core(vs, es, start, done + {v}, dist, pred, paths, via)
    ensures RelaxedUpTo(es, done + {v}, dist, v, 0)
    ensures forall u :: u in done + {v} ==> Le(dist[u], dist[v])
  {
    forall p | IsPath(es, p, start, v)
      ensures Le(dist[v], Fin(Weight(p)))
    {
      CrossesFringe(vs, es, start, done, dist, pred, paths, via, p, v);
      var y :| y in Ids(vs) && y !in done && Le(dist[y], Fin(Weight(p)));
    }
    SettleSettled(es, start, done, dist, v);
    SettleBelow(done, dist, v);
    SettleLinked(es, start, done, dist, pred, via, v);
    SettleRelaxed(es, done, dist, v);
  }

  lemma SettleSettled(es: seq<Edge>, start: int, done: set<int>, dist: map<int, Dist>, v: int)
    requires Settled(es, start, done, dist)
    requires v in dist && forall p :: IsPath(es, p, start, v) ==> Le(dist[v], Fin(Weight(p)))
    ensures Settled(es, start, done + {v}, dist)
  {
  }

  lemma SettleBelow(done: set<int>, dist: map<int, Dist>, v: int)
    requires Below(done, dist) && v in dist && v !in done
    requires forall w :: w in dist && w !in done ==> Le(dist[v], dist[w])
    ensures Below(done + {v}, dist)
    ensures forall u :: u in done + {v} && u in dist ==> Le(dist[u], dist[v])
  {
  }

  lemma SettleLinked(es: seq<Edge>, start: int, done: set<int>, dist: map<int, Dist>,
                     pred: map<int, Option<int>>, via: map<int, nat>, v: int)
    requires Linked(es, start, done, dist, pred, via)
    ensures Linked(es, start, done + {v}, dist, pred, via)
  {
    forall u | u in pred && u in dist && pred[u].Some?
      ensures LinkOk(es, start, done + {v}, dist, via, u, pred[u].value)
    {
      assert LinkOk(es, start, done, dist, via, u, pred[u].value);
    }
  }

  lemma SettleRelaxed(es: seq<Edge>, done: set<int>, dist: map<int, Dist>, v: int)
    requires Relaxed(es, done, dist)
    ensures RelaxedUpTo(es, done + {v}, dist, v, 0)
  {
  }

  /** Relaxing edge `j` out of the vertex `v` being processed, when it
      gives its target a strictly smaller distance, keeps the invariant. */
  lemma Improve(vs: seq<Vertex>, es: seq<Edge>, start: int, done: set<int>,
                dist: map<int, Dist>, pred: map<int, Option<int>>,
                paths: map<int, seq<Edge>>, via: map<int, nat>, v: int, j: nat)
    requires GraphOk(vs, es) && Core(vs, es, start, done, dist, pred, paths, via)
    requires RelaxedUpTo(es, done, dist, v, j)
    requires v in done && forall u :: u in done ==> Le(dist[u], dist[v])
    requires j < |es| && es[j].from == v && Less(Add(dist[v], es[j].weight), dist[es[j].to])
    ensures es[j].to !in done && es[j].to != start && v in paths
    ensures
      var t := es[j].to;
      var dist' := dist[t := Add(dist[v], es[j].weight)];
      && Core(vs, es, start, done, dist', pred[t := Some(v)], paths[t := paths[v] + [es[j]]], via[t := j])
      && RelaxedUpTo(es, done, dist', v, j + 1)
      && (forall u :: u in done ==> Le(dist'[u], dist'[v]))
  {
    var e := es[j];
    var t := e.to;
    var nd := Add(dist[v], e.weight);
    assert e in es;
    var dist' := dist[t := nd];
    assert t !in done;
    assert t != start;
    assert dist'.Keys == dist.Keys;
    ImproveWitnessed(es, start, dist, paths, v, e);
    ImproveSettled(es, start, done, dist, t, nd);
    ImproveBelow(done, dist, v, t, nd);
    ImproveLinked(es, start, done, dist, pred, via, v, j);
    ImproveRelaxed(es, done, dist, v, j);
  }

  lemma ImproveWitnessed(es: seq<Edge>, start: int, dist: map<int, Dist>, paths: map<int, seq<Edge>>,
                         v: int, e: Edge)
    requires Witnessed(es, start, dist, paths) && e in es && e.weight >= 0
    requires v in dist && e.from == v && e.to in dist && Less(Add(dist[v], e.weight), dist[e.to])
    ensures v in paths
    ensures Witnessed(es, start, dist[e.to := Add(dist[v], e.weight)], paths[e.to := paths[v] + [e]])
  {
    PathExtend(es, paths[v], start, e);
  }

  lemma ImproveSettled(es: seq<Edge>, start: int, done: set<int>, dist: map<int, Dist>, t: int, nd: Dist)
    requires Settled(es, start, done, dist) && t !in done
    ensures Settled(es, start, done, dist[t := nd])
  {
  }

  lemma ImproveBelow(done: set<int>, dist: map<int, Dist>, v: int, t: int, nd: Dist)
    requires Below(done, dist) && v in done && v in dist && t in dist && t !in done
    requires forall u :: u in done && u in dist ==> Le(dist[u], dist[v])
    requires Le(dist[v], nd)
    ensures Below(done, dist[t := nd])
    ensures forall u :: u in done && u in dist ==> Le(dist[t := nd][u], dist[t := nd][v])
  {
  }

  lemma ImproveLinked(es: seq<Edge>, start: int, done: set<int>, dist: map<int, Dist>,
                      pred: map<int, Option<int>>, via: map<int, nat>, v: int, j: nat)
    requires Linked(es, start, done, dist, pred, via)
    requires j < |es| && es[j].from == v && v in done && v in dist && es[j].to in dist
    requires es[j].to !in done && es[j].to != start
    requires Less(Add(dist[v], es[j].weight), dist[es[j].to])
    ensures Linked(es, start, done, dist[es[j].to := Add(dist[v], es[j].weight)],
                   pred[es[j].to := Some(v)], via[es[j].to := j])
  {
    var t := es[j].to;
    var dist' := dist[t := Add(dist[v], es[j].weight)];
    var pred' := pred[t := Some(v)];
    var via' := via[t := j];
    forall u | u in pred' && u in dist'
      ensures (pred'[u].None? ==> u == start || dist'[u] == Inf)
      ensures (pred'[u].Some? ==> LinkOk(es, start, done, dist', via', u, pred'[u].value))
    {
      if u != t {
        assert u in pred && u in dist;
        if pred[u].Some? {
          assert LinkOk(es, start, done, dist, via, u, pred[u].value);
        }
      }
    }
  }

  lemma ImproveRelaxed(es: seq<Edge>, done: set<int>, dist: map<int, Dist>, v: int, j: nat)
    requires RelaxedUpTo(es, done, dist, v, j)
    requires j < |es| && es[j].from == v && v in dist && es[j].to in dist && es[j].to !in done
    requires Less(Add(dist[v], es[j].weight), dist[es[j].to])
    ensures RelaxedUpTo(es, done, dist[es[j].to := Add(dist[v], es[j].weight)], v, j + 1)
  {
  }

  /** At the end every vertex is processed and the invariant is the promised result. */
  lemma Finish(vs: seq<Vertex>, es: seq<Edge>, start: int,
               dist: map<int, Dist>, pred: map<int, Option<int>>,
               paths: map<int, seq<Edge>>, via: map<int, nat>, rank: map<int, nat>)
    requires Core(vs, es, start, Ids(vs), dist, pred, paths, via)
    requires PredsEarlier(pred, rank) && Ids(vs) <= rank.Keys
    ensures ShortestPathTree(vs, es, start, dist, pred)
  {
    forall u | u in Ids(vs) && dist[u].Fin?
      ensures exists p :: IsPath(es, p, start, u) && Weight(p) == dist[u].n && FollowsEdgeTo(pred, p)
    {
      var p := EdgeToChain(vs, es, start, dist, pred, paths, via, rank, u);
    }
    forall u | u in Ids(vs) && pred[u].Some?
      ensures exists e :: e in es && e.from == pred[u].value && e.to == u
                        && dist[u] == Add(dist[pred[u].value], e.weight)
    {
      assert es[via[u]] in es;
    }
    forall u | u in Ids(vs)
      ensures IsShortest(es, start, u, dist[u])
    {
      if dist[u].Fin? {
        assert IsPath(es, paths[u], start, u);
      }
    }
  }

  /** A set of vertices, `start` not among them, whose `edgeTo` hops all
      stay inside the set cannot be entered from `start` along `edgeTo`. */
  lemma {:induction false} CycleAvoidsStart(es: seq<Edge>, pred: map<int, Option<int>>, start: int,
                                            c: set<int>, p: seq<Edge>, u: int)
    requires start !in c && u in c
    requires forall x :: x in c ==> x in pred && pred[x].Some? && pred[x].value in c
    ensures !(IsPath(es, p, start, u) && FollowsEdgeTo(pred, p))
    decreases |p|
  {
    if IsPath(es, p, start, u) && FollowsEdgeTo(pred, p) {
      var q, e := p[..|p| - 1], p[|p| - 1];
      assert pred[e.to] == Some(e.from);
      forall i | 0 <= i < |q|
        ensures q[i].to in pred && pred[q[i].to] == Some(q[i].from)
      {
        assert q[i] == p[i];
      }
      CycleAvoidsStart(es, pred, start, c, q, e.from);
    }
  }

  /** In a shortest-path tree, `edgeTo` hops that go round without
      reaching `start` only join unreachable vertices. */
  lemma TreeHasNoCycle(vs: seq<Vertex>, es: seq<Edge>, start: int,
                       distTo: map<int, Dist>, edgeTo: map<int, Option<int>>, c: set<int>)
    requires ShortestPathTree(vs, es, start, distTo, edgeTo)
    requires c <= Ids(vs) && start !in c
    requires forall x :: x in c ==> x in edgeTo && edgeTo[x].Some? && edgeTo[x].value in c
    ensures forall u :: u in c ==> distTo[u] == Inf
  {
    forall u | u in c
      ensures distTo[u] == Inf
    {
      if distTo[u].Fin? {
        var p :| IsPath(es, p, start, u) && Weight(p) == distTo[u].n && FollowsEdgeTo(edgeTo, p);
        CycleAvoidsStart(es, edgeTo, start, c, p, u);
      }
    }
  }

  /** The `edgeTo` hop into a vertex, when there is one, comes from a processed vertex. */
  lemma LinkedFromDone(vs: seq<Vertex>, es: seq<Edge>, start: int, done: set<int>,
                       dist: map<int, Dist>, pred: map<int, Option<int>>,
                       paths: map<int, seq<Edge>>, via: map<int, nat>, u: int)
    requires Core(vs, es, start, done, dist, pred, paths, via)
    ensures u in pred && pred[u].Some? ==> pred[u].value in done
  {
    if u in pred && pred[u].Some? {
      assert LinkOk(es, start, done, dist, via, u, pred[u].value);
    }
  }

  /** Walking `edgeTo` back from a reachable vertex, one hop at a time,
      gives a path from `start` that weighs the vertex's distance. The walk
      ends because each hop leads to a vertex of smaller rank. */
  lemma {:induction false} EdgeToChain(vs: seq<Vertex>, es: seq<Edge>, start: int,
                                       dist: map<int, Dist>, pred: map<int, Option<int>>,
                                       paths: map<int, seq<Edge>>, via: map<int, nat>,
                                       rank: map<int, nat>, u: int)
    returns (p: seq<Edge>)
    requires Core(vs, es, start, Ids(vs), dist, pred, paths, via)
    requires PredsEarlier(pred, rank) && Ids(vs) <= rank.Keys
    requires u in Ids(vs) && dist[u].Fin?
    ensures IsPath(es, p, start, u) && Weight(p) == dist[u].n && FollowsEdgeTo(pred, p)
    decreases rank[u]
  {
    if pred[u].None? {
      p := [];
    } else {
      var w := pred[u].value;
      assert LinkOk(es, start, Ids(vs), dist, via, u, w);
      var e := es[via[u]];
      assert e in es;
      var q := EdgeToChain(vs, es, start, dist, pred, paths, via, rank, w);
      PathExtend(es, q, start, e);
      p := q + [e];
      forall i | 0 <= i < |p|
        ensures p[i].to in pred && pred[p[i].to] == Some(p[i].from)
      {
        if i < |q| {
          assert p[i] == q[i];
        }
      }
    }
  }
}
