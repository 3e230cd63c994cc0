/** Paths through the edge list and what "shortest" means for them; the
    reference against which the search is proved. */
module Paths {
  import opened Types

  /** `p` is a chain of edges of `es` leading from `s` to `t`; the empty
      chain leads from a vertex to itself. */
  ghost predicate IsPath(es: seq<Edge>, p: seq<Edge>, s: int, t: int)
    decreases |p|
  {
    if |p| == 0 then s == t
    else
      && p[|p| - 1] in es
      && p[|p| - 1].to == t
      && IsPath(es, p[..|p| - 1], s, p[|p| - 1].from)
  }

  /** The summed weight of a chain of edges. */
  function Weight(p: seq<Edge>): int
  {
    if |p| == 0 then 0 else Weight(p[..|p| - 1]) + p[|p| - 1].weight
  }

  /** `d` is the shortest-path distance from `s` to `t`: no path is shorter,
      a finite `d` is the weight of some path, and `Inf` means no path. */
  ghost predicate IsShortest(es: seq<Edge>, s: int, t: int, d: Dist)
  {
    && (forall p :: IsPath(es, p, s, t) ==> Le(d, Fin(Weight(p))))
    && (d.Fin? ==> exists p :: IsPath(es, p, s, t) && Weight(p) == d.n)
  }

  /** Following one more edge extends a path and adds its weight. */
  lemma PathExtend(es: seq<Edge>, p: seq<Edge>, s: int, e: Edge)
    requires IsPath(es, p, s, e.from) && e in es
    ensures IsPath(es, p + [e], s, e.to)
    ensures Weight(p + [e]) == Weight(p) + e.weight
  {
    assert (p + [e])[..|p|] == p;
  }

  /** A potential that no edge can lower by more than its weight bounds
      every path's weight from below: a path from `s` to `t` weighs at least
      `pot[t] - pot[s]`. */
  lemma {:induction false} PotentialBound(es: seq<Edge>, pot: map<int, int>, p: seq<Edge>, s: int, t: int)
    requires forall e :: e in es ==> e.from in pot && e.to in pot && pot[e.to] <= pot[e.from] + e.weight
    requires s in pot && IsPath(es, p, s, t)
    ensures t in pot && Weight(p) >= pot[t] - pot[s]
    decreases |p|
  {
    if |p| > 0 {
      PotentialBound(es, pot, p[..|p| - 1], s, p[|p| - 1].from);
    }
  }
}
