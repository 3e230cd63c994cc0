/** Shared shapes of the graph, the search state and the recorded trace
    (types.ts and components/types.ts). */
module Types {

  datatype Option<+T> = None | Some(value: T)

  /** A tentative distance: JavaScript's `Infinity` sentinel or a finite number.
      Distances are sums of integer edge weights. */
  datatype Dist = Inf | Fin(n: int)

  /** The strict `<` of JavaScript numbers, restricted to integers and
      `Infinity`: nothing is below itself and nothing lies above `Infinity`. */
  predicate Less(a: Dist, b: Dist)
  {
    match (a, b)
    case (Fin(x), Fin(y)) => x < y
    case (Fin(_), Inf) => true
    case (Inf, _) => false
  }

  /** `a <= b`, i.e. not `b < a`. */
  predicate Le(a: Dist, b: Dist)
  {
    !Less(b, a)
  }

  /** `a + w` on JavaScript numbers: `Infinity + w` stays `Infinity`, and
      a finite sum stays finite. */
  function Add(a: Dist, w: int): Dist
  {
    match a
    case Inf => Inf
    case Fin(x) => Fin(x + w)
  }

  /** `Less` is a strict total order with `Infinity` on top: irreflexive,
      comparable both ways, transitive, and every finite distance is below
      `Infinity`. */
  lemma LessOrder(a: Dist, b: Dist, c: Dist)
    ensures !Less(a, a) && !Less(Inf, a)
    ensures a.Fin? ==> Less(a, Inf)
    ensures Less(a, b) || a == b || Less(b, a)
    ensures Less(a, b) && Less(b, c) ==> Less(a, c)
  {
  }

  /** A sum is `Infinity` exactly when its distance is; adding a weight
      keeps the order of two distances, and a weight that is not negative
      never makes a distance smaller. */
  lemma AddMonotone(a: Dist, b: Dist, w: int)
    ensures Add(a, w) == Inf <==> a == Inf
    ensures Le(a, b) ==> Le(Add(a, w), Add(b, w))
    ensures w >= 0 ==> Le(a, Add(a, w))
  {
  }

  /** A vertex. `x` and `y` are screen coordinates, opaque to every
      operation of the model; `distance` is carried along but never read. */
  datatype Vertex = Vertex(id: int, distance: Dist, processed: bool, x: real, y: real)

  /** A directed weighted edge. `tempWeight` is the editor's pending text
      for the weight (components/types.ts); `None` is `undefined`. */
  datatype Edge = Edge(from: int, to: int, weight: int, active: bool, tempWeight: Option<string>)

  /** A fringe entry `[vertexId, key]`. */
  datatype Entry = Entry(id: int, key: Dist)

  /** One immutable snapshot of the search. `currentVertex` is `None` for
      the initial step; an `edgeTo` value of `None` is the source's `-1`. */
  datatype Step = Step(
    vertices: seq<Vertex>,
    edges: seq<Edge>,
    fringe: seq<Entry>,
    currentVertex: Option<int>,
    distTo: map<int, Dist>,
    edgeTo: map<int, Option<int>>)

  /** The set of ids used by a vertex list. */
  function Ids(vs: seq<Vertex>): set<int>
  {
    set v | v in vs :: v.id
  }

  /** No two vertices share an id. */
  predicate DistinctIds(vs: seq<Vertex>)
  {
    forall i, j :: 0 <= i < j < |vs| ==> vs[i].id != vs[j].id
  }

  /** The shape of graph the editor hands to the search: ids pairwise
      distinct, every edge between existing vertices, no negative weight. */
  predicate GraphOk(vs: seq<Vertex>, es: seq<Edge>)
  {
    && DistinctIds(vs)
    && (forall e :: e in es ==> e.from in Ids(vs) && e.to in Ids(vs) && e.weight >= 0)
  }
}
