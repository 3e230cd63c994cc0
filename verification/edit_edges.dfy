/** The edge-list editor (components/edit-edges-popup.tsx): the handlers
    that edit the list being composed and the validator that decides
    whether it may be handed back to the graph. The editor's state is its
    list of edges and its error message; each handler maps an old state to
    a new one. */
module EditEdges {
  import opened Types

  /** The edge fields the editor lets the user change. */
  datatype Field = From | To | Weight

  /** The editor's error messages, by kind; the source renders each as text
      naming the offending edge's endpoints. */
  datatype EdgeError =
    | TooFewVertices
    | NegativeValue
    | SelfLoop(from: int, to: int)
    | NegativeWeight(from: int, to: int)
    | Duplicate(from: int, to: int)

  /** The popup's state: the edges being edited and the error on display. */
  datatype Popup = Popup(edited: seq<Edge>, error: Option<EdgeError>)

  // ---------------------------------------------------------------------
  // Adding, deleting and changing edges

  /** The edge `handleAddEdge` appends: from the first vertex to the second, weight 1. */
  function NewEdge(vertices: seq<Vertex>): (r: Edge)
    requires |vertices| >= 2
    ensures r.from in Ids(vertices) && r.to in Ids(vertices) && r.weight >= 0
    ensures DistinctIds(vertices) ==> r.from != r.to
  {
    Edge(vertices[0].id, vertices[1].id, 1, false, None)
  }

  /** Lines 31-37: with fewer than two vertices only the error changes;
      otherwise one edge from the first vertex to the second is appended. */
  function HandleAddEdge(vertices: seq<Vertex>, s: Popup): (r: Popup)
    ensures |vertices| < 2 ==> r.edited == s.edited && r.error == Some(TooFewVertices)
    ensures |vertices| >= 2 ==>
      && r.error == s.error
      && |r.edited| == |s.edited| + 1 && r.edited[..|s.edited|] == s.edited
      && r.edited[|s.edited|].from == vertices[0].id && r.edited[|s.edited|].to == vertices[1].id
      && r.edited[|s.edited|].weight == 1 && !r.edited[|s.edited|].active
      && r.edited[|s.edited|].tempWeight == None
  {
    if |vertices| < 2 then s.(error := Some(TooFewVertices))
    else s.(edited := s.edited + [NewEdge(vertices)])
  }

  /** `es` without the entry at position `index`; every entry is kept when
      `index` is not a position of `es` (`filter((_, i) => i !== index)`). */
  function WithoutIndex(es: seq<Edge>, index: int): (r: seq<Edge>)
    ensures 0 <= index < |es| ==> r == es[..index] + es[index + 1..]
    ensures !(0 <= index < |es|) ==> r == es
    decreases |es|
  {
    if |es| == 0 then []
    else
      var last := es[|es| - 1];
      WithoutIndex(es[..|es| - 1], index) + (if index == |es| - 1 then [] else [last])
  }

  /** Lines 39-41: removes exactly the entry at `index`. */
  function HandleDeleteEdge(index: int, s: Popup): (r: Popup)
    ensures r.error == s.error
    ensures 0 <= index < |s.edited| ==>
      && |r.edited| == |s.edited| - 1
      && (forall i :: 0 <= i < index ==> r.edited[i] == s.edited[i])
      && (forall i :: index <= i < |r.edited| ==> r.edited[i] == s.edited[i + 1])
      && multiset(r.edited) + multiset{s.edited[index]} == multiset(s.edited)
    ensures !(0 <= index < |s.edited|) ==> r == s
  {
    var r := s.(edited := WithoutIndex(s.edited, index));
    if 0 <= index < |s.edited| then
      assert s.edited == s.edited[..index] + [s.edited[index]] + s.edited[index + 1..];
      r
    else r
  }

  /** The edge `e` with `field` set to `value`: reading the field back
      gives the value; the other two fields, the active flag and the
      pending text are untouched. */
  function SetField(e: Edge, field: Field, value: int): (r: Edge)
    ensures GetField(r, field) == value
    ensures forall f :: f != field ==> GetField(r, f) == GetField(e, f)
    ensures r.active == e.active && r.tempWeight == e.tempWeight
  {
    match field
    case From => e.(from := value)
    case To => e.(to := value)
    case Weight => e.(weight := value)
  }

  function GetField(e: Edge, field: Field): int
  {
    match field
    case From => e.from
    case To => e.to
    case Weight => e.weight
  }

  /** Lines 43-54: a negative weight is refused with an error and the list
      kept; any other change clears the error and rewrites just the named
      field of the edge at `index` (nothing, when `index` is out of range). */
  function HandleEdgeChange(index: int, field: Field, value: int, s: Popup): (r: Popup)
    ensures field == Weight && value < 0 ==> r.edited == s.edited && r.error == Some(NegativeValue)
    ensures !(field == Weight && value < 0) ==>
      && r.error == None
      && |r.edited| == |s.edited|
      && (forall i :: 0 <= i < |s.edited| && i != index ==> r.edited[i] == s.edited[i])
      && (0 <= index < |s.edited| ==>
            && GetField(r.edited[index], field) == value
            && (forall f :: f != field ==> GetField(r.edited[index], f) == GetField(s.edited[index], f))
            && r.edited[index].active == s.edited[index].active
            && r.edited[index].tempWeight == s.edited[index].tempWeight)
  {
    if field == Weight && value < 0 then s.(error := Some(NegativeValue))
    else
      Popup(seq(|s.edited|, i requires 0 <= i < |s.edited| =>
                  if i == index then SetField(s.edited[i], field, value) else s.edited[i]),
            None)
  }

  // ---------------------------------------------------------------------
  // Saving

  /** The check `handleSave` applies to one edge, given the edges before
      it: self-loop first, then a negative weight, then a repeated ordered
      `(from, to)` pair. */
  function Problem(seen: seq<Edge>, e: Edge): (r: Option<EdgeError>)
    ensures r == None <==>
      && e.from != e.to && e.weight >= 0
      && forall j :: 0 <= j < |seen| ==> !(seen[j].from == e.from && seen[j].to == e.to)
    ensures r.Some? ==>
      && (r.value.SelfLoop? || r.value.NegativeWeight? || r.value.Duplicate?)
      && r.value.from == e.from && r.value.to == e.to
  {
    if e.from == e.to then Some(SelfLoop(e.from, e.to))
    else if e.weight < 0 then Some(NegativeWeight(e.from, e.to))
    else if exists j :: 0 <= j < |seen| && seen[j].from == e.from && seen[j].to == e.to then
      Some(Duplicate(e.from, e.to))
    else None
  }

  /** A list the editor may hand back: no self-loop, no negative weight and
      no ordered pair of endpoints twice. */
  ghost predicate EdgesValid(es: seq<Edge>)
  {
    && (forall i :: 0 <= i < |es| ==> es[i].from != es[i].to && es[i].weight >= 0)
    && (forall i, j :: 0 <= i < j < |es| ==> (es[i].from, es[i].to) != (es[j].from, es[j].to))
  }

  /** A list is valid exactly when no edge has a problem with the edges before it. */
  lemma ValidIffNoProblem(es: seq<Edge>)
    ensures EdgesValid(es) <==> forall k :: 0 <= k < |es| ==> Problem(es[..k], es[k]) == None
  {
    if EdgesValid(es) {
      forall k | 0 <= k < |es|
        ensures Problem(es[..k], es[k]) == None
      {
        forall j | 0 <= j < k
          ensures !(es[..k][j].from == es[k].from && es[..k][j].to == es[k].to)
        {
          assert es[..k][j] == es[j];
        }
      }
    }
    if forall k :: 0 <= k < |es| ==> Problem(es[..k], es[k]) == None {
      forall i, j | 0 <= i < j < |es|
        ensures (es[i].from, es[i].to) != (es[j].from, es[j].to)
      {
        assert Problem(es[..j], es[j]) == None;
        assert es[..j][i] == es[i];
      }
    }
  }

  /** When the edges before `k` pass and edge `k` has a problem, the list is
      not valid and `k` is the first failing position. */
  lemma FirstProblem(es: seq<Edge>, k: nat)
    requires k < |es| && EdgesValid(es[..k]) && Problem(es[..k], es[k]).Some?
    ensures !EdgesValid(es)
  {
    ValidIffNoProblem(es);
  }

  /** Lines 56-76: checks the edges in order and stops at the first one
      that fails; `saved` is the list passed to `onSave`, which happens
      exactly when every edge passes. */
  method HandleSave(s: Popup) returns (saved: Option<seq<Edge>>, r: Popup)
    ensures saved.Some? <==> EdgesValid(s.edited)
    ensures saved.Some? ==> saved.value == s.edited && r == Popup(s.edited, None)
    ensures saved.None? ==> r.edited == s.edited
    ensures saved.None? ==>
      exists k :: && 0 <= k < |s.edited|
                  && EdgesValid(s.edited[..k])
                  && Problem(s.edited[..k], s.edited[k]).Some?
                  && r.error == Problem(s.edited[..k], s.edited[k])
  {
    var edges := s.edited;
    var edgeSet: set<(int, int)> := {};
    for i := 0 to |edges|
      invariant edgeSet == set j | 0 <= j < i :: (edges[j].from, edges[j].to)
      invariant EdgesValid(edges[..i])
    {
      var edge := edges[i];
      if edge.from == edge.to {
        FirstProblem(edges, i);
        return None, s.(error := Some(SelfLoop(edge.from, edge.to)));
      }
      if edge.weight < 0 {
        FirstProblem(edges, i);
        return None, s.(error := Some(NegativeWeight(edge.from, edge.to)));
      }
      var edgeKey := (edge.from, edge.to);
      if edgeKey in edgeSet {
        var j :| 0 <= j < i && (edges[j].from, edges[j].to) == edgeKey;
        assert edges[..i][j] == edges[j];
        FirstProblem(edges, i);
        return None, s.(error := Some(Duplicate(edge.from, edge.to)));
      }
      assert Problem(edges[..i], edge) == None;
      edgeSet := edgeSet + {edgeKey};
      assert edges[..i + 1] == edges[..i] + [edge];
    }
    assert edges[..|edges|] == edges;
    return Some(edges), Popup(edges, None);
  }

  // ---------------------------------------------------------------------
  // How the handlers and the validator fit together

  /** Deleting the edge just added restores the list. */
  lemma AddThenDelete(vertices: seq<Vertex>, s: Popup)
    requires |vertices| >= 2
    ensures HandleDeleteEdge(|s.edited|, HandleAddEdge(vertices, s)).edited == s.edited
  {
    var added := HandleAddEdge(vertices, s).edited;
    assert added[..|s.edited|] == s.edited;
  }

  /** Adding an edge never checks for duplicates: when the list already
      has an edge from the first vertex to the second, the list after
      `handleAddEdge` no longer passes `handleSave`. */
  lemma AddCanDuplicate(vertices: seq<Vertex>, s: Popup, k: nat)
    requires |vertices| >= 2 && k < |s.edited|
    requires s.edited[k].from == vertices[0].id && s.edited[k].to == vertices[1].id
    ensures !EdgesValid(HandleAddEdge(vertices, s).edited)
  {
    var added := HandleAddEdge(vertices, s).edited;
    assert added[k] == s.edited[k];
    assert (added[k].from, added[k].to) == (added[|s.edited|].from, added[|s.edited|].to);
  }

  /** Duplicates are ordered pairs: an edge and its reverse may both be saved. */
  lemma ReverseAllowed(a: int, b: int, w: nat, w': nat)
    requires a != b
    ensures EdgesValid([Edge(a, b, w, false, None), Edge(b, a, w', false, None)])
  {
  }

  /** Deleting an edge keeps a valid list valid. */
  lemma DeleteKeepsValid(index: int, s: Popup)
    requires EdgesValid(s.edited)
    ensures EdgesValid(HandleDeleteEdge(index, s).edited)
  {
    var r := HandleDeleteEdge(index, s).edited;
    if 0 <= index < |s.edited| {
      forall i, j | 0 <= i < j < |r|
        ensures (r[i].from, r[i].to) != (r[j].from, r[j].to)
      {
        var i' := if i < index then i else i + 1;
        var j' := if j < index then j else j + 1;
        assert r[i] == s.edited[i'] && r[j] == s.edited[j'];
      }
    }
  }

  /** Setting a weight that the editor accepts keeps a valid list valid. */
  lemma WeightChangeKeepsValid(index: int, value: int, s: Popup)
    requires EdgesValid(s.edited) && value >= 0
    ensures EdgesValid(HandleEdgeChange(index, Weight, value, s).edited)
  {
    var r := HandleEdgeChange(index, Weight, value, s).edited;
    forall i | 0 <= i < |r|
      ensures r[i].from == s.edited[i].from && r[i].to == s.edited[i].to
    {
      if i == index {
        assert GetField(r[i], From) == GetField(s.edited[i], From);
        assert GetField(r[i], To) == GetField(s.edited[i], To);
      }
    }
  }

  /** A list that passes `handleSave` and whose endpoints are vertices of a
      graph with distinct ids is a graph the search accepts. */
  lemma SavedGraphOk(vertices: seq<Vertex>, es: seq<Edge>)
    requires DistinctIds(vertices) && EdgesValid(es)
    requires forall e :: e in es ==> e.from in Ids(vertices) && e.to in Ids(vertices)
    ensures GraphOk(vertices, es)
    ensures forall e :: e in es ==> e.from != e.to
  {
  }
}
