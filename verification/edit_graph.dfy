/** The graph editor (components/edit-graph.tsx): adding and deleting
    vertices and editing an edge's weight in place. The editor's state is
    its vertex list, its edge list and the chosen start vertex; each
    handler maps an old state to a new one. */
module EditGraph {
  import opened Types

  datatype Editor = Editor(vertices: seq<Vertex>, edges: seq<Edge>, startNode: int)

  // ---------------------------------------------------------------------
  // parseInt(text, 10)

  /** The characters `parseInt` skips before the number: the white space
      and line terminators of ECMAScript. */
  predicate IsSpace(c: char)
  {
    || c == ' ' || c == '\t' || c == '\n' || c == '\r' || c == '\U{B}' || c == '\U{C}'
    || c == '\U{A0}' || c == '\U{1680}' || ('\U{2000}' <= c <= '\U{200A}')
    || c == '\U{2028}' || c == '\U{2029}' || c == '\U{202F}' || c == '\U{205F}'
    || c == '\U{3000}' || c == '\U{FEFF}'
  }

  predicate IsDigit(c: char)
  {
    '0' <= c <= '9'
  }

  /** `s` without its leading white space. */
  function TrimStart(s: string): (r: string)
    ensures |r| <= |s| && r == s[|s| - |r|..]
    ensures forall i :: 0 <= i < |s| - |r| ==> IsSpace(s[i])
    ensures r == [] || !IsSpace(r[0])
  {
    if |s| > 0 && IsSpace(s[0]) then TrimStart(s[1..]) else s
  }

  /** The number of leading decimal digits of `s`. */
  function DigitRun(s: string): (n: nat)
    ensures n <= |s|
    ensures forall i :: 0 <= i < n ==> IsDigit(s[i])
    ensures n < |s| ==> !IsDigit(s[n])
  {
    if |s| > 0 && IsDigit(s[0]) then 1 + DigitRun(s[1..]) else 0
  }

  /** The value of a string of decimal digits. */
  function DigitsValue(s: string): nat
    requires forall i :: 0 <= i < |s| ==> IsDigit(s[i])
  {
    if |s| == 0 then 0
    else
      var d := s[|s| - 1] as int - '0' as int;
      assert IsDigit(s[|s| - 1]);
      DigitsValue(s[..|s| - 1]) * 10 + d
  }

  /** The value of the leading digits of `u`, if it starts with one. */
  function LeadingNumber(u: string): (r: Option<nat>)
    ensures r.Some? <==> |u| > 0 && IsDigit(u[0])
  {
    var n := DigitRun(u);
    if n == 0 then None else Some(DigitsValue(u[..n]))
  }

  /** JavaScript's `parseInt(s, 10)` on integers: leading white space is
      skipped, one `+` or `-` is read, then the longest run of digits;
      anything after it is ignored. `None` is `NaN` (no digit at all).
      A number needs a digit first or right after the sign, and only a
      minus sign gives a negative number. */
  function ParseInt(s: string): (r: Option<int>)
    ensures r.Some? ==>
      var t := TrimStart(s);
      |t| > 0 && (IsDigit(t[0]) || ((t[0] == '-' || t[0] == '+') && |t| > 1 && IsDigit(t[1])))
    ensures r.Some? && r.value < 0 ==> TrimStart(s)[0] == '-'
  {
    var t := TrimStart(s);
    if |t| == 0 then None
    else if t[0] == '-' || t[0] == '+' then
      match LeadingNumber(t[1..])
      case None => None
      case Some(v) => Some(if t[0] == '-' then -(v as int) else v as int)
    else
      match LeadingNumber(t)
      case None => None
      case Some(v) => Some(v as int)
  }

  /** The decimal text of `n`, without leading zeros. */
  function ShowNat(n: nat): (r: string)
    ensures |r| > 0 && forall i :: 0 <= i < |r| ==> IsDigit(r[i])
  {
    if n < 10 then ['0' + n as char]
    else ShowNat(n / 10) + ['0' + (n % 10) as char]
  }

  lemma {:induction false} ValueOfShow(n: nat)
    ensures DigitsValue(ShowNat(n)) == n
  {
    if n >= 10 {
      ValueOfShow(n / 10);
      var s := ShowNat(n);
      assert s[..|s| - 1] == ShowNat(n / 10);
    }
  }

  lemma {:induction false} RunOfDigits(d: string, rest: string)
    requires forall i :: 0 <= i < |d| ==> IsDigit(d[i])
    requires rest == [] || !IsDigit(rest[0])
    ensures DigitRun(d + rest) == |d|
    decreases |d|
  {
    if |d| > 0 {
      assert (d + rest)[1..] == d[1..] + rest;
      RunOfDigits(d[1..], rest);
    } else {
      assert d + rest == rest;
    }
  }

  lemma {:induction false} TrimSpaces(pre: string, s: string)
    requires forall i :: 0 <= i < |pre| ==> IsSpace(pre[i])
    requires s == [] || !IsSpace(s[0])
    ensures TrimStart(pre + s) == s
    decreases |pre|
  {
    if |pre| > 0 {
      assert (pre + s)[1..] == pre[1..] + s;
      TrimSpaces(pre[1..], s);
    } else {
      assert pre + s == s;
    }
  }

  /** Reading back the decimal text of a number gives the number, whatever
      white space precedes it and whatever non-digit text follows it. */
  lemma ParseShow(pre: string, n: nat, rest: string)
    requires forall i :: 0 <= i < |pre| ==> IsSpace(pre[i])
    requires rest == [] || !IsDigit(rest[0])
    ensures ParseInt(pre + ShowNat(n) + rest) == Some(n)
  {
    var d := ShowNat(n);
    var t := d + rest;
    assert pre + d + rest == pre + t;
    TrimSpaces(pre, t);
    RunOfDigits(d, rest);
    assert t[..|d|] == d;
    ValueOfShow(n);
    ParseUnsigned(pre + d + rest, t);
  }

  /** Text whose first non-space character is a digit reads as the value
      of its leading digits. */
  lemma ParseUnsigned(s: string, t: string)
    requires TrimStart(s) == t && |t| > 0 && IsDigit(t[0])
    ensures ParseInt(s) == Some(DigitsValue(t[..DigitRun(t)]))
  {
  }

  /** A minus sign makes the number negative. */
  lemma ParseNegative(n: nat)
    requires n > 0
    ensures ParseInt("-" + ShowNat(n)).Some? && ParseInt("-" + ShowNat(n)).value == -(n as int)
  {
    var d := ShowNat(n);
    TrimSpaces([], "-" + d);
    assert ([] + ("-" + d)) == "-" + d;
    assert ("-" + d)[1..] == d;
    RunOfDigits(d, []);
    assert d + [] == d;
    assert d[..|d|] == d;
    ValueOfShow(n);
  }

  /** A leading `+` or `-` followed by a digit: the value of the digits
      after the sign, negated for a minus sign. */
  lemma ParseSigned(s: string, t: string)
    requires TrimStart(s) == t && |t| > 1 && (t[0] == '+' || t[0] == '-') && IsDigit(t[1])
    ensures var u := t[1..];
      ParseInt(s) == Some(if t[0] == '-' then -(DigitsValue(u[..DigitRun(u)]) as int)
                          else DigitsValue(u[..DigitRun(u)]))
  {
  }

  /** A plus sign leaves the number as it is. */
  lemma ParsePlus(n: nat)
    ensures ParseInt("+" + ShowNat(n)) == Some(n)
  {
    var d := ShowNat(n);
    TrimSpaces([], "+" + d);
    assert ([] + ("+" + d)) == "+" + d;
    assert ("+" + d)[1..] == d;
    RunOfDigits(d, []);
    assert d + [] == d;
    assert d[..|d|] == d;
    ValueOfShow(n);
    ParseSigned("+" + d, "+" + d);
  }

  // ---------------------------------------------------------------------
  // Editing an edge's weight in place

  /** The text `parseInt` reads on blur: `edge.tempWeight || ''`. */
  function PendingText(t: Option<string>): (r: string)
    ensures t.Some? ==> r == t.value
    ensures t.None? ==> ParseInt(r).None?
  {
    if t.Some? then t.value else ""
  }

  /** The weight after a blur: the parsed text when it is a non-negative
      integer, otherwise the old weight. A weight that was not negative
      never becomes negative. */
  function BlurredWeight(e: Edge): (w: int)
    ensures w == e.weight || (w >= 0 && ParseInt(PendingText(e.tempWeight)) == Some(w))
    ensures ParseInt(PendingText(e.tempWeight)).Some? && ParseInt(PendingText(e.tempWeight)).value >= 0
            ==> w == ParseInt(PendingText(e.tempWeight)).value
    ensures e.weight >= 0 ==> w >= 0
  {
    var p := ParseInt(PendingText(e.tempWeight));
    if p.Some? && p.value >= 0 then p.value else e.weight
  }

  /** Lines 92-98: records `newValue` as the pending text of the edges
      whose key `from-to` is `key`; the key is modelled as the pair. */
  function HandleEdgeValueChange(key: (int, int), newValue: string, es: seq<Edge>): (r: seq<Edge>)
    ensures |r| == |es|
    ensures forall i :: 0 <= i < |es| ==>
      if (es[i].from, es[i].to) == key then r[i] == es[i].(tempWeight := Some(newValue)) else r[i] == es[i]
  {
    seq(|es|, i requires 0 <= i < |es| =>
          if (es[i].from, es[i].to) == key then es[i].(tempWeight := Some(newValue)) else es[i])
  }

  /** Lines 100-115: on the edges with key `key`, commits the pending text
      as the weight when it parses to a non-negative integer and always
      drops the pending text; every other edge is kept. */
  function HandleEdgeInputBlur(key: (int, int), es: seq<Edge>): (r: seq<Edge>)
    ensures |r| == |es|
    ensures forall i :: 0 <= i < |es| && (es[i].from, es[i].to) != key ==> r[i] == es[i]
    ensures forall i :: 0 <= i < |es| && (es[i].from, es[i].to) == key ==>
      && r[i].tempWeight == None
      && r[i].(weight := es[i].weight, tempWeight := es[i].tempWeight) == es[i]
      && r[i].weight == BlurredWeight(es[i])
  {
    seq(|es|, i requires 0 <= i < |es| =>
          if (es[i].from, es[i].to) == key then es[i].(weight := BlurredWeight(es[i]), tempWeight := None)
          else es[i])
  }

  /** Typing the decimal text of `n` into an edge, with any leading white
      space and any trailing text that does not start with a digit, and
      leaving the field sets that edge's weight to `n`; the edge is
      otherwise as before. */
  lemma TypeThenBlur(key: (int, int), pre: string, n: nat, rest: string, es: seq<Edge>)
    requires forall i :: 0 <= i < |pre| ==> IsSpace(pre[i])
    requires rest == [] || !IsDigit(rest[0])
    ensures var r := HandleEdgeInputBlur(key, HandleEdgeValueChange(key, pre + ShowNat(n) + rest, es));
      && |r| == |es|
      && forall i :: 0 <= i < |es| ==>
           r[i] == if (es[i].from, es[i].to) == key then es[i].(weight := n, tempWeight := None) else es[i]
  {
    var a := HandleEdgeValueChange(key, pre + ShowNat(n) + rest, es);
    var r := HandleEdgeInputBlur(key, a);
    forall i | 0 <= i < |es| && (es[i].from, es[i].to) == key
      ensures r[i] == es[i].(weight := n, tempWeight := None)
    {
      BlurShow(a[i], pre, n, rest);
    }
  }

  lemma BlurShow(e: Edge, pre: string, n: nat, rest: string)
    requires forall i :: 0 <= i < |pre| ==> IsSpace(pre[i])
    requires rest == [] || !IsDigit(rest[0])
    requires e.tempWeight == Some(pre + ShowNat(n) + rest)
    ensures BlurredWeight(e) == n
  {
    ParseShow(pre, n, rest);
  }

  /** Text that is not a non-negative integer leaves the weight unchanged. */
  lemma BadTextKeepsWeight(key: (int, int), text: string, es: seq<Edge>)
    requires ParseInt(text).None? || ParseInt(text).value < 0
    ensures var r := HandleEdgeInputBlur(key, HandleEdgeValueChange(key, text, es));
      forall i :: 0 <= i < |es| ==> r[i] == es[i].(tempWeight := None) || r[i] == es[i]
  {
  }

  /** Editing weights in place keeps the graph one the search accepts. */
  lemma EdgeEditsKeepGraphOk(vs: seq<Vertex>, es: seq<Edge>, key: (int, int), text: string)
    requires GraphOk(vs, es)
    ensures GraphOk(vs, HandleEdgeValueChange(key, text, es))
    ensures GraphOk(vs, HandleEdgeInputBlur(key, es))
  {
    var a := HandleEdgeValueChange(key, text, es);
    forall e | e in a
      ensures e.from in Ids(vs) && e.to in Ids(vs) && e.weight >= 0
    {
      var i :| 0 <= i < |a| && a[i] == e;
      assert es[i] in es;
    }
    var b := HandleEdgeInputBlur(key, es);
    forall e | e in b
      ensures e.from in Ids(vs) && e.to in Ids(vs) && e.weight >= 0
    {
      var i :| 0 <= i < |b| && b[i] == e;
      assert es[i] in es;
    }
  }

  // ---------------------------------------------------------------------
  // Adding a vertex

  /** Ids `0 .. n-1` all in a set means the set has at least `n` members. */
  lemma {:induction false} RangeInSet(used: set<int>, n: nat)
    requires forall k :: 0 <= k < n ==> k in used
    ensures |used| >= n
    decreases n
  {
    if n > 0 {
      RangeInSet(used - {n - 1}, n - 1);
    }
  }

  /** Lines 123-137: appends a vertex with the smallest non-negative id not
      yet in use, distance `Inf`, not processed, at `(x, y)` (the source
      draws them at random). */
  method AddNode(s: Editor, x: real, y: real) returns (r: Editor)
    ensures r.edges == s.edges && r.startNode == s.startNode
    ensures |r.vertices| == |s.vertices| + 1 && r.vertices[..|s.vertices|] == s.vertices
    ensures var v := r.vertices[|s.vertices|];
      && v.id >= 0 && v.id !in Ids(s.vertices)
      && (forall k :: 0 <= k < v.id ==> k in Ids(s.vertices))
      && v == Vertex(v.id, Inf, false, x, y)
  {
    var usedIds := Ids(s.vertices);
    var newId := 0;
    while newId in usedIds
      invariant 0 <= newId <= |usedIds|
      invariant forall k :: 0 <= k < newId ==> k in usedIds
      decreases |usedIds| - newId
    {
      newId := newId + 1;
      RangeInSet(usedIds, newId);
    }
    var newNode := Vertex(newId, Inf, false, x, y);
    r := s.(vertices := s.vertices + [newNode]);
    assert r.vertices[..|s.vertices|] == s.vertices;
  }

  /** The vertex `addNode` appends keeps ids distinct and the graph one the
      search accepts. */
  lemma AddKeepsGraphOk(s: Editor, r: Editor)
    requires GraphOk(s.vertices, s.edges)
    requires |r.vertices| == |s.vertices| + 1 && r.vertices[..|s.vertices|] == s.vertices
    requires r.vertices[|s.vertices|].id !in Ids(s.vertices) && r.edges == s.edges
    ensures GraphOk(r.vertices, r.edges)
    ensures Ids(r.vertices) == Ids(s.vertices) + {r.vertices[|s.vertices|].id}
  {
    IdsAppend(s.vertices, r.vertices[|s.vertices|]);
    assert r.vertices == s.vertices + [r.vertices[|s.vertices|]];
    var n := |s.vertices|;
    forall i, j | 0 <= i < j < |r.vertices|
      ensures r.vertices[i].id != r.vertices[j].id
    {
      if j == n {
        assert r.vertices[i] in s.vertices;
      }
    }
  }

  lemma IdsAppend(vs: seq<Vertex>, v: Vertex)
    ensures Ids(vs + [v]) == Ids(vs) + {v.id}
  {
    forall u | u in Ids(vs)
      ensures u in Ids(vs + [v])
    {
      var w :| w in vs && w.id == u;
      assert w in vs + [v];
    }
    assert v in vs + [v];
  }

  // ---------------------------------------------------------------------
  // Deleting a vertex

  /** `vs` without the vertices whose id is `id`, in their order. */
  function WithoutVertex(vs: seq<Vertex>, id: int): (r: seq<Vertex>)
    ensures forall v :: v in r <==> v in vs && v.id != id
    ensures |r| <= |vs|
  {
    if |vs| == 0 then []
    else WithoutVertex(vs[..|vs| - 1], id) + (if vs[|vs| - 1].id == id then [] else [vs[|vs| - 1]])
  }

  /** `es` without the edges touching `id`, in their order. */
  function WithoutIncident(es: seq<Edge>, id: int): (r: seq<Edge>)
    ensures forall e :: e in r <==> e in es && e.from != id && e.to != id
    ensures |r| <= |es|
  {
    if |es| == 0 then []
    else
      var e := es[|es| - 1];
      WithoutIncident(es[..|es| - 1], id) + (if e.from == id || e.to == id then [] else [e])
  }

  /** Filtering a concatenation filters each part: the kept vertices stay in order. */
  lemma {:induction false} WithoutVertexAppend(a: seq<Vertex>, b: seq<Vertex>, id: int)
    ensures WithoutVertex(a + b, id) == WithoutVertex(a, id) + WithoutVertex(b, id)
    decreases |b|
  {
    if |b| == 0 {
      assert a + b == a;
    } else {
      assert (a + b)[..|a + b| - 1] == a + b[..|b| - 1];
      WithoutVertexAppend(a, b[..|b| - 1], id);
    }
  }

  /** Filtering a concatenation filters each part: the kept edges stay in order. */
  lemma {:induction false} WithoutIncidentAppend(a: seq<Edge>, b: seq<Edge>, id: int)
    ensures WithoutIncident(a + b, id) == WithoutIncident(a, id) + WithoutIncident(b, id)
    decreases |b|
  {
    if |b| == 0 {
      assert a + b == a;
    } else {
      assert (a + b)[..|a + b| - 1] == a + b[..|b| - 1];
      WithoutIncidentAppend(a, b[..|b| - 1], id);
    }
  }

  /** `idx` picks the entries of `r` out of `s` at strictly increasing
      positions: `r` is `s` with some entries dropped and the rest in order. */
  ghost predicate InOrder<T>(r: seq<T>, s: seq<T>, idx: seq<int>)
  {
    && |idx| == |r|
    && (forall k :: 0 <= k < |idx| ==> 0 <= idx[k] < |s| && r[k] == s[idx[k]])
    && (forall i, j :: 0 <= i < j < |idx| ==> idx[i] < idx[j])
  }

  /** Appending `x` to `s` keeps an ordered pick, with `x` picked or not. */
  lemma InOrderSnoc<T>(r: seq<T>, s: seq<T>, idx: seq<int>, x: T, keep: bool)
    requires InOrder(r, s, idx)
    ensures InOrder(r + (if keep then [x] else []), s + [x], if keep then idx + [|s|] else idx)
  {
    if keep {
      var r', idx' := r + [x], idx + [|s|];
      forall k | 0 <= k < |idx'|
        ensures 0 <= idx'[k] < |s + [x]| && r'[k] == (s + [x])[idx'[k]]
      {
        if k < |idx| {
          assert idx'[k] == idx[k] && r'[k] == r[k];
        }
      }
    }
  }

  /** Every vertex with another id survives as often as it occurs. */
  lemma {:induction false} WithoutVertexCount(vs: seq<Vertex>, id: int)
    ensures forall v :: multiset(WithoutVertex(vs, id))[v] == if v.id == id then 0 else multiset(vs)[v]
    decreases |vs|
  {
    if |vs| > 0 {
      var pre, x := vs[..|vs| - 1], vs[|vs| - 1];
      WithoutVertexCount(pre, id);
      assert vs == pre + [x];
      assert multiset(vs) == multiset(pre) + multiset{x};
    }
  }

  /** Every edge not touching the id survives as often as it occurs. */
  lemma {:induction false} WithoutIncidentCount(es: seq<Edge>, id: int)
    ensures forall e :: multiset(WithoutIncident(es, id))[e]
                        == if e.from == id || e.to == id then 0 else multiset(es)[e]
    decreases |es|
  {
    if |es| > 0 {
      var pre, x := es[..|es| - 1], es[|es| - 1];
      WithoutIncidentCount(pre, id);
      assert es == pre + [x];
      assert multiset(es) == multiset(pre) + multiset{x};
    }
  }

  /** The kept vertices appear in their original order. */
  lemma {:induction false} WithoutVertexInOrder(vs: seq<Vertex>, id: int)
    ensures exists idx :: InOrder(WithoutVertex(vs, id), vs, idx)
    decreases |vs|
  {
    if |vs| == 0 {
      assert InOrder(WithoutVertex(vs, id), vs, []);
    } else {
      var pre := vs[..|vs| - 1];
      WithoutVertexInOrder(pre, id);
      var idx0 :| InOrder(WithoutVertex(pre, id), pre, idx0);
      var x := vs[|vs| - 1];
      InOrderSnoc(WithoutVertex(pre, id), pre, idx0, x, x.id != id);
      assert pre + [x] == vs;
      assert WithoutVertex(vs, id) == WithoutVertex(pre, id) + (if x.id != id then [x] else []);
      assert InOrder(WithoutVertex(vs, id), vs, if x.id != id then idx0 + [|pre|] else idx0);
    }
  }

  /** The kept edges appear in their original order. */
  lemma {:induction false} WithoutIncidentInOrder(es: seq<Edge>, id: int)
    ensures exists idx :: InOrder(WithoutIncident(es, id), es, idx)
    decreases |es|
  {
    if |es| == 0 {
      assert InOrder(WithoutIncident(es, id), es, []);
    } else {
      var pre := es[..|es| - 1];
      WithoutIncidentInOrder(pre, id);
      var idx0 :| InOrder(WithoutIncident(pre, id), pre, idx0);
      var e := es[|es| - 1];
      var keep := !(e.from == id || e.to == id);
      InOrderSnoc(WithoutIncident(pre, id), pre, idx0, e, keep);
      assert pre + [e] == es;
      assert WithoutIncident(es, id) == WithoutIncident(pre, id) + (if keep then [e] else []);
      assert InOrder(WithoutIncident(es, id), es, if keep then idx0 + [|pre|] else idx0);
    }
  }

  /** Lines 139-146: the start vertex cannot be deleted (the source shows
      an alert and changes nothing); any other id loses its vertex and
      every edge that touches it, and what is kept stays in order. */
  function DeleteNode(id: int, s: Editor): (r: Editor)
    ensures id == s.startNode ==> r == s
    ensures id != s.startNode ==>
      && r.startNode == s.startNode
      && (forall v :: v in r.vertices <==> v in s.vertices && v.id != id)
      && (forall e :: e in r.edges <==> e in s.edges && e.from != id && e.to != id)
      && (exists idx :: InOrder(r.vertices, s.vertices, idx))
      && (exists idx :: InOrder(r.edges, s.edges, idx))
      && (forall v :: multiset(r.vertices)[v] == if v.id == id then 0 else multiset(s.vertices)[v])
      && (forall e :: multiset(r.edges)[e] == if e.from == id || e.to == id then 0 else multiset(s.edges)[e])
  {
    if id == s.startNode then s
    else
      WithoutVertexInOrder(s.vertices, id);
      WithoutIncidentInOrder(s.edges, id);
      WithoutVertexCount(s.vertices, id);
      WithoutIncidentCount(s.edges, id);
      Editor(WithoutVertex(s.vertices, id), WithoutIncident(s.edges, id), s.startNode)
  }

  /** Deleting a vertex keeps the graph one the search accepts, and keeps
      the start vertex. */
  lemma DeleteKeepsGraphOk(id: int, s: Editor)
    requires GraphOk(s.vertices, s.edges)
    ensures GraphOk(DeleteNode(id, s).vertices, DeleteNode(id, s).edges)
    ensures s.startNode in Ids(s.vertices) ==> s.startNode in Ids(DeleteNode(id, s).vertices)
    ensures id != s.startNode ==> id !in Ids(DeleteNode(id, s).vertices)
  {
    var r := DeleteNode(id, s);
    if id != s.startNode {
      WithoutVertexDistinct(s.vertices, id);
      forall e | e in r.edges
        ensures e.from in Ids(r.vertices) && e.to in Ids(r.vertices)
      {
        var a :| a in s.vertices && a.id == e.from;
        var b :| b in s.vertices && b.id == e.to;
        assert a in r.vertices && b in r.vertices;
      }
      if s.startNode in Ids(s.vertices) {
        var v :| v in s.vertices && v.id == s.startNode;
        assert v in r.vertices;
      }
    }
  }

  lemma {:induction false} WithoutVertexDistinct(vs: seq<Vertex>, id: int)
    requires DistinctIds(vs)
    ensures DistinctIds(WithoutVertex(vs, id))
    decreases |vs|
  {
    if |vs| > 0 {
      var pre := vs[..|vs| - 1];
      var last := vs[|vs| - 1];
      WithoutVertexDistinct(pre, id);
      var r := WithoutVertex(vs, id);
      var rp := WithoutVertex(pre, id);
      forall i, j | 0 <= i < j < |r|
        ensures r[i].id != r[j].id
      {
        if j >= |rp| {
          assert r[j] == last;
          assert r[i] in rp;
          var k :| 0 <= k < |pre| && pre[k] == r[i];
        }
      }
    }
  }
}
