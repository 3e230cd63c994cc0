/** The array-backed binary min-heap of `[vertexId, key]` pairs used as the
    fringe of the search (dijkstra-algorithm.ts, class MinHeap). */
module Heap {
  import opened Types

  /** The slot whose child `i` is: `i` is its left or its right child. */
  function Parent(i: nat): (p: nat)
    requires i > 0
    ensures p < i
    ensures LeftChild(p) == i || RightChild(p) == i
  {
    (i - 1) / 2
  }

  /** Left children sit at the odd slots past their parent. */
  function LeftChild(i: nat): (c: nat)
    ensures i < c && c % 2 == 1
  {
    2 * i + 1
  }

  /** The right child sits right after the left one, at an even slot. */
  function RightChild(i: nat): (c: nat)
    ensures c == LeftChild(i) + 1 && c % 2 == 0
  {
    2 * i + 2
  }

  /** Each child slot leads back to its parent. */
  lemma ChildrenParent(i: nat)
    ensures Parent(LeftChild(i)) == i && Parent(RightChild(i)) == i
  {
  }

  /** Every entry's key is at least its parent's key. */
  ghost predicate HeapOrdered(h: seq<Entry>)
  {
    forall j :: 0 < j < |h| ==> Le(h[Parent(j)].key, h[j].key)
  }

  /** Heap order, except that the entry at `k` may be smaller than its
      parent; its parent is still no larger than `k`'s children. This is
      what holds while an entry travels up. */
  ghost predicate OrderedExceptUp(h: seq<Entry>, k: nat)
  {
    && (forall j :: 0 < j < |h| && j != k ==> Le(h[Parent(j)].key, h[j].key))
    && (forall j :: 0 < j < |h| && Parent(j) == k && 0 < k ==> Le(h[Parent(k)].key, h[j].key))
  }

  /** Heap order, except that the entry at `k` may be larger than its
      children; `k`'s parent is still no larger than those children. This
      is what holds while an entry travels down. */
  ghost predicate OrderedExceptDown(h: seq<Entry>, k: nat)
  {
    && (forall j :: 0 < j < |h| && Parent(j) != k ==> Le(h[Parent(j)].key, h[j].key))
    && (forall j :: 0 < j < |h| && Parent(j) == k && 0 < k ==> Le(h[Parent(k)].key, h[j].key))
  }

  lemma LeTrans(a: Dist, b: Dist, c: Dist)
    requires Le(a, b) && Le(b, c)
    ensures Le(a, c)
  {
  }

  /** The root of a heap-ordered sequence holds a minimal key. */
  lemma {:induction false} RootIsMin(h: seq<Entry>, j: nat)
    requires HeapOrdered(h) && j < |h|
    ensures Le(h[0].key, h[j].key)
    decreases j
  {
    if j > 0 {
      RootIsMin(h, Parent(j));
      LeTrans(h[0].key, h[Parent(j)].key, h[j].key);
    }
  }

  /** Swapping the entry at `i` with its smaller child `m`, when that child
      is smaller than it, moves the one place out of order down to `m`. */
  lemma DownStep(h: seq<Entry>, i: nat, m: nat)
    requires i < |h| && m < |h| && OrderedExceptDown(h, i)
    requires m == LeftChild(i) || m == RightChild(i)
    requires Less(h[m].key, h[i].key)
    requires LeftChild(i) < |h| ==> Le(h[m].key, h[LeftChild(i)].key)
    requires RightChild(i) < |h| ==> Le(h[m].key, h[RightChild(i)].key)
    ensures OrderedExceptDown(h[i := h[m]][m := h[i]], m)
  {
    var g := h[i := h[m]][m := h[i]];
    forall j | 0 < j < |g| && Parent(j) != m
      ensures Le(g[Parent(j)].key, g[j].key)
    {
      if Parent(j) == i && j != m {
        assert j == LeftChild(i) || j == RightChild(i);
      }
    }
  }

  /** When neither child is smaller, the place out of order is not out of
      order at all. */
  lemma DownDone(h: seq<Entry>, i: nat)
    requires i < |h| && OrderedExceptDown(h, i)
    requires LeftChild(i) < |h| ==> Le(h[i].key, h[LeftChild(i)].key)
    requires RightChild(i) < |h| ==> Le(h[i].key, h[RightChild(i)].key)
    ensures HeapOrdered(h)
  {
    forall j | 0 < j < |h| && Parent(j) == i
      ensures Le(h[i].key, h[j].key)
    {
      assert j == LeftChild(i) || j == RightChild(i);
    }
  }

  class MinHeap {
    var heap: seq<Entry>

    ghost predicate Valid()
      reads this
    {
      HeapOrdered(heap)
    }

    constructor ()
      ensures Valid() && heap == []
    {
      heap := [];
    }

    method Swap(i: nat, j: nat)
      requires i < |heap| && j < |heap|
      modifies this
      ensures heap == old(heap)[i := old(heap)[j]][j := old(heap)[i]]
      ensures multiset(heap) == multiset(old(heap))
    {
      heap := heap[i := heap[j]][j := heap[i]];
    }

    /** Appends `node` and lets it rise to its place. */
    method Insert(node: Entry)
      requires Valid()
      modifies this
      ensures Valid()
      ensures multiset(heap) == multiset(old(heap)) + multiset{node}
    {
      heap := heap + [node];
      BubbleUp(|heap| - 1);
    }

    /** Removes and returns an entry of minimal key; `None` (the source's
        `undefined`) on an empty heap, which it leaves unchanged. */
    method ExtractMin() returns (r: Option<Entry>)
      requires Valid()
      modifies this
      ensures Valid()
      ensures old(heap) == [] ==> r == None && heap == old(heap)
      ensures old(heap) != [] ==> r == Some(old(heap)[0])
      ensures old(heap) != [] ==> forall e :: e in old(heap) ==> Le(r.value.key, e.key)
      ensures old(heap) != [] ==> multiset(heap) + multiset{r.value} == multiset(old(heap))
    {
      if |heap| == 0 {
        return None;
      }
      forall e | e in heap
        ensures Le(heap[0].key, e.key)
      {
        var j :| 0 <= j < |heap| && heap[j] == e;
        RootIsMin(heap, j);
      }
      if |heap| == 1 {
        r := Some(heap[0]);
        heap := [];
        return;
      }
      var min := heap[0];
      ghost var h := heap;
      var last := heap[|heap| - 1];
      heap := [last] + heap[1..|heap| - 1];
      assert h == [min] + h[1..|h| - 1] + [last];
      BubbleDown(0);
      r := Some(min);
    }

    /** Moves the entry at `from` up while it is smaller than its parent. */
    method BubbleUp(from: nat)
      requires from < |heap| && OrderedExceptUp(heap, from)
      modifies this
      ensures Valid()
      ensures multiset(heap) == multiset(old(heap))
    {
      var i: nat := from;
      while i > 0 && Less(heap[i].key, heap[Parent(i)].key)
        invariant i < |heap| && OrderedExceptUp(heap, i)
        invariant multiset(heap) == multiset(old(heap))
        decreases i
      {
        var p := Parent(i);
        ghost var h := heap;
        Swap(i, p);
        forall j | 0 < j < |heap| && j != p
          ensures Le(heap[Parent(j)].key, heap[j].key)
        {
          if Parent(j) == p && j != i {
            LeTrans(heap[p].key, h[p].key, h[j].key);
          }
        }
        forall j | 0 < j < |heap| && Parent(j) == p && 0 < p
          ensures Le(heap[Parent(p)].key, heap[j].key)
        {
          if j != i {
            LeTrans(h[Parent(p)].key, h[p].key, h[j].key);
          }
        }
        i := p;
      }
    }

    /** Moves the entry at `from` down, swapping it with its smaller child,
        while a child is smaller than it. */
    method BubbleDown(from: nat)
      requires from < |heap| && OrderedExceptDown(heap, from)
      modifies this
      ensures Valid()
      ensures multiset(heap) == multiset(old(heap))
    {
      var i: nat := from;
      var size := |heap|;
      var minIndex := i;
      while true
        invariant size == |heap| && i < size && minIndex == i
        invariant OrderedExceptDown(heap, i)
        invariant multiset(heap) == multiset(old(heap))
        decreases size - i
      {
        var leftChild := LeftChild(i);
        var rightChild := RightChild(i);
        if leftChild < size && Less(heap[leftChild].key, heap[minIndex].key) {
          minIndex := leftChild;
        }
        if rightChild < size && Less(heap[rightChild].key, heap[minIndex].key) {
          minIndex := rightChild;
        }
        if minIndex != i {
          ghost var h := heap;
          Swap(i, minIndex);
          DownStep(h, i, minIndex);
          i := minIndex;
        } else {
          DownDone(heap, i);
          break;
        }
      }
    }

    /** Index of the first entry whose id is `nodeId`, or -1. */
    method FindIndex(nodeId: int) returns (index: int)
      ensures -1 <= index < |heap|
      ensures index == -1 <==> forall e :: e in heap ==> e.id != nodeId
      ensures index >= 0 ==> heap[index].id == nodeId
      ensures index >= 0 ==> forall j :: 0 <= j < index ==> heap[j].id != nodeId
    {
      index := 0;
      while index < |heap|
        invariant 0 <= index <= |heap|
        invariant forall j :: 0 <= j < index ==> heap[j].id != nodeId
      {
        if heap[index].id == nodeId {
          return;
        }
        index := index + 1;
      }
      index := -1;
    }

    /** Lowers the key of the first entry with id `nodeId` to `newDist` and
        lets it rise; does nothing when no entry has that id. Later entries
        with the same id are neither looked at nor changed. */
    method UpdateKey(nodeId: int, newDist: Dist)
      requires Valid()
      requires forall k :: 0 <= k < |heap| && heap[k].id == nodeId
                 && (forall j :: 0 <= j < k ==> heap[j].id != nodeId)
                 ==> Le(newDist, heap[k].key)
      modifies this
      ensures Valid()
      ensures (forall e :: e in old(heap) ==> e.id != nodeId) ==> heap == old(heap)
      ensures forall k :: 0 <= k < |old(heap)| && old(heap)[k].id == nodeId
                && (forall j :: 0 <= j < k ==> old(heap)[j].id != nodeId)
                ==> multiset(heap) == multiset(old(heap)[k := Entry(nodeId, newDist)])
      ensures (exists e :: e in old(heap) && e.id == nodeId) ==>
                exists k :: 0 <= k < |old(heap)| && old(heap)[k].id == nodeId
                  && multiset(heap) == multiset(old(heap)[k := Entry(nodeId, newDist)])
    {
      var index := FindIndex(nodeId);
      if index != -1 {
        ghost var h := heap;
        heap := heap[index := Entry(heap[index].id, newDist)];
        forall j | 0 < j < |heap| && Parent(j) == index
          ensures Le(heap[index].key, heap[j].key)
        {
          LeTrans(newDist, h[index].key, h[j].key);
        }
        forall j | 0 < j < |heap| && Parent(j) == index && 0 < index
          ensures Le(heap[Parent(index)].key, heap[j].key)
        {
          LeTrans(h[Parent(index)].key, h[index].key, h[j].key);
        }
        BubbleUp(index);
      }
    }

    method IsEmpty() returns (b: bool)
      ensures b <==> |heap| == 0
    {
      b := |heap| == 0;
    }

    /** A new heap holding the same entries; nothing is shared with this one. */
    method Copy() returns (c: MinHeap)
      ensures fresh(c) && c.heap == heap
    {
      c := new MinHeap();
      c.heap := heap;
    }

    /** The entries in heap order, as a value. */
    method ToArray() returns (a: seq<Entry>)
      ensures a == heap && multiset(a) == multiset(heap)
    {
      a := heap;
    }
  }
}
