/** Reference counting is exact: under the counting invariant, the allocated nodes are those a tracing
    collector would keep, and the whole heap is determined by the references into it. */
module Reclamation {
  import opened References
  import opened StackHeap

  /** The nodes that can be reached from the references `refs`. */
  ghost function Reachable(heap: Heap, refs: multiset<nat>): set<nat> {
    set a | a in heap && ReachableFrom(heap, refs, a)
  }

  ghost predicate ReachableFrom(heap: Heap, refs: multiset<nat>, a: nat) {
    exists r :: r in refs && a in Chain(heap, At(r))
  }

  lemma {:induction false} ChainTransitive(heap: Heap, h: Handle, a: nat)
    requires a in Chain(heap, h)
    ensures Chain(heap, At(a)) <= Chain(heap, h)
    decreases Rank(h)
  {
    if h != At(a) {
      ChainTransitive(heap, heap[h.addr].next, a);
    }
  }

  lemma {:induction false} ChainIsAllocated(heap: Heap, h: Handle)
    ensures Chain(heap, h) <= heap.Keys
    decreases Rank(h)
  {
    if h.At? && h.addr in heap {
      ChainIsAllocated(heap, heap[h.addr].next);
    }
  }

  /** The nodes allocated after `a`. */
  ghost function Newer(heap: Heap, a: nat): set<nat> {
    set b | b in heap && b > a
  }

  /** Every node is kept by some chain of links that starts at a reference from outside. */
  lemma {:induction false} Kept(heap: Heap, refs: multiset<nat>, a: nat)
    requires Counted(heap, refs) && a in heap
    ensures ReachableFrom(heap, refs, a)
    decreases Newer(heap, a)
  {
    hide Refs, Closed;
    if a in refs {
      assert a in Chain(heap, At(a));
    } else {
      var b := RefsSource(Nexts(heap), a);
      assert heap[b].next == At(a);
      assert b in Newer(heap, a) && b !in Newer(heap, b);
      Kept(heap, refs, b);
      var r :| r in refs && b in Chain(heap, At(r));
      ChainTransitive(heap, At(r), b);
      assert a in Chain(heap, At(b)) by { assert a in Chain(heap, At(a)); }
    }
  }

  /** A node is allocated if and only if it is reachable from the references held outside the heap. */
  lemma ReclamationIsExact(heap: Heap, refs: multiset<nat>)
    requires Counted(heap, refs)
    ensures heap.Keys == Reachable(heap, refs)
  {
    forall a | a in heap ensures a in Reachable(heap, refs) {
      Kept(heap, refs, a);
    }
  }

  /** The two heaps agree on the nodes they share, counts aside. */
  ghost predicate Agree(left: Heap, right: Heap) {
    forall a {:trigger left[a], right[a]} :: a in left && a in right ==> SameShape(left[a], right[a])
  }

  /** What is seen from a handle that is live in both heaps does not depend on the heap. */
  lemma {:induction false} SeenFrom(left: Heap, right: Heap, h: Handle)
    requires Agree(left, right) && Closed(left) && Closed(right)
    requires Live(left, h) && Live(right, h)
    ensures Contents(left, h) == Contents(right, h)
    ensures Chain(left, h) == Chain(right, h)
    ensures Chain(left, h) <= left.Keys
    decreases Rank(h)
  {
    if h.At? {
      SeenFrom(left, right, left[h.addr].next);
    }
  }

  lemma SharedNodes(left: Heap, right: Heap, refs: multiset<nat>)
    requires Counted(left, refs) && Counted(right, refs) && Agree(left, right)
    ensures left.Keys <= right.Keys
  {
    hide Refs, Nexts;
    forall a | a in left ensures a in right {
      Kept(left, refs, a);
      var r :| r in refs && a in Chain(left, At(r));
      SeenFrom(left, right, At(r));
      SeenFrom(right, left, At(r));
    }
  }

  /** The references into a heap determine it: its nodes and all their counts. So no order of retains
      and releases, and no order of a map's iteration, can make a difference. */
  lemma HeapIsDetermined(left: Heap, right: Heap, refs: multiset<nat>)
    requires Counted(left, refs) && Counted(right, refs) && Agree(left, right)
    ensures left == right
  {
    hide Refs;
    SharedNodes(left, right, refs);
    SharedNodes(right, left, refs);
    assert Nexts(left) == Nexts(right) by {
      forall a | a in left ensures left[a].next == right[a].next {}
    }
  }

  /** When nodes have been freed until the counts are right again, what is left is what was reachable, in
      the heap as it was, from the references that are still held: counting agrees with tracing. */
  lemma CountingIsTracing(before: Heap, after: Heap, refs: multiset<nat>)
    requires Closed(before) && Counted(after, refs) && Prunes(before, after)
    ensures after.Keys == Reachable(before, refs)
  {
    hide Refs, Nexts, Chain;
    forall r | r in refs ensures Chain(before, At(r)) == Chain(after, At(r)) <= after.Keys {
      SeenFrom(before, after, At(r));
      SeenFrom(after, before, At(r));
    }
    forall a | a in after ensures a in Reachable(before, refs) {
      Kept(after, refs, a);
      var r :| r in refs && a in Chain(after, At(r));
      assert a in Chain(before, At(r));
    }
  }

  /** Releasing one reference frees exactly the nodes that only this reference led to. */
  lemma ReleaseFreesUnreachable(heap: Heap, h: Handle, refs: multiset<nat>)
    requires Counted(heap, refs) && Own(h) <= refs
    ensures Release(heap, h).Keys == Reachable(heap, refs - Own(h))
  {
    hide Refs, Release;
    ReleaseCounted(heap, h, refs);
    ReleasePrunes(heap, h);
    CountingIsTracing(heap, Release(heap, h), refs - Own(h));
  }

  lemma {:induction false} ChainBounds(heap: Heap, h: Handle)
    ensures forall a :: a in Chain(heap, h) ==> a < Rank(h)
    decreases Rank(h)
  {
    if h.At? && h.addr in heap {
      ChainBounds(heap, heap[h.addr].next);
    }
  }

  /** The freed run is the chain above its boundary, and each of its nodes has a count of one. */
  lemma {:induction false} DoomedIsChain(heap: Heap, h: Handle, refs: multiset<nat>)
    requires Counted(heap, refs) && Live(heap, h)
    ensures var b := Boundary(heap, h);
            && Live(heap, b)
            && Doomed(heap, h) == Chain(heap, h) - Chain(heap, b) && Chain(heap, b) <= Chain(heap, h)
            && (forall a :: a in Doomed(heap, h) ==> heap[a].refCount == 1)
    decreases Rank(h)
  {
    hide Refs, Nexts, Closed;
    ChainBounds(heap, h);
    if h.At? && heap[h.addr].refCount <= 1 {
      LinkIsLive(heap, refs, h.addr);
      ChainBounds(heap, heap[h.addr].next);
      DoomedIsChain(heap, heap[h.addr].next, refs);
    }
  }

  lemma ReleaseFrame(heap: Heap, h: Handle)
    requires Live(heap, Boundary(heap, h))
    ensures var b, r := Boundary(heap, h), Release(heap, h);
            && r.Keys == heap.Keys - Doomed(heap, h)
            && (forall a :: a in r && At(a) != b ==> r[a] == heap[a])
            && (b.At? ==>
                  && b.addr in r && r[b.addr].refCount >= 1
                  && r[b.addr] == heap[b.addr].(refCount := heap[b.addr].refCount - 1))
  {
    hide Doomed, Boundary;
  }

  /** The freed nodes are the top of the chain, down to the first node that is still referenced; each had a
      count of one. That node loses one reference, and nothing else changes. */
  lemma ReleaseIsExact(heap: Heap, h: Handle, refs: multiset<nat>)
    requires Counted(heap, refs) && Live(heap, h)
    ensures var b, r := Boundary(heap, h), Release(heap, h);
            && Doomed(heap, h) == Chain(heap, h) - Chain(heap, b) && Chain(heap, b) <= Chain(heap, h)
            && (forall a :: a in Doomed(heap, h) ==> heap[a].refCount == 1)
            && r.Keys == heap.Keys - Doomed(heap, h)
            && (forall a :: a in r && At(a) != b ==> r[a] == heap[a])
            && (b.At? ==>
                  && b.addr in r && r[b.addr].refCount >= 1
                  && r[b.addr] == heap[b.addr].(refCount := heap[b.addr].refCount - 1))
  {
    hide Doomed, Boundary, Release, Chain, Counted;
    DoomedIsChain(heap, h, refs);
    ReleaseFrame(heap, h);
  }
}
