/** The node heap behind persistent stacks: retain, recursive release, and what reference counts mean. */
module StackHeap {
  import opened References

  datatype Node = Node(value: u64, next: Handle, refCount: int, isTerminal: bool)

  /** A node is linked to a node allocated before it, so following `next` always ends. */
  predicate NextIsOlder(nodes: map<nat, Node>) {
    forall a {:trigger nodes[a]} :: a in nodes ==> nodes[a].next.At? ==> nodes[a].next.addr < a
  }

  type Heap = nodes: map<nat, Node> | NextIsOlder(nodes) witness map[]

  function Rank(h: Handle): nat {
    if h.At? then h.addr + 1 else 0
  }

  /** `h` may be dereferenced or passed where a stack is expected. */
  predicate Live(heap: Heap, h: Handle) {
    h.At? ==> h.addr in heap
  }

  /** No node points to a freed node, and an empty root points nowhere. */
  predicate Closed(heap: Heap) {
    forall a {:trigger heap[a]} :: a in heap ==>
      Live(heap, heap[a].next) && (heap[a].isTerminal ==> heap[a].next == Null)
  }

  predicate Terminal(heap: Heap, h: Handle) {
    !h.At? || h.addr !in heap || heap[h.addr].isTerminal
  }

  /** The values seen from `h`, top to bottom. */
  function Contents(heap: Heap, h: Handle): seq<u64>
    decreases Rank(h)
  {
    if Terminal(heap, h) then [] else [heap[h.addr].value] + Contents(heap, heap[h.addr].next)
  }

  /** The nodes on the chain that starts at `h`. */
  function Chain(heap: Heap, h: Handle): set<nat>
    decreases Rank(h)
  {
    if !h.At? || h.addr !in heap then {} else {h.addr} + Chain(heap, heap[h.addr].next)
  }

  function Nexts(heap: Heap): map<nat, Handle> {
    map a | a in heap :: heap[a].next
  }

  // ---------------------------------------------------------------- retain and release

  function SetCount(heap: Heap, a: nat, count: int): Heap
    requires a in heap
  {
    heap[a := heap[a].(refCount := count)]
  }

  function Retain(heap: Heap, h: Handle): (r: Heap)
    ensures r.Keys == heap.Keys
  {
    if !h.At? || h.addr !in heap then heap else SetCount(heap, h.addr, heap[h.addr].refCount + 1)
  }

  /** The maximal run of nodes down the chain from `h` that have no reference to spare. */
  function Doomed(heap: Heap, h: Handle): (doomed: set<nat>)
    ensures forall a :: a in doomed ==> a in heap && heap[a].refCount <= 1 && a < Rank(h)
    decreases Rank(h)
  {
    if !h.At? || h.addr !in heap || heap[h.addr].refCount > 1 then {}
    else {h.addr} + Doomed(heap, heap[h.addr].next)
  }

  /** What that run ends at: a node with references to spare, null or the singleton. */
  function Boundary(heap: Heap, h: Handle): (b: Handle)
    ensures Rank(b) <= Rank(h) && (b.At? && b.addr in heap ==> heap[b.addr].refCount > 1)
    decreases Rank(h)
  {
    if !h.At? || h.addr !in heap || heap[h.addr].refCount > 1 then h
    else Boundary(heap, heap[h.addr].next)
  }

  /** Give back one reference to `h`: the run is freed, its boundary loses one reference. */
  function Release(heap: Heap, h: Handle): (r: Heap)
    ensures r.Keys <= heap.Keys
  {
    var b, left := Boundary(heap, h), heap - Doomed(heap, h);
    if b.At? && b.addr in left then SetCount(left, b.addr, left[b.addr].refCount - 1) else left
  }

  ghost predicate SameShape(a: Node, b: Node) {
    a.value == b.value && a.next == b.next && a.isTerminal == b.isTerminal
  }

  /** `small` consists of nodes of `big`, up to their counts. */
  ghost predicate Prunes(big: Heap, small: Heap) {
    forall a :: a in small ==> a in big && SameShape(big[a], small[a])
  }

  lemma RetainClosed(heap: Heap, h: Handle)
    requires Closed(heap)
    ensures Closed(Retain(heap, h))
  {}

  lemma RetainPrunes(heap: Heap, h: Handle)
    ensures Prunes(heap, Retain(heap, h))
  {}

  lemma ReleasePrunes(heap: Heap, h: Handle)
    ensures Prunes(heap, Release(heap, h))
  {}

  // ---------------------------------------------------------------- the counting invariant

  /** Every count is the number of references to its node, `inside` the heap and in `refs`;
      no node is unreferenced and no reference dangles. */
  ghost predicate Balanced(heap: Heap, refs: multiset<nat>, inside: multiset<nat>) {
    && Closed(heap)
    && (forall a :: a in refs ==> a in heap)
    && (forall a {:trigger heap[a]} :: a in heap ==> heap[a].refCount == refs[a] + inside[a] >= 1)
  }

  /** The counting invariant, for the links of the heap itself and the references `refs` held outside it. */
  ghost predicate Counted(heap: Heap, refs: multiset<nat>) {
    Balanced(heap, refs, Refs(Nexts(heap)))
  }

  /** References from inside a closed heap stay inside it. */
  lemma InsideDoesNotDangle(heap: Heap)
    requires Closed(heap)
    ensures forall a :: a in Refs(Nexts(heap)) ==> a in heap
  {
    forall a | a in Refs(Nexts(heap)) ensures a in heap {
      var b := RefsSource(Nexts(heap), a);
    }
  }

  lemma NextsSetCount(heap: Heap, a: nat, count: int)
    requires a in heap
    ensures Nexts(SetCount(heap, a, count)) == Nexts(heap)
  {}

  lemma RaiseBalanced(heap: Heap, a: nat, refs: multiset<nat>, inside: multiset<nat>)
    requires Balanced(heap, refs, inside) && a in heap
    ensures Balanced(SetCount(heap, a, heap[a].refCount + 1), refs + multiset{a}, inside)
  {}

  lemma LowerBalanced(heap: Heap, a: nat, refs: multiset<nat>, inside: multiset<nat>)
    requires Balanced(heap, refs, inside) && a in refs && a in heap && heap[a].refCount > 1
    ensures Balanced(SetCount(heap, a, heap[a].refCount - 1), refs - multiset{a}, inside)
  {}

  lemma RetainCounted(heap: Heap, h: Handle, refs: multiset<nat>)
    requires Counted(heap, refs) && Live(heap, h)
    ensures Counted(Retain(heap, h), refs + Own(h))
  {
    hide Refs, Balanced;
    if h.At? {
      NextsSetCount(heap, h.addr, heap[h.addr].refCount + 1);
      RaiseBalanced(heap, h.addr, refs, Refs(Nexts(heap)));
    } else {
      assert refs + Own(h) == refs;
    }
  }

  lemma LowerCounted(heap: Heap, a: nat, refs: multiset<nat>)
    requires Counted(heap, refs) && a in refs && a in heap && heap[a].refCount > 1
    ensures Counted(SetCount(heap, a, heap[a].refCount - 1), refs - multiset{a})
  {
    hide Refs, Balanced;
    NextsSetCount(heap, a, heap[a].refCount - 1);
    LowerBalanced(heap, a, refs, Refs(Nexts(heap)));
  }

  lemma LinkIsLive(heap: Heap, refs: multiset<nat>, a: nat)
    requires Counted(heap, refs) && a in heap
    ensures Live(heap, heap[a].next)
  {}

  /** A new node owns one reference to what it was pushed on; its creator owns one to it. */
  lemma AllocateCounted(heap: Heap, a: nat, node: Node, refs: multiset<nat>)
    requires Counted(heap, refs + Own(node.next))
    requires forall b :: b in heap ==> b < a
    requires node.refCount == 1 && (node.isTerminal ==> node.next == Null)
    requires Live(heap, node.next)
    ensures Counted(heap[a := node], refs + multiset{a})
  {
    hide Refs;
    InsideDoesNotDangle(heap);
    assert Nexts(heap[a := node]) == Nexts(heap)[a := node.next];
    RefsAdd(Nexts(heap), a, node.next);
    AllocateBalanced(heap, a, node, refs, Refs(Nexts(heap)));
  }

  lemma AllocateBalanced(heap: Heap, a: nat, node: Node, refs: multiset<nat>, inside: multiset<nat>)
    requires Balanced(heap, refs + Own(node.next), inside)
    requires forall b :: b in heap ==> b < a
    requires a !in inside && Live(heap, node.next)
    requires node.refCount == 1 && (node.isTerminal ==> node.next == Null)
    ensures Balanced(heap[a := node], refs + multiset{a}, Own(node.next) + inside)
  {
    assert a !in refs + Own(node.next);
  }

  /** Freeing a node nobody else refers to turns its link into a reference held outside the heap. */
  lemma UnlinkCounted(heap: Heap, a: nat, refs: multiset<nat>)
    requires Counted(heap, refs) && a in refs && heap[a].refCount == 1
    ensures Counted(heap - {a}, refs - multiset{a} + Own(heap[a].next))
  {
    assert Nexts(heap) - {a} == Nexts(heap - {a});
    RefsSplit(Nexts(heap), a);
    forall b | b in heap && heap[b].next == At(a) ensures false {
      RefsSplit(Nexts(heap), b);
    }
    UnlinkBalanced(heap, a, refs, Refs(Nexts(heap - {a})));
  }

  lemma UnlinkBalanced(heap: Heap, a: nat, refs: multiset<nat>, inside: multiset<nat>)
    requires a in refs && a in heap && heap[a].refCount == 1
    requires forall b :: b in heap ==> heap[b].next != At(a)
    requires Balanced(heap, refs, Own(heap[a].next) + inside)
    ensures Balanced(heap - {a}, refs - multiset{a} + Own(heap[a].next), inside)
  {}

  /** Nodes above `h` play no part in its run. */
  lemma {:induction false} DoomedLocal(heap: Heap, h: Handle, other: Heap)
    requires forall a :: a < Rank(h) ==> (a in heap <==> a in other)
    requires forall a :: a < Rank(h) && a in heap ==> heap[a] == other[a]
    ensures Doomed(heap, h) == Doomed(other, h) && Boundary(heap, h) == Boundary(other, h)
    decreases Rank(h)
  {
    if h.At? && h.addr in heap && heap[h.addr].refCount <= 1 {
      DoomedLocal(heap, heap[h.addr].next, other);
    }
  }

  /** The run from a node without references to spare is that node and the run from the next one. */
  lemma RunFrom(heap: Heap, a: nat)
    requires a in heap && heap[a].refCount <= 1
    ensures Doomed(heap, At(a)) == {a} + Doomed(heap, heap[a].next)
    ensures Boundary(heap, At(a)) == Boundary(heap, heap[a].next) != At(a)
    ensures a !in Doomed(heap, heap[a].next)
  {}

  /** Releasing the last reference to a node passes the release on to the reference that node holds. */
  lemma ReleaseLast(heap: Heap, a: nat)
    requires a in heap && heap[a].refCount <= 1
    ensures Release(heap, At(a)) == Release(heap - {a}, heap[a].next)
  {
    hide Doomed, Boundary;
    RunFrom(heap, a);
    DoomedLocal(heap, heap[a].next, heap - {a});
    assert heap - {a} - Doomed(heap, heap[a].next) == heap - Doomed(heap, At(a));
  }

  /** The in-place order: the used-up node is still allocated while the reference it holds is released. */
  lemma ReleaseInPlace(heap: Heap, a: nat, count: int)
    requires a in heap && heap[a].refCount <= 1
    ensures Release(SetCount(heap, a, count), heap[a].next) - {a} == Release(heap, At(a))
    ensures a in Release(SetCount(heap, a, count), heap[a].next)
  {
    hide Doomed, Boundary;
    var lowered := SetCount(heap, a, count);
    RunFrom(heap, a);
    DoomedLocal(heap, heap[a].next, lowered);
    assert lowered - Doomed(heap, heap[a].next) - {a} == heap - Doomed(heap, At(a));
  }

  /** Releasing a reference that is not the last one, or not counted. */
  lemma ReleaseSpare(heap: Heap, h: Handle)
    ensures !h.At? ==> Release(heap, h) == heap
    ensures h.At? && h.addr in heap && heap[h.addr].refCount > 1 ==>
              Release(heap, h) == SetCount(heap, h.addr, heap[h.addr].refCount - 1)
  {
    assert heap - {} == heap;
  }

  /** Releasing keeps the counting invariant: the reference given back is gone, nothing else changed hands. */
  lemma {:induction false} ReleaseCounted(heap: Heap, h: Handle, refs: multiset<nat>)
    requires Counted(heap, refs) && Own(h) <= refs
    ensures Counted(Release(heap, h), refs - Own(h))
    decreases Rank(h)
  {
    hide Refs, Release, Closed;
    if !h.At? {
      ReleaseSpare(heap, h);
      assert refs - Own(h) == refs;
    } else {
      var a := h.addr;
      assert a in refs;
      if heap[a].refCount > 1 {
        ReleaseSpare(heap, h);
        LowerCounted(heap, a, refs);
      } else {
        ReleaseLast(heap, a);
        UnlinkCounted(heap, a, refs);
        ReleaseCounted(heap - {a}, heap[a].next, refs - multiset{a} + Own(heap[a].next));
        assert refs - multiset{a} + Own(heap[a].next) - Own(heap[a].next) == refs - multiset{a};
      }
    }
  }
}
