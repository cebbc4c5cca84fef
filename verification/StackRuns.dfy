/** What holds over every run of the stack library that respects its ownership rules. */
module StackRuns {
  import opened References
  import opened StackHeap
  import opened Reclamation
  import opened StackWorld

  ghost predicate LegalRun(w: World, ops: seq<Op>)
    requires Numbered(w)
    decreases |ops|
  {
    ops == [] || (Legal(w, ops[0]) && LegalRun(Next(w, ops[0]), ops[1..]))
  }

  ghost function Run(w: World, ops: seq<Op>): World
    requires Numbered(w) && LegalRun(w, ops)
    decreases |ops|
  {
    if ops == [] then w else Run(Next(w, ops[0]), ops[1..])
  }

  /** Nodes keep their shape for life, and numbers of freed nodes are not used again. */
  ghost predicate Evolves(w: World, w': World) {
    && w.allocs <= w'.allocs
    && forall a :: a in w'.heap && a < w.allocs ==> a in w.heap && SameShape(w.heap[a], w'.heap[a])
  }

  lemma {:induction false} DropSlotsPrunes(w: World, m: nat, order: seq<u32>)
    ensures Prunes(w.heap, DropSlots(w, m, order).heap)
    decreases |order|
  {
    hide DropSlot;
    if order != [] {
      DropSlotPrunes(w, SlotKey(m, order[0]));
      DropSlotsPrunes(DropSlot(w, SlotKey(m, order[0])), m, order[1..]);
    }
  }

  lemma RetainPairPrunes(heap: Heap, p: Pair)
    ensures Prunes(heap, RetainPair(heap, p))
  {
    hide Retain;
    RetainPrunes(heap, p.addressStack);
    RetainPrunes(Retain(heap, p.addressStack), p.typeStack);
  }

  lemma AdvancedPrunes(w: World, i: nat)
    requires i in w.iters
    ensures Prunes(w.heap, IterAdvanced(w, i).heap)
  {
    hide Retain, Release;
    if !Terminal(w.heap, w.iters[i]) {
      var next := OrEmpty(w.heap[w.iters[i].addr].next);
      RetainPrunes(w.heap, next);
      ReleasePrunes(Retain(w.heap, next), w.iters[i]);
    }
  }

  lemma AllocatedPrunes(w: World, node: Node)
    requires Numbered(w) && (node.next.At? ==> node.next.addr < w.allocs)
    ensures Evolves(w, Allocated(w, node))
  {
    hide Retain;
    RetainPrunes(w.heap[w.allocs := node], node.next);
  }

  lemma SavedPrunes(w: World, s: SlotKey, p: Pair)
    ensures Prunes(w.heap, Saved(w, s, p).heap)
  {
    hide RetainPair, DropSlot;
    DropSlotPrunes(w, s);
    RetainPairPrunes(DropSlot(w, s).heap, p);
  }

  lemma StepEvolves(w: World, op: Op)
    requires Numbered(w) && Legal(w, op)
    ensures Evolves(w, Next(w, op))
  {
    hide Retain, Release, DropSlot, DropSlots, RetainPair, Saved, IterAdvanced, Allocated;
    match op
    case Create => AllocatedPrunes(w, Node(0, Null, 1, true));
    case Push(h, v) => AllocatedPrunes(w, Node(v, h, 1, false));
    case Pop(h) => if !Terminal(w.heap, h) { RetainPrunes(w.heap, w.heap[h.addr].next); }
    case Destroy(h) => ReleasePrunes(w.heap, h);
    case IterCreate(i, h) => RetainPrunes(w.heap, OrEmpty(h));
    case IterNext(i) => AdvancedPrunes(w, i);
    case IterDestroy(i) => ReleasePrunes(w.heap, w.iters[i]);
    case MapCreate(m) =>
    case Save(m, k, a, t) => SavedPrunes(w, SlotKey(m, k), Pair(a, t));
    case Load(m, k) =>
      if SlotKey(m, k) in w.slots { RetainPairPrunes(w.heap, LoadResult(w, SlotKey(m, k))); }
    case Remove(m, k) => DropSlotPrunes(w, SlotKey(m, k));
    case MapDestroy(m, order) => DropSlotsPrunes(w, m, order);
  }

  lemma {:induction false} RunInv(w: World, ops: seq<Op>)
    requires Inv(w) && LegalRun(w, ops)
    ensures Inv(Run(w, ops)) && Evolves(w, Run(w, ops))
    decreases |ops|
  {
    hide Counted, External, Next, Legal;
    if ops != [] {
      StepInv(w, ops[0]);
      StepEvolves(w, ops[0]);
      RunInv(Next(w, ops[0]), ops[1..]);
    }
  }

  lemma StartInv()
    ensures Inv(START)
  {
    RefsSize<nat>(map[]);
    RefsSize<SlotKey>(map[]);
    assert Refs<nat>(map[]) == multiset{} && Refs<SlotKey>(map[]) == multiset{};
    assert AddressHandles(map[]) == map[] && TypeHandles(map[]) == map[];
    assert Nexts(map[]) == map[];
  }

  // ---------------------------------------------------------------- reference counts

  /** After any legal run, every count is the number of nodes linked to the node, plus the handles to it
      the caller still owns, plus the iterators standing on it, plus the map slots holding it. */
  lemma RunCountsReferences(ops: seq<Op>, a: nat)
    requires LegalRun(START, ops)
    requires a in Run(START, ops).heap
    ensures var w := Run(START, ops);
            w.heap[a].refCount == |Pointing(Nexts(w.heap), a)| + w.owned[a] + |Pointing(w.iters, a)|
                                  + |Pointing(AddressHandles(w.slots), a)| + |Pointing(TypeHandles(w.slots), a)|
  {
    hide Refs, Pointing;
    StartInv();
    RunInv(START, ops);
    var w := Run(START, ops);
    RefsCount(Nexts(w.heap), a);
    RefsCount(w.iters, a);
    RefsCount(AddressHandles(w.slots), a);
    RefsCount(TypeHandles(w.slots), a);
  }

  ghost function Outstanding(w: World): nat {
    |w.heap| + |w.owned| + |w.iters| + 2 * |w.slots|
  }

  /** No count exceeds the number of references that exist, so a program that holds fewer than
      `INT_MAX` of them never overflows a count. */
  lemma CountsFit(w: World, a: nat)
    requires Inv(w) && a in w.heap
    ensures 1 <= w.heap[a].refCount <= Outstanding(w)
  {
    hide Refs;
    RefsSize(Nexts(w.heap));
    RefsSize(w.iters);
    RefsSize(AddressHandles(w.slots));
    RefsSize(TypeHandles(w.slots));
    assert Nexts(w.heap).Keys == w.heap.Keys;
    assert AddressHandles(w.slots).Keys == w.slots.Keys && TypeHandles(w.slots).Keys == w.slots.Keys;
    MultiplicityBound(Refs(Nexts(w.heap)) + External(w), a);
  }

  lemma MultiplicityBound(refs: multiset<nat>, a: nat)
    ensures refs[a] <= |refs|
  {
    assert refs == refs[a := 0] + multiset{}[a := refs[a]];
  }

  // ---------------------------------------------------------------- reclamation

  /** After any legal run, the allocated nodes are exactly those that can be reached from a handle the
      caller owns, a live iterator or a map slot. */
  lemma RunReclaimsExactly(ops: seq<Op>)
    requires LegalRun(START, ops)
    ensures var w := Run(START, ops); w.heap.Keys == Reachable(w.heap, External(w))
  {
    StartInv();
    RunInv(START, ops);
    ReclamationIsExact(Run(START, ops).heap, External(Run(START, ops)));
  }

  /** Once every handle is given back, every iterator destroyed and every slot gone, no node is left. */
  lemma NothingLeaks(ops: seq<Op>)
    requires LegalRun(START, ops)
    requires var w := Run(START, ops); w.owned == multiset{} && w.iters == map[] && w.slots == map[]
    ensures Run(START, ops).heap == map[]
  {
    hide Counted;
    var w := Run(START, ops);
    RunReclaimsExactly(ops);
    RefsSize(w.iters);
    RefsSize(AddressHandles(w.slots));
    RefsSize(TypeHandles(w.slots));
    assert AddressHandles(w.slots) == map[] && TypeHandles(w.slots) == map[];
    assert External(w) == multiset{};
  }

  // ---------------------------------------------------------------- persistence

  /** Everything held in a world is live in it. */
  lemma HeldAreLive(w: World)
    requires Inv(w)
    ensures forall i :: i in w.iters ==> Live(w.heap, w.iters[i])
    ensures forall s :: s in w.slots ==> Live(w.heap, w.slots[s].addressStack) && Live(w.heap, w.slots[s].typeStack)
    ensures Closed(w.heap)
  {
    hide Refs, SlotRefs;
    forall i | i in w.iters ensures Live(w.heap, w.iters[i]) {
      RefsSplit(w.iters, i);
      HeldIsLive(w.heap, External(w), w.iters[i]);
    }
    forall s | s in w.slots
      ensures Live(w.heap, w.slots[s].addressStack) && Live(w.heap, w.slots[s].typeStack)
    {
      SlotIsLive(w, s);
    }
  }

  /** Whatever happened in between, a handle that is live before and after shows the same values. */
  lemma Persistence(w: World, w': World, h: Handle)
    requires Inv(w) && Inv(w') && Evolves(w, w')
    requires Live(w.heap, h) && Live(w'.heap, h)
    ensures Contents(w.heap, h) == Contents(w'.heap, h)
  {
    hide Refs, SlotRefs;
    SeenFrom(w.heap, w'.heap, h);
  }

  lemma HeadCount(ops: seq<Op>, op: Op)
    requires ops != []
    ensures multiset(ops)[op] == (if ops[0] == op then 1 else 0) + multiset(ops[1..])[op]
  {
    assert ops == [ops[0]] + ops[1..];
  }

  lemma OwnershipStep(w: World, op: Op, a: nat)
    requires Numbered(w) && Legal(w, op)
    ensures Next(w, op).owned[a] + (if op == Destroy(At(a)) then 1 else 0) >= w.owned[a]
  {
    hide Allocated, Popped, Destroyed, IterCreated, IterAdvanced, IterDestroyed, Saved, Loaded, DropSlot, DropSlots;
  }

  /** Only destroying a handle uses up the caller's ownership of it. */
  lemma {:induction false} OwnershipStays(w: World, ops: seq<Op>, a: nat)
    requires Numbered(w) && LegalRun(w, ops)
    ensures Run(w, ops).owned[a] + multiset(ops)[Destroy(At(a))] >= w.owned[a]
    decreases |ops|
  {
    hide Next;
    if ops != [] {
      HeadCount(ops, Destroy(At(a)));
      OwnershipStep(w, ops[0], a);
      OwnershipStays(Next(w, ops[0]), ops[1..], a);
    }
  }

  /** A handle the caller owns more often than a run destroys it stays valid through the run and shows
      the same values after it, whatever else the run pushes, pops, frees, saves, removes or iterates. */
  lemma HandleSurvives(w: World, ops: seq<Op>, h: Handle)
    requires Inv(w) && LegalRun(w, ops)
    requires h.At? ==> w.owned[h.addr] > multiset(ops)[Destroy(h)]
    ensures Live(Run(w, ops).heap, h)
    ensures Contents(Run(w, ops).heap, h) == Contents(w.heap, h)
  {
    hide Refs, SlotRefs, Counted, Run, LegalRun;
    RunInv(w, ops);
    if h.At? {
      OwnershipStays(w, ops, h.addr);
      HeldIsLive(w.heap, External(w), h);
      HeldIsLive(Run(w, ops).heap, External(Run(w, ops)), h);
      Persistence(w, Run(w, ops), h);
    }
  }
}
