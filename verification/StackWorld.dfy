/** The state machine of the stack library: the node heap together with everyone who holds references
    into it, which are the caller's handles, the live iterators and the slots of the snapshot maps. */
module StackWorld {
  import opened References
  import opened StackHeap
  import opened Reclamation

  datatype SlotKey = SlotKey(owner: nat, key: u32)
  datatype Pair = Pair(addressStack: Handle, typeStack: Handle)

  /** `owned` is bookkeeping: the releases the caller still owes, one for each handle it was given.
      Iterators and snapshot maps are named by a number chosen when they are created. */
  datatype World = World(
    heap: Heap,
    allocs: nat,
    owned: multiset<nat>,
    iters: map<nat, Handle>,
    maps: set<nat>,
    slots: map<SlotKey, Pair>)

  const START := World(map[], 0, multiset{}, map[], {}, map[])

  datatype Op =
    | Create
    | Push(h: Handle, value: u64)
    | Pop(h: Handle)
    | Destroy(h: Handle)
    | IterCreate(iter: nat, h: Handle)
    | IterNext(iter: nat)
    | IterDestroy(iter: nat)
    | MapCreate(m: nat)
    | Save(m: nat, key: u32, addressStack: Handle, typeStack: Handle)
    | Load(m: nat, key: u32)
    | Remove(m: nat, key: u32)
    | MapDestroy(m: nat, order: seq<u32>)  // the order in which the map is iterated

  function OrEmpty(h: Handle): Handle {
    if h == Null then Empty else h
  }

  // ---------------------------------------------------------------- who holds references

  function AddressHandles(slots: map<SlotKey, Pair>): map<SlotKey, Handle> {
    map s | s in slots :: slots[s].addressStack
  }

  function TypeHandles(slots: map<SlotKey, Pair>): map<SlotKey, Handle> {
    map s | s in slots :: slots[s].typeStack
  }

  ghost function SlotRefs(slots: map<SlotKey, Pair>): multiset<nat> {
    Refs(AddressHandles(slots)) + Refs(TypeHandles(slots))
  }

  function OwnPair(p: Pair): multiset<nat> {
    Own(p.addressStack) + Own(p.typeStack)
  }

  /** All references into the heap that are not links between nodes. */
  ghost function External(w: World): multiset<nat> {
    w.owned + Refs(w.iters) + SlotRefs(w.slots)
  }

  /** The references into the heap other than those of slot `s`. */
  ghost function Others(w: World, s: SlotKey): multiset<nat> {
    w.owned + Refs(w.iters) + SlotRefs(w.slots - {s})
  }

  /** Something other than slot `s` leads to `h`: an owned handle, an iterator or another slot. */
  ghost predicate StaysWithout(w: World, s: SlotKey, h: Handle) {
    h.At? ==> ReachableFrom(w.heap, Others(w, s), h.addr)
  }

  ghost predicate Inv(w: World) {
    && Counted(w.heap, External(w))
    && Numbered(w)
    && (forall i :: i in w.iters ==> w.iters[i] != Null)
    && (forall s :: s in w.slots ==> s.owner in w.maps)
  }

  predicate Numbered(w: World) {
    forall a :: a in w.heap ==> a < w.allocs
  }

  // ---------------------------------------------------------------- the operations

  /** What the library asks of a caller: only live stacks are passed in, only handles the caller owns are
      destroyed, a stack that is saved does not depend on the slot that is overwritten, and iterators and maps
      exist while they are used. */
  ghost predicate Legal(w: World, op: Op) {
    match op
    case Create => true
    case Push(h, _) => Live(w.heap, h)
    case Pop(h) => Live(w.heap, h)
    case Destroy(h) => Own(h) <= w.owned
    case IterCreate(i, h) => i !in w.iters && Live(w.heap, h)
    case IterNext(i) => i in w.iters
    case IterDestroy(i) => i in w.iters
    case MapCreate(m) => m !in w.maps
    case Save(m, k, a, t) => m in w.maps && StaysWithout(w, SlotKey(m, k), a) && StaysWithout(w, SlotKey(m, k), t)
    case Load(m, _) => m in w.maps
    case Remove(m, _) => m in w.maps
    case MapDestroy(m, order) =>
      && m in w.maps
      && (forall k :: k in order <==> SlotKey(m, k) in w.slots)
      && Distinct(order)
  }

  predicate Distinct(order: seq<u32>) {
    forall i, j :: 0 <= i < j < |order| ==> order[i] != order[j]
  }

  function PopResult(heap: Heap, h: Handle): Handle {
    if h.At? && Terminal(heap, h) then h
    else if Terminal(heap, h) then Empty
    else OrEmpty(heap[h.addr].next)
  }

  function ReleasePair(heap: Heap, p: Pair): Heap {
    Release(Release(heap, p.addressStack), p.typeStack)
  }

  function RetainPair(heap: Heap, p: Pair): Heap {
    Retain(Retain(heap, p.addressStack), p.typeStack)
  }

  /** The pair of a slot as `load_pair` hands it out: stored nulls become the empty stack. */
  function LoadResult(w: World, s: SlotKey): Pair
    requires s in w.slots
  {
    Pair(OrEmpty(w.slots[s].addressStack), OrEmpty(w.slots[s].typeStack))
  }

  function DropSlot(w: World, s: SlotKey): (r: World)
    ensures r == w.(heap := r.heap, slots := w.slots - {s})
    ensures r.heap.Keys <= w.heap.Keys
  {
    if s in w.slots then w.(heap := ReleasePair(w.heap, w.slots[s]), slots := w.slots - {s})
    else assert w.slots == w.slots - {s}; w
  }

  function DropSlots(w: World, m: nat, order: seq<u32>): (r: World)
    ensures r == w.(heap := r.heap, slots := r.slots)
    ensures r.heap.Keys <= w.heap.Keys
    decreases |order|
  {
    if order == [] then w else DropSlots(DropSlot(w, SlotKey(m, order[0])), m, order[1..])
  }

  function StoreSlot(w: World, s: SlotKey, p: Pair): (r: World)
    ensures r.heap.Keys == w.heap.Keys
  {
    w.(heap := RetainPair(w.heap, p), slots := w.slots[s := p])
  }

  /** A new node, owned once by the caller, that retains what it is pushed on. */
  function Allocated(w: World, node: Node): (r: World)
    requires Numbered(w) && (node.next.At? ==> node.next.addr < w.allocs)
    ensures r == w.(heap := r.heap, allocs := w.allocs + 1, owned := w.owned + multiset{w.allocs})
    ensures r.heap.Keys == w.heap.Keys + {w.allocs}
  {
    w.(heap := Retain(w.heap[w.allocs := node], node.next), allocs := w.allocs + 1,
       owned := w.owned + multiset{w.allocs})
  }

  /** `next` is handed to the caller, but nothing is when the stack is empty: the caller's own handle comes
      back, without a new reference. */
  function Popped(w: World, h: Handle): (r: World)
    ensures r == w.(heap := r.heap, owned := r.owned) && w.owned <= r.owned
    ensures r.heap.Keys == w.heap.Keys
  {
    if Terminal(w.heap, h) then w else
      var next := w.heap[h.addr].next;
      w.(heap := Retain(w.heap, next), owned := w.owned + Own(next))
  }

  function Destroyed(w: World, h: Handle): (r: World)
    ensures r == w.(heap := r.heap, owned := w.owned - Own(h))
    ensures r.heap.Keys <= w.heap.Keys
  {
    w.(heap := Release(w.heap, h), owned := w.owned - Own(h))
  }

  function IterCreated(w: World, i: nat, h: Handle): (r: World)
    ensures r == w.(heap := r.heap, iters := w.iters[i := OrEmpty(h)])
    ensures r.heap.Keys == w.heap.Keys
  {
    w.(heap := Retain(w.heap, OrEmpty(h)), iters := w.iters[i := OrEmpty(h)])
  }

  /** The next node is retained before the current one is released. */
  function IterAdvanced(w: World, i: nat): (r: World)
    requires i in w.iters
    ensures r == w.(heap := r.heap,
                    iters := if Terminal(w.heap, w.iters[i]) then w.iters
                             else w.iters[i := OrEmpty(w.heap[w.iters[i].addr].next)])
    ensures r.heap.Keys <= w.heap.Keys
  {
    if Terminal(w.heap, w.iters[i]) then w else
      var next := OrEmpty(w.heap[w.iters[i].addr].next);
      w.(heap := Release(Retain(w.heap, next), w.iters[i]), iters := w.iters[i := next])
  }

  function IterDestroyed(w: World, i: nat): (r: World)
    requires i in w.iters
    ensures r == w.(heap := r.heap, iters := w.iters - {i})
    ensures r.heap.Keys <= w.heap.Keys
  {
    w.(heap := Release(w.heap, w.iters[i]), iters := w.iters - {i})
  }

  /** The old pair is released before the new one is retained. */
  function Saved(w: World, s: SlotKey, p: Pair): (r: World)
    ensures r == w.(heap := r.heap, slots := w.slots[s := p])
    ensures r.heap.Keys <= w.heap.Keys
  {
    assert (w.slots - {s})[s := p] == w.slots[s := p];
    StoreSlot(DropSlot(w, s), s, p)
  }

  function Loaded(w: World, s: SlotKey): (r: World)
    ensures r == w.(heap := r.heap, owned := r.owned) && w.owned <= r.owned
    ensures r.heap.Keys == w.heap.Keys
  {
    if s !in w.slots then w else
      w.(heap := RetainPair(w.heap, LoadResult(w, s)), owned := w.owned + OwnPair(LoadResult(w, s)))
  }

  ghost function Next(w: World, op: Op): (r: World)
    requires Numbered(w) && Legal(w, op)
    ensures Numbered(r)
  {
    match op
    case Create => Allocated(w, Node(0, Null, 1, true))
    case Push(h, v) => Allocated(w, Node(v, h, 1, false))
    case Pop(h) => Popped(w, h)
    case Destroy(h) => Destroyed(w, h)
    case IterCreate(i, h) => IterCreated(w, i, h)
    case IterNext(i) => IterAdvanced(w, i)
    case IterDestroy(i) => IterDestroyed(w, i)
    case MapCreate(m) => w.(maps := w.maps + {m})
    case Save(m, k, a, t) => Saved(w, SlotKey(m, k), Pair(a, t))
    case Load(m, k) => Loaded(w, SlotKey(m, k))
    case Remove(m, k) => DropSlot(w, SlotKey(m, k))
    case MapDestroy(m, order) => DropSlots(w, m, order).(maps := w.maps - {m})
  }

  // ---------------------------------------------------------------- every step keeps the invariant

  /** A slot holds exactly the references of its pair. */
  lemma SlotSplit(slots: map<SlotKey, Pair>, s: SlotKey)
    requires s in slots
    ensures SlotRefs(slots) == OwnPair(slots[s]) + SlotRefs(slots - {s})
  {
    hide Refs;
    RefsSplit(AddressHandles(slots), s);
    RefsSplit(TypeHandles(slots), s);
    assert AddressHandles(slots) - {s} == AddressHandles(slots - {s});
    assert TypeHandles(slots) - {s} == TypeHandles(slots - {s});
  }

  lemma SlotAdd(slots: map<SlotKey, Pair>, s: SlotKey, p: Pair)
    requires s !in slots
    ensures SlotRefs(slots[s := p]) == OwnPair(p) + SlotRefs(slots)
  {
    hide SlotRefs;
    SlotSplit(slots[s := p], s);
    assert slots[s := p] - {s} == slots;
  }

  /** A reference held outside the heap is to a live node. */
  lemma HeldIsLive(heap: Heap, refs: multiset<nat>, h: Handle)
    requires Counted(heap, refs) && Own(h) <= refs
    ensures Live(heap, h)
  {
    hide Refs;
    assert h.At? ==> h.addr in refs;
  }

  lemma RetainPast(heap: Heap, a: nat, node: Node)
    requires node.next.At? ==> node.next.addr < a
    ensures Retain(heap[a := node], node.next) == Retain(heap, node.next)[a := node]
  {}

  lemma AllocatedInv(w: World, node: Node)
    requires Inv(w) && Live(w.heap, node.next)
    requires node.refCount == 1 && (node.isTerminal ==> node.next == Null)
    ensures (node.next.At? ==> node.next.addr < w.allocs) && Inv(Allocated(w, node))
  {
    hide Refs, SlotRefs, Counted, Retain;
    RetainCounted(w.heap, node.next, External(w));
    AllocateCounted(Retain(w.heap, node.next), w.allocs, node, External(w));
    RetainPast(w.heap, w.allocs, node);
    assert External(Allocated(w, node)) == External(w) + multiset{w.allocs};
  }

  lemma PoppedInv(w: World, h: Handle)
    requires Inv(w)
    ensures Inv(Popped(w, h))
  {
    hide Refs, SlotRefs, Counted, Release, Retain;
    if !Terminal(w.heap, h) {
      var next := w.heap[h.addr].next;
      LinkIsLive(w.heap, External(w), h.addr);
      RetainCounted(w.heap, next, External(w));
      assert External(Popped(w, h)) == External(w) + Own(next);
    }
  }

  lemma GiveBack(a: multiset<nat>, x: multiset<nat>, b: multiset<nat>, c: multiset<nat>)
    requires x <= a
    ensures a - x + b + c == a + b + c - x
  {}

  lemma DestroyedInv(w: World, h: Handle)
    requires Inv(w) && Own(h) <= w.owned
    ensures Inv(Destroyed(w, h))
  {
    hide Refs, SlotRefs, Counted, Release, Retain, Own;
    ReleaseCounted(w.heap, h, External(w));
    GiveBack(w.owned, Own(h), Refs(w.iters), SlotRefs(w.slots));
  }

  lemma IterCreatedInv(w: World, i: nat, h: Handle)
    requires Inv(w) && i !in w.iters && Live(w.heap, h)
    ensures Inv(IterCreated(w, i, h))
  {
    hide Refs, SlotRefs, Counted, Release, Retain;
    RetainCounted(w.heap, OrEmpty(h), External(w));
    RefsAdd(w.iters, i, OrEmpty(h));
    assert External(IterCreated(w, i, h)) == External(w) + Own(OrEmpty(h));
  }

  lemma Exchange(a: multiset<nat>, before: multiset<nat>, after: multiset<nat>, b: multiset<nat>, c: multiset<nat>)
    ensures a + (after + b) + c == a + (before + b) + c + after - before
  {}

  lemma IterAdvancedInv(w: World, i: nat)
    requires Inv(w) && i in w.iters
    ensures Inv(IterAdvanced(w, i))
  {
    hide Refs, SlotRefs, Counted, Release, Retain;
    if !Terminal(w.heap, w.iters[i]) {
      var at := w.iters[i];
      var next := OrEmpty(w.heap[at.addr].next);
      LinkIsLive(w.heap, External(w), at.addr);
      RefsSplit(w.iters, i);
      RefsBind(w.iters, i, next);
      RetainCounted(w.heap, next, External(w));
      ReleaseCounted(Retain(w.heap, next), at, External(w) + Own(next));
      Exchange(w.owned, Own(at), Own(next), Refs(w.iters - {i}), SlotRefs(w.slots));
    }
  }

  lemma IterDestroyedInv(w: World, i: nat)
    requires Inv(w) && i in w.iters
    ensures Inv(IterDestroyed(w, i))
  {
    hide Refs, SlotRefs, Counted, Release, Retain;
    RefsSplit(w.iters, i);
    ReleaseCounted(w.heap, w.iters[i], External(w));
    assert External(IterDestroyed(w, i)) == External(w) - Own(w.iters[i]);
  }

  lemma ReleasePairCounted(heap: Heap, p: Pair, refs: multiset<nat>)
    requires Counted(heap, refs) && OwnPair(p) <= refs
    ensures Counted(ReleasePair(heap, p), refs - OwnPair(p))
  {
    hide Counted, Release;
    ReleaseCounted(heap, p.addressStack, refs);
    ReleaseCounted(Release(heap, p.addressStack), p.typeStack, refs - Own(p.addressStack));
    assert refs - Own(p.addressStack) - Own(p.typeStack) == refs - OwnPair(p);
  }

  lemma DropSlotInv(w: World, s: SlotKey)
    requires Inv(w)
    ensures Inv(DropSlot(w, s))
  {
    hide Refs, SlotRefs, Counted, ReleasePair, OwnPair;
    if s in w.slots {
      SlotSplit(w.slots, s);
      ReleasePairCounted(w.heap, w.slots[s], External(w));
      assert External(DropSlot(w, s)) == External(w) - OwnPair(w.slots[s]);
    }
  }

  /** After the first half of a slot is released, the second can be. */
  lemma HalfReleased(w: World, s: SlotKey)
    requires Inv(w) && s in w.slots
    ensures Closed(w.heap) && Closed(Release(w.heap, w.slots[s].addressStack))
    ensures Live(Release(w.heap, w.slots[s].addressStack), w.slots[s].typeStack)
  {
    hide Refs, SlotRefs, Release;
    var p := w.slots[s];
    SlotSplit(w.slots, s);
    ReleaseCounted(w.heap, p.addressStack, External(w));
    HeldIsLive(Release(w.heap, p.addressStack), External(w) - Own(p.addressStack), p.typeStack);
  }

  lemma {:induction false} DropSlotsAppend(w: World, m: nat, order: seq<u32>, k: u32)
    ensures DropSlots(w, m, order + [k]) == DropSlot(DropSlots(w, m, order), SlotKey(m, k))
    decreases |order|
  {
    hide DropSlot;
    if order != [] {
      assert (order + [k])[1..] == order[1..] + [k];
      DropSlotsAppend(DropSlot(w, SlotKey(m, order[0])), m, order[1..], k);
    }
  }

  lemma {:induction false} DropSlotsInv(w: World, m: nat, order: seq<u32>)
    requires Inv(w)
    ensures Inv(DropSlots(w, m, order))
    ensures DropSlots(w, m, order).slots == w.slots - (set k | k in order :: SlotKey(m, k))
    decreases |order|
  {
    hide Refs, SlotRefs, Counted, Release, Retain;
    if order != [] {
      DropSlotInv(w, SlotKey(m, order[0]));
      DropSlotsInv(DropSlot(w, SlotKey(m, order[0])), m, order[1..]);
    }
  }

  lemma SlotIsLive(w: World, s: SlotKey)
    requires Inv(w) && s in w.slots
    ensures Live(w.heap, w.slots[s].addressStack) && Live(w.heap, w.slots[s].typeStack)
  {
    hide Refs, SlotRefs, Counted;
    SlotSplit(w.slots, s);
    HeldIsLive(w.heap, External(w), w.slots[s].addressStack);
    HeldIsLive(w.heap, External(w), w.slots[s].typeStack);
  }

  lemma RetainPairCounted(heap: Heap, p: Pair, refs: multiset<nat>)
    requires Counted(heap, refs) && Live(heap, p.addressStack) && Live(heap, p.typeStack)
    ensures Counted(RetainPair(heap, p), refs + OwnPair(p))
  {
    hide Counted, Retain;
    RetainCounted(heap, p.addressStack, refs);
    RetainCounted(Retain(heap, p.addressStack), p.typeStack, refs + Own(p.addressStack));
    assert refs + Own(p.addressStack) + Own(p.typeStack) == refs + OwnPair(p);
  }

  lemma StoreSlotInv(w: World, s: SlotKey, p: Pair)
    requires Inv(w) && s !in w.slots && s.owner in w.maps
    requires Live(w.heap, p.addressStack) && Live(w.heap, p.typeStack)
    ensures Inv(StoreSlot(w, s, p))
  {
    hide Refs, SlotRefs, Counted, OwnPair;
    RetainPairCounted(w.heap, p, External(w));
    SlotAdd(w.slots, s, p);
    assert External(StoreSlot(w, s, p)) == External(w) + OwnPair(p);
  }

  lemma DropSlotPrunes(w: World, s: SlotKey)
    ensures Prunes(w.heap, DropSlot(w, s).heap)
  {
    hide Release;
    if s in w.slots {
      ReleasePrunes(w.heap, w.slots[s].addressStack);
      ReleasePrunes(Release(w.heap, w.slots[s].addressStack), w.slots[s].typeStack);
    }
  }

  /** A stack survives the release of a slot if and only if something else leads to it. */
  lemma SurvivesDropExactlyWhen(w: World, s: SlotKey, h: Handle)
    requires Inv(w)
    ensures Live(DropSlot(w, s).heap, h) <==> StaysWithout(w, s, h)
  {
    hide Refs, SlotRefs, DropSlot, Nexts;
    DropSlotInv(w, s);
    DropSlotPrunes(w, s);
    CountingIsTracing(w.heap, DropSlot(w, s).heap, Others(w, s));
    forall r | r in Others(w, s) ensures Chain(w.heap, At(r)) <= w.heap.Keys {
      ChainIsAllocated(w.heap, At(r));
    }
  }

  lemma OwnedStays(w: World, s: SlotKey, h: Handle)
    requires Inv(w) && Own(h) <= w.owned
    ensures StaysWithout(w, s, h)
  {
    hide Refs, SlotRefs, DropSlot, StaysWithout;
    DropSlotInv(w, s);
    HeldIsLive(DropSlot(w, s).heap, External(DropSlot(w, s)), h);
    SurvivesDropExactlyWhen(w, s, h);
  }

  lemma FreshKeyStays(w: World, s: SlotKey, h: Handle)
    requires Inv(w) && s !in w.slots && Live(w.heap, h)
    ensures StaysWithout(w, s, h)
  {
    hide Refs, SlotRefs, StaysWithout;
    SurvivesDropExactlyWhen(w, s, h);
  }

  /** Releasing the old pair first is safe for stacks that do not depend on the slot, even when they are the
      pair that was stored there. */
  lemma SavedInv(w: World, s: SlotKey, p: Pair)
    requires Inv(w) && s.owner in w.maps
    requires StaysWithout(w, s, p.addressStack) && StaysWithout(w, s, p.typeStack)
    ensures Inv(Saved(w, s, p))
    ensures Live(DropSlot(w, s).heap, p.addressStack) && Live(DropSlot(w, s).heap, p.typeStack)
    ensures Live(w.heap, p.addressStack) && Live(w.heap, p.typeStack)
  {
    hide Refs, SlotRefs, Counted, DropSlot, StoreSlot, StaysWithout;
    DropSlotInv(w, s);
    SurvivesDropExactlyWhen(w, s, p.addressStack);
    SurvivesDropExactlyWhen(w, s, p.typeStack);
    StoreSlotInv(DropSlot(w, s), s, p);
  }

  lemma SavedSlotIsLive(w: World, s: SlotKey, p: Pair)
    requires Counted(Saved(w, s, p).heap, External(Saved(w, s, p)))
    ensures Live(DropSlot(w, s).heap, p.addressStack) && Live(DropSlot(w, s).heap, p.typeStack)
  {
    hide Refs, SlotRefs, Counted, DropSlot;
    var saved := Saved(w, s, p);
    SlotSplit(saved.slots, s);
    HeldIsLive(saved.heap, External(saved), p.addressStack);
    HeldIsLive(saved.heap, External(saved), p.typeStack);
  }

  /** Exactly when a save is safe: neither stack depends on the slot that is overwritten. A stack the caller
      owns never does, and no stack does when the key is new. */
  lemma SaveIsSafeExactlyWhen(w: World, s: SlotKey, p: Pair)
    requires Inv(w) && s.owner in w.maps
    ensures Inv(Saved(w, s, p)) <==> StaysWithout(w, s, p.addressStack) && StaysWithout(w, s, p.typeStack)
    ensures forall h | Own(h) <= w.owned || (s !in w.slots && Live(w.heap, h)) :: StaysWithout(w, s, h)
  {
    hide StaysWithout, External, Counted, Saved, DropSlot, Live;
    if Inv(Saved(w, s, p)) {
      SavedSlotIsLive(w, s, p);
      SurvivesDropExactlyWhen(w, s, p.addressStack);
      SurvivesDropExactlyWhen(w, s, p.typeStack);
    }
    if StaysWithout(w, s, p.addressStack) && StaysWithout(w, s, p.typeStack) {
      SavedInv(w, s, p);
    }
    forall h | Own(h) <= w.owned || (s !in w.slots && Live(w.heap, h)) ensures StaysWithout(w, s, h) {
      if Own(h) <= w.owned {
        OwnedStays(w, s, h);
      } else {
        FreshKeyStays(w, s, h);
      }
    }
  }

  lemma LoadedInv(w: World, s: SlotKey)
    requires Inv(w)
    ensures Inv(Loaded(w, s))
  {
    hide Refs, SlotRefs, Counted, RetainPair, OwnPair;
    if s in w.slots {
      var p := LoadResult(w, s);
      SlotIsLive(w, s);
      RetainPairCounted(w.heap, p, External(w));
      assert External(Loaded(w, s)) == External(w) + OwnPair(p);
    }
  }

  /** Every legal operation keeps the counting invariant. */
  lemma StepInv(w: World, op: Op)
    requires Inv(w) && Legal(w, op)
    ensures Inv(Next(w, op))
  {
    hide Refs, SlotRefs, Counted;
    hide Allocated, Popped, Destroyed, IterCreated, IterAdvanced, IterDestroyed, Saved, Loaded, DropSlot, DropSlots;
    match op
    case Create => AllocatedInv(w, Node(0, Null, 1, true));
    case Push(h, v) => AllocatedInv(w, Node(v, h, 1, false));
    case Pop(h) => PoppedInv(w, h);
    case Destroy(h) => DestroyedInv(w, h);
    case IterCreate(i, h) => IterCreatedInv(w, i, h);
    case IterNext(i) => IterAdvancedInv(w, i);
    case IterDestroy(i) => IterDestroyedInv(w, i);
    case MapCreate(m) => assert External(Next(w, op)) == External(w);
    case Save(m, k, a, t) => SavedInv(w, SlotKey(m, k), Pair(a, t));
    case Load(m, k) => LoadedInv(w, SlotKey(m, k));
    case Remove(m, k) => DropSlotInv(w, SlotKey(m, k));
    case MapDestroy(m, order) =>
      DropSlotsInv(w, m, order);
      assert External(Next(w, op)) == External(DropSlots(w, m, order));
  }
}
