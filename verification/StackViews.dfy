/** What a caller can see of its handles, iterators and snapshot maps: plain sequences of values. Every operation
    on the shared, reference-counted nodes acts on that view as an operation on independent sequences. */
module StackViews {
  import opened References
  import opened StackHeap
  import opened StackWorld
  import opened StackRuns

  /** A handle the caller owns: how many releases it owes, and the values it shows. */
  datatype Held = Held(times: nat, values: seq<u64>)

  /** The owned handles, the rest of every iteration, and the saved pair of every slot, as values. */
  datatype View = View(
    handles: map<nat, Held>,
    iters: map<nat, seq<u64>>,
    slots: map<SlotKey, (seq<u64>, seq<u64>)>)

  function PairContents(heap: Heap, p: Pair): (seq<u64>, seq<u64>) {
    (Contents(heap, p.addressStack), Contents(heap, p.typeStack))
  }

  function HandlesIn(heap: Heap, owned: multiset<nat>): map<nat, Held> {
    map a | a in owned :: Held(owned[a], Contents(heap, At(a)))
  }

  function ItersIn(heap: Heap, iters: map<nat, Handle>): map<nat, seq<u64>> {
    map i | i in iters :: Contents(heap, iters[i])
  }

  function SlotsIn(heap: Heap, slots: map<SlotKey, Pair>): map<SlotKey, (seq<u64>, seq<u64>)> {
    map s | s in slots :: PairContents(heap, slots[s])
  }

  function ViewOf(w: World): View {
    View(HandlesIn(w.heap, w.owned), ItersIn(w.heap, w.iters), SlotsIn(w.heap, w.slots))
  }

  // ---------------------------------------------------------------- the operations on values

  /** The caller is given `h`, which shows `values`. */
  function Give(handles: map<nat, Held>, h: Handle, values: seq<u64>): map<nat, Held> {
    if !h.At? then handles
    else handles[h.addr := Held(if h.addr in handles then handles[h.addr].times + 1 else 1, values)]
  }

  /** The caller gives `h` back. */
  function Take(handles: map<nat, Held>, h: Handle): map<nat, Held> {
    if !h.At? || h.addr !in handles then handles
    else if handles[h.addr].times <= 1 then handles - {h.addr}
    else handles[h.addr := Held(handles[h.addr].times - 1, handles[h.addr].values)]
  }

  function OtherSlots<T>(slots: map<SlotKey, T>, m: nat): map<SlotKey, T> {
    map s | s in slots && s.owner != m :: slots[s]
  }

  /** The handles an operation returns. */
  function Returned(w: World, op: Op): (Handle, Handle) {
    match op
    case Create => (At(w.allocs), Null)
    case Push(_, _) => (At(w.allocs), Null)
    case Pop(h) => (PopResult(w.heap, h), Null)
    case Load(m, k) =>
      if SlotKey(m, k) !in w.slots then (Null, Null) else
        var p := LoadResult(w, SlotKey(m, k));
        (p.addressStack, p.typeStack)
    case _ => (Null, Null)
  }

  /** What the caller owns after an operation that returned `r`. Arguments are read in `heap`, at the time of
      the call; popping an empty stack gives nothing. */
  function HandlesNext(v: View, op: Op, heap: Heap, r: (Handle, Handle)): map<nat, Held> {
    match op
    case Create => Give(v.handles, r.0, [])
    case Push(h, x) => Give(v.handles, r.0, [x] + Contents(heap, h))
    case Pop(h) => if Contents(heap, h) == [] then v.handles else Give(v.handles, r.0, Contents(heap, h)[1..])
    case Destroy(h) => Take(v.handles, h)
    case Load(m, k) =>
      if SlotKey(m, k) !in v.slots then v.handles else
        var seen := v.slots[SlotKey(m, k)];
        Give(Give(v.handles, r.0, seen.0), r.1, seen.1)
    case _ => v.handles
  }

  function ItersNext(iters: map<nat, seq<u64>>, op: Op, heap: Heap): map<nat, seq<u64>> {
    match op
    case IterCreate(i, h) => iters[i := Contents(heap, h)]
    case IterNext(i) => if i !in iters || iters[i] == [] then iters else iters[i := iters[i][1..]]
    case IterDestroy(i) => iters - {i}
    case _ => iters
  }

  function SlotsNext(slots: map<SlotKey, (seq<u64>, seq<u64>)>, op: Op, heap: Heap)
    : map<SlotKey, (seq<u64>, seq<u64>)>
  {
    match op
    case Save(m, k, a, t) => slots[SlotKey(m, k) := (Contents(heap, a), Contents(heap, t))]
    case Remove(m, k) => slots - {SlotKey(m, k)}
    case MapDestroy(m, _) => OtherSlots(slots, m)
    case _ => slots
  }

  function ViewNext(v: View, op: Op, heap: Heap, r: (Handle, Handle)): View {
    View(HandlesNext(v, op, heap, r), ItersNext(v.iters, op, heap), SlotsNext(v.slots, op, heap))
  }

  // ---------------------------------------------------------------- who holds what after an operation

  /** The caller's ownership after an operation. */
  lemma OwnedAfter(w: World, op: Op)
    requires Numbered(w) && Legal(w, op)
    ensures op.Create? || op.Push? ==> Next(w, op).owned == w.owned + Own(At(w.allocs))
    ensures op.Pop? ==>
              Next(w, op).owned == if Terminal(w.heap, op.h) then w.owned else w.owned + Own(PopResult(w.heap, op.h))
    ensures op.Destroy? ==> Next(w, op).owned == w.owned - Own(op.h)
    ensures op.Load? ==>
              var s := SlotKey(op.m, op.key);
              Next(w, op).owned == if s !in w.slots then w.owned else w.owned + OwnPair(LoadResult(w, s))
    ensures !op.Create? && !op.Push? && !op.Pop? && !op.Destroy? && !op.Load? ==> Next(w, op).owned == w.owned
  {
    hide Allocated, Destroyed, IterCreated, IterAdvanced, IterDestroyed, Saved, DropSlot, DropSlots, StaysWithout;
    hide Retain, RetainPair;
  }

  /** The iterators after an operation: all but the one it names are untouched. */
  lemma ItersAfter(w: World, op: Op)
    requires Numbered(w) && Legal(w, op)
    ensures op.IterCreate? ==> Next(w, op).iters == w.iters[op.iter := OrEmpty(op.h)]
    ensures op.IterNext? ==>
              Next(w, op).iters == if Terminal(w.heap, w.iters[op.iter]) then w.iters
                                   else w.iters[op.iter := OrEmpty(w.heap[w.iters[op.iter].addr].next)]
    ensures op.IterDestroy? ==> Next(w, op).iters == w.iters - {op.iter}
    ensures !op.IterCreate? && !op.IterNext? && !op.IterDestroy? ==> Next(w, op).iters == w.iters
  {
    hide Allocated, Popped, Destroyed, IterCreated, IterAdvanced, IterDestroyed, Saved, Loaded, DropSlot, DropSlots;
  }

  /** The slots after an operation: the named slot or map changes, no other. */
  lemma SlotsAfter(w: World, op: Op)
    requires Inv(w) && Legal(w, op)
    ensures op.Save? ==> Next(w, op).slots == w.slots[SlotKey(op.m, op.key) := Pair(op.addressStack, op.typeStack)]
    ensures op.Remove? ==> Next(w, op).slots == w.slots - {SlotKey(op.m, op.key)}
    ensures op.MapDestroy? ==> Next(w, op).slots == OtherSlots(w.slots, op.m)
    ensures !op.Save? && !op.Remove? && !op.MapDestroy? ==> Next(w, op).slots == w.slots
  {
    hide Allocated, Popped, Destroyed, IterCreated, IterAdvanced, IterDestroyed, Saved, Loaded, DropSlot, DropSlots;
    hide Counted, External;
    if op.MapDestroy? {
      MapDestroySlots(w, op.m, op.order);
    }
  }

  lemma MapDestroySlots(w: World, m: nat, order: seq<u32>)
    requires Inv(w) && Legal(w, MapDestroy(m, order))
    ensures DropSlots(w, m, order).slots == OtherSlots(w.slots, m)
  {
    hide Counted, External, DropSlot, DropSlots;
    DropSlotsInv(w, m, order);
    var dropped := set k | k in order :: SlotKey(m, k);
    forall s | s in w.slots ensures s.owner == m <==> s in dropped {
      assert s == SlotKey(s.owner, s.key);
    }
  }

  /** Handles live before and after a step show the same values. */
  lemma StepPersistence(w: World, op: Op)
    requires Inv(w) && Legal(w, op)
    ensures forall h {:trigger Contents(Next(w, op).heap, h)} ::
              Live(w.heap, h) && Live(Next(w, op).heap, h) ==>
                Contents(Next(w, op).heap, h) == Contents(w.heap, h)
  {
    hide Counted, External, Next, Legal;
    StepInv(w, op);
    StepEvolves(w, op);
    forall h | Live(w.heap, h) && Live(Next(w, op).heap, h)
      ensures Contents(Next(w, op).heap, h) == Contents(w.heap, h)
    {
      Persistence(w, Next(w, op), h);
    }
  }

  /** One step down the chain: the top value, then what is seen from the next node. */
  lemma NextSeen(heap: Heap, h: Handle)
    requires Closed(heap) && Live(heap, h)
    ensures Terminal(heap, h) <==> Contents(heap, h) == []
    ensures !Terminal(heap, h) ==>
              var next := OrEmpty(heap[h.addr].next);
              Live(heap, next) && Contents(heap, next) == Contents(heap, h)[1..]
  {}

  lemma NullIsEmpty(heap: Heap, h: Handle)
    ensures Contents(heap, OrEmpty(h)) == Contents(heap, h)
    ensures Live(heap, h) ==> Live(heap, OrEmpty(h))
  {}

  // ---------------------------------------------------------------- what is seen after an operation

  /** A new reference to `h` adds it to what the caller sees. */
  lemma HandlesGive(heap: Heap, owned: multiset<nat>, h: Handle)
    ensures HandlesIn(heap, owned + Own(h)) == Give(HandlesIn(heap, owned), h, Contents(heap, h))
  {
    hide Contents, NextIsOlder;
    if !h.At? {
      assert owned + Own(h) == owned;
    } else {
      var more := owned + Own(h);
      assert forall a :: a in more <==> a in owned || a == h.addr;
      assert forall a :: a != h.addr ==> more[a] == owned[a];
    }
  }

  lemma HandlesTake(heap: Heap, owned: multiset<nat>, h: Handle)
    requires Own(h) <= owned
    ensures HandlesIn(heap, owned - Own(h)) == Take(HandlesIn(heap, owned), h)
  {
    hide Contents;
    if !h.At? {
      assert owned - Own(h) == owned;
    }
  }

  lemma HandlesSame(heap: Heap, heap': Heap, owned: multiset<nat>)
    requires forall a :: a in owned ==> Contents(heap', At(a)) == Contents(heap, At(a))
    ensures HandlesIn(heap', owned) == HandlesIn(heap, owned)
  {
    hide Contents;
  }

  lemma ItersSame(heap: Heap, heap': Heap, iters: map<nat, Handle>)
    requires forall i :: i in iters ==> Contents(heap', iters[i]) == Contents(heap, iters[i])
    ensures ItersIn(heap', iters) == ItersIn(heap, iters)
  {
    hide Contents;
  }

  lemma ItersBind(heap: Heap, heap': Heap, iters: map<nat, Handle>, i: nat, h: Handle)
    requires forall j :: j in iters && j != i ==> Contents(heap', iters[j]) == Contents(heap, iters[j])
    ensures ItersIn(heap', iters[i := h]) == ItersIn(heap, iters)[i := Contents(heap', h)]
    ensures ItersIn(heap', iters - {i}) == ItersIn(heap, iters) - {i}
  {
    hide Contents;
  }

  lemma SlotsSame(heap: Heap, heap': Heap, slots: map<SlotKey, Pair>)
    requires forall s :: s in slots ==> PairContents(heap', slots[s]) == PairContents(heap, slots[s])
    ensures SlotsIn(heap', slots) == SlotsIn(heap, slots)
  {
    hide PairContents;
  }

  lemma SlotsBind(heap: Heap, heap': Heap, slots: map<SlotKey, Pair>, s: SlotKey, p: Pair)
    requires forall q :: q in slots && q != s ==> PairContents(heap', slots[q]) == PairContents(heap, slots[q])
    ensures SlotsIn(heap', slots[s := p]) == SlotsIn(heap, slots)[s := PairContents(heap', p)]
    ensures SlotsIn(heap', slots - {s}) == SlotsIn(heap, slots) - {s}
  {
    hide PairContents;
  }

  lemma SlotsOther(heap: Heap, slots: map<SlotKey, Pair>, m: nat)
    ensures SlotsIn(heap, OtherSlots(slots, m)) == OtherSlots(SlotsIn(heap, slots), m)
  {
    hide PairContents;
  }

  lemma OwnedIsLive(w: World, h: Handle)
    requires Inv(w) && Own(h) <= w.owned
    ensures Live(w.heap, h)
  {
    hide Counted, Refs, SlotRefs;
    HeldIsLive(w.heap, External(w), h);
  }

  /** What is held before and after a step shows the same values. */
  lemma OwnedPersist(w: World, op: Op)
    requires Inv(w) && Legal(w, op)
    ensures forall a :: a in w.owned && a in Next(w, op).owned ==>
              Contents(Next(w, op).heap, At(a)) == Contents(w.heap, At(a))
  {
    hide Counted, External, Next, Legal, Contents, Numbered;
    StepInv(w, op);
    StepPersistence(w, op);
    forall a | a in w.owned && a in Next(w, op).owned
      ensures Contents(Next(w, op).heap, At(a)) == Contents(w.heap, At(a))
    {
      OwnedIsLive(w, At(a));
      OwnedIsLive(Next(w, op), At(a));
    }
  }

  lemma ItersPersist(w: World, op: Op)
    requires Inv(w) && Legal(w, op)
    ensures forall i :: i in w.iters && i in Next(w, op).iters && Next(w, op).iters[i] == w.iters[i] ==>
              Contents(Next(w, op).heap, w.iters[i]) == Contents(w.heap, w.iters[i])
  {
    hide Counted, External, Next, Legal, Contents, Numbered, Live, Closed;
    StepInv(w, op);
    StepPersistence(w, op);
    HeldAreLive(w);
    HeldAreLive(Next(w, op));
  }

  lemma SlotsPersist(w: World, op: Op)
    requires Inv(w) && Legal(w, op)
    ensures forall s :: s in w.slots && s in Next(w, op).slots && Next(w, op).slots[s] == w.slots[s] ==>
              PairContents(Next(w, op).heap, w.slots[s]) == PairContents(w.heap, w.slots[s])
  {
    hide Counted, External, Next, Legal, Contents, Numbered, Live, Closed;
    StepInv(w, op);
    StepPersistence(w, op);
    HeldAreLive(w);
    HeldAreLive(Next(w, op));
  }

  // ---------------------------------------------------------------- refinement, one operation at a time

  lemma AllocatedSeen(w: World, node: Node)
    requires Numbered(w) && Live(w.heap, node.next)
    ensures w.allocs in Allocated(w, node).heap && Allocated(w, node).heap[w.allocs] == node
    ensures Live(Allocated(w, node).heap, node.next)
  {}

  /** The values a new node shows. */
  lemma NewSeen(w: World, op: Op)
    requires Inv(w) && Legal(w, op) && (op.Create? || op.Push?)
    ensures Contents(Next(w, op).heap, At(w.allocs)) == if op.Create? then [] else [op.value] + Contents(w.heap, op.h)
  {
    hide Counted, External, Allocated, NextIsOlder;
    StepPersistence(w, op);
    AllocatedSeen(w, if op.Create? then Node(0, Null, 1, true) else Node(op.value, op.h, 1, false));
  }

  /** What popping a stack that is not empty yields. */
  lemma PoppedSeen(w: World, h: Handle)
    requires Inv(w) && Live(w.heap, h) && !Terminal(w.heap, h)
    ensures Contents(w.heap, h) != []
    ensures Contents(Next(w, Pop(h)).heap, PopResult(w.heap, h)) == Contents(w.heap, h)[1..]
  {
    hide Counted, External;
    HeldAreLive(w);
    StepPersistence(w, Pop(h));
    NextSeen(w.heap, h);
  }

  /** What loading an occupied slot yields. */
  lemma LoadedSeen(w: World, m: nat, k: u32)
    requires Inv(w) && Legal(w, Load(m, k)) && SlotKey(m, k) in w.slots
    ensures PairContents(Next(w, Load(m, k)).heap, LoadResult(w, SlotKey(m, k)))
            == PairContents(w.heap, w.slots[SlotKey(m, k)])
  {
    hide Counted, External, Contents, Retain, Refs, SlotRefs;
    var s := SlotKey(m, k);
    StepPersistence(w, Load(m, k));
    SlotIsLive(w, s);
    NullIsEmpty(w.heap, w.slots[s].addressStack);
    NullIsEmpty(w.heap, w.slots[s].typeStack);
  }

  /** Giving handles: what was held before shows what it showed, the new reference adds `h`. */
  lemma GivenRefines(w: World, op: Op, h: Handle)
    requires Inv(w) && Legal(w, op) && Next(w, op).owned == w.owned + Own(h)
    ensures HandlesIn(Next(w, op).heap, Next(w, op).owned)
            == Give(HandlesIn(w.heap, w.owned), h, Contents(Next(w, op).heap, h))
  {
    hide Counted, External, Numbered, Next, Legal, Contents, Give, HandlesIn;
    OwnedPersist(w, op);
    HandlesSame(w.heap, Next(w, op).heap, w.owned);
    HandlesGive(Next(w, op).heap, w.owned, h);
  }

  lemma GivenPairRefines(w: World, op: Op, p: Pair)
    requires Inv(w) && Legal(w, op) && Next(w, op).owned == w.owned + OwnPair(p)
    ensures var heap' := Next(w, op).heap;
            var once := Give(HandlesIn(w.heap, w.owned), p.addressStack, Contents(heap', p.addressStack));
            HandlesIn(heap', Next(w, op).owned) == Give(once, p.typeStack, Contents(heap', p.typeStack))
  {
    hide Counted, External, Numbered, Next, Legal, Contents, Give, HandlesIn, Own;
    OwnedPersist(w, op);
    HandlesSame(w.heap, Next(w, op).heap, w.owned);
    HandlesGive(Next(w, op).heap, w.owned, p.addressStack);
    HandlesGive(Next(w, op).heap, w.owned + Own(p.addressStack), p.typeStack);
    assert w.owned + OwnPair(p) == w.owned + Own(p.addressStack) + Own(p.typeStack);
  }

  lemma DestroyRefines(w: World, h: Handle)
    requires Inv(w) && Legal(w, Destroy(h)) && Next(w, Destroy(h)).owned == w.owned - Own(h)
    ensures HandlesIn(Next(w, Destroy(h)).heap, Next(w, Destroy(h)).owned) == Take(HandlesIn(w.heap, w.owned), h)
  {
    hide Counted, External, Numbered, Next, Contents, Take, HandlesIn;
    OwnedPersist(w, Destroy(h));
    HandlesSame(w.heap, Next(w, Destroy(h)).heap, w.owned - Own(h));
    HandlesTake(w.heap, w.owned, h);
  }

  lemma SameHandlesRefine(w: World, op: Op)
    requires Inv(w) && Legal(w, op) && Next(w, op).owned == w.owned
    ensures HandlesIn(Next(w, op).heap, Next(w, op).owned) == HandlesIn(w.heap, w.owned)
  {
    hide Counted, External, Numbered, Next, Legal, Contents, HandlesIn;
    OwnedPersist(w, op);
    HandlesSame(w.heap, Next(w, op).heap, w.owned);
  }

  lemma HandlesRefine(w: World, op: Op)
    requires Inv(w) && Legal(w, op)
    ensures ViewOf(Next(w, op)).handles == HandlesNext(ViewOf(w), op, w.heap, Returned(w, op))
  {
    hide Counted, External, Numbered, Next, Closed, Contents, Give, Take, HandlesIn, ItersIn, Own, StaysWithout;
    hide PopResult;
    OwnedAfter(w, op);
    match op
    case Create =>
      NewSeen(w, op);
      GivenRefines(w, op, At(w.allocs));
    case Push(_, _) =>
      NewSeen(w, op);
      GivenRefines(w, op, At(w.allocs));
    case Pop(h) =>
      if Terminal(w.heap, h) {
        TerminalSeen(w.heap, h);
        SameHandlesRefine(w, op);
      } else {
        PoppedSeen(w, h);
        GivenRefines(w, op, PopResult(w.heap, h));
      }
    case Destroy(h) => DestroyRefines(w, h);
    case Load(m, k) =>
      if SlotKey(m, k) in w.slots {
        LoadedSeen(w, m, k);
        GivenPairRefines(w, op, LoadResult(w, SlotKey(m, k)));
      } else {
        SameHandlesRefine(w, op);
      }
    case _ => SameHandlesRefine(w, op);
  }

  lemma TerminalSeen(heap: Heap, h: Handle)
    requires Terminal(heap, h)
    ensures Contents(heap, h) == []
  {}

  lemma IterCreateRefines(w: World, i: nat, h: Handle)
    requires Inv(w) && Legal(w, IterCreate(i, h))
    ensures ViewOf(Next(w, IterCreate(i, h))).iters == ItersNext(ViewOf(w).iters, IterCreate(i, h), w.heap)
  {
    hide Counted, External, Numbered, Next, Closed, Contents, HandlesIn, SlotsIn, ItersIn;
    var op := IterCreate(i, h);
    ItersAfter(w, op);
    ItersPersist(w, op);
    ItersBind(w.heap, Next(w, op).heap, w.iters, i, OrEmpty(h));
    NullIsEmpty(w.heap, h);
    StartSeen(w, i, h);
  }

  /** What an iterator starts from is still seen after it was created. */
  lemma StartSeen(w: World, i: nat, h: Handle)
    requires Inv(w) && Legal(w, IterCreate(i, h))
    ensures Contents(Next(w, IterCreate(i, h)).heap, OrEmpty(h)) == Contents(w.heap, OrEmpty(h))
  {
    hide Counted, External, Contents, Closed;
    StepPersistence(w, IterCreate(i, h));
  }

  lemma IterNextRefines(w: World, i: nat)
    requires Inv(w) && Legal(w, IterNext(i))
    ensures ViewOf(Next(w, IterNext(i))).iters == ItersNext(ViewOf(w).iters, IterNext(i), w.heap)
  {
    hide Counted, External, Numbered, Next, Closed, Contents, HandlesIn, SlotsIn, Live;
    var op := IterNext(i);
    StepInv(w, op);
    ItersAfter(w, op);
    ItersPersist(w, op);
    HeldAreLive(w);
    NextSeen(w.heap, w.iters[i]);
    if Terminal(w.heap, w.iters[i]) {
      ItersSame(w.heap, Next(w, op).heap, w.iters);
    } else {
      var next := OrEmpty(w.heap[w.iters[i].addr].next);
      HeldAreLive(Next(w, op));
      assert Next(w, op).iters[i] == next;
      StepPersistence(w, op);
      ItersBind(w.heap, Next(w, op).heap, w.iters, i, next);
    }
  }

  lemma ItersRefine(w: World, op: Op)
    requires Inv(w) && Legal(w, op)
    ensures ViewOf(Next(w, op)).iters == ItersNext(ViewOf(w).iters, op, w.heap)
  {
    hide Counted, External, Numbered, Next, Closed, Contents, HandlesIn, SlotsIn, ItersIn, StaysWithout;
    if op.IterCreate? {
      IterCreateRefines(w, op.iter, op.h);
    } else if op.IterNext? {
      IterNextRefines(w, op.iter);
    } else {
      ItersAfter(w, op);
      ItersPersist(w, op);
      if op.IterDestroy? {
        ItersBind(w.heap, Next(w, op).heap, w.iters, op.iter, Empty);
      } else {
        ItersSame(w.heap, Next(w, op).heap, w.iters);
      }
    }
  }

  lemma SaveRefines(w: World, op: Op)
    requires Inv(w) && Legal(w, op) && op.Save?
    ensures ViewOf(Next(w, op)).slots == SlotsNext(ViewOf(w).slots, op, w.heap)
  {
    hide Counted, External, Numbered, Next, Closed, Contents, HandlesIn, SlotsIn, ItersIn, StaysWithout, Live;
    var s, p := SlotKey(op.m, op.key), Pair(op.addressStack, op.typeStack);
    SlotsAfter(w, op);
    SlotsPersist(w, op);
    SlotsBind(w.heap, Next(w, op).heap, w.slots, s, p);
    SavedInv(w, s, p);
    StepInv(w, op);
    SlotIsLive(Next(w, op), s);
    StepPersistence(w, op);
  }

  lemma SlotsRefine(w: World, op: Op)
    requires Inv(w) && Legal(w, op)
    ensures ViewOf(Next(w, op)).slots == SlotsNext(ViewOf(w).slots, op, w.heap)
  {
    hide Counted, External, Numbered, Next, Closed, Contents, HandlesIn, SlotsIn, ItersIn, PairContents, StaysWithout;
    if op.Save? {
      SaveRefines(w, op);
    } else {
      SlotsAfter(w, op);
      SlotsPersist(w, op);
      if op.Remove? {
        SlotsBind(w.heap, Next(w, op).heap, w.slots, SlotKey(op.m, op.key), Pair(Empty, Empty));
      } else {
        SlotsSame(w.heap, Next(w, op).heap, Next(w, op).slots);
        if op.MapDestroy? {
          SlotsOther(w.heap, w.slots, op.m);
        }
      }
    }
  }

  /** Refinement: an operation on shared nodes is the operation on values. In particular no operation on
      one iterator, key or handle changes what is seen through another. */
  lemma StepRefines(w: World, op: Op)
    requires Inv(w) && Legal(w, op)
    ensures ViewOf(Next(w, op)) == ViewNext(ViewOf(w), op, w.heap, Returned(w, op))
  {
    hide Inv, Legal, Next, HandlesIn, ItersIn, SlotsIn, HandlesNext, ItersNext, SlotsNext, Returned;
    HandlesRefine(w, op);
    ItersRefine(w, op);
    SlotsRefine(w, op);
  }
}
