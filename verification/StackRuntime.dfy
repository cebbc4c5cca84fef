/** The stack library as it runs: nodes, iterators and snapshot maps updated in place. Every method is
    proved against the state machine of `StackWorld`; that each dereference finds a live node is part of
    the proof, and so is that each increment of an `int` count has room. */
module StackRuntime {
  import opened References
  import opened StackHeap
  import opened Reclamation
  import opened StackWorld
  import opened StackRuns
  import opened StackViews
  import opened StackHistories

  /** A pointer to an iterator or a snapshot map, which may be null. */
  datatype Pointer = NullPointer | To(id: nat)

  /** The count of `h` can be incremented without overflowing an `int`. */
  predicate Room(heap: Heap, h: Handle) {
    h.At? && h.addr in heap ==> heap[h.addr].refCount < INT_MAX
  }

  predicate RoomForPair(heap: Heap, p: Pair) {
    Room(heap, p.addressStack) && Room(Retain(heap, p.addressStack), p.typeStack)
  }

  /** Every count has room while fewer than `INT_MAX` references exist, so no operation overflows one. */
  lemma RoomForAll(w: World, p: Pair)
    requires Inv(w) && Outstanding(w) + 1 < INT_MAX
    ensures RoomForPair(w.heap, p)
  {
    hide Counted, External, Outstanding;
    if p.addressStack.At? && p.addressStack.addr in w.heap {
      CountsFit(w, p.addressStack.addr);
    }
    if p.typeStack.At? && p.typeStack.addr in w.heap {
      CountsFit(w, p.typeStack.addr);
    }
  }

  function Sum(values: seq<u64>): nat {
    if values == [] then 0 else values[0] + Sum(values[1..])
  }

  /** The value an unsigned 32-bit variable holds for `n`. */
  function Wrap32(n: nat): u32 {
    n % U32_LIMIT
  }

  /** It is the 32-bit number congruent to `n`, which is `n` itself if that fits. */
  lemma WrapIsCongruent(n: nat)
    ensures (n - Wrap32(n)) % 0x1_0000_0000 == 0 && (n < 0x1_0000_0000 ==> Wrap32(n) == n)
  {}

  class Runtime {
    var heap: Heap
    var allocs: nat
    var iters: map<nat, Handle>
    var maps: set<nat>
    var slots: map<SlotKey, Pair>
    ghost var owned: multiset<nat>

    ghost function W(): World
      reads this
    {
      World(heap, allocs, owned, iters, maps, slots)
    }

    constructor ()
      ensures W() == START && Inv(W())
    {
      heap, allocs, iters, maps, slots, owned := map[], 0, map[], {}, map[], multiset{};
      new;
      StartInv();
    }

    // ------------------------------------------------------------ counting

    method RetainNode(h: Handle)
      requires Live(heap, h) && Room(heap, h)
      modifies `heap
      ensures heap == Retain(old(heap), h)
      ensures h.At? ==> heap[h.addr].refCount == old(heap)[h.addr].refCount + 1 <= 0x7fff_ffff
    {
      if h.At? {
        heap := heap[h.addr := heap[h.addr].(refCount := heap[h.addr].refCount + 1)];
      }
    }

    /** Frees exactly the run of nodes without references to spare, and takes one from the node after it. */
    method ReleaseNode(h: Handle)
      requires Closed(heap) && Live(heap, h)
      modifies `heap
      ensures heap == Release(old(heap), h)
      decreases Rank(h)
    {
      hide Release, Doomed, Boundary;
      if h.At? {
        var a := h.addr;
        heap := heap[a := heap[a].(refCount := heap[a].refCount - 1)];
        if heap[a].refCount <= 0 {
          assert heap == SetCount(old(heap), a, old(heap)[a].refCount - 1);
          ReleaseNode(heap[a].next);
          ReleaseInPlace(old(heap), a, old(heap)[a].refCount - 1);
          heap := heap - {a};
        } else {
          ReleaseSpare(old(heap), h);
        }
      } else {
        ReleaseSpare(heap, h);
      }
    }

    // ------------------------------------------------------------ stacks

    method StackCreate() returns (r: Handle)
      requires Inv(W())
      modifies `heap, `allocs, `owned
      ensures W() == old(Next(W(), Create)) && Inv(W())
      ensures r == At(old(allocs)) && r.addr in heap && r.addr !in old(heap) && Contents(heap, r) == []
      ensures owned == old(owned) + multiset{r.addr}
    {
      hide Counted, External, Release;
      StepInv(W(), Create);
      r := At(allocs);
      heap := heap[allocs := Node(0, Null, 1, true)];
      allocs, owned := allocs + 1, owned + multiset{allocs};
    }

    method StackPush(h: Handle, value: u64) returns (r: Handle)
      requires Inv(W()) && Live(heap, h) && Room(heap, h)
      modifies `heap, `allocs, `owned
      ensures W() == old(Next(W(), Push(h, value))) && Inv(W())
      ensures r == At(old(allocs)) && r.addr in heap && r.addr !in old(heap)
      ensures Contents(heap, r) == [value] + old(Contents(heap, h))
      ensures owned == old(owned) + multiset{r.addr}
    {
      hide Counted, External, Retain, Release;
      StepInv(W(), Push(h, value));
      PushSeen(W(), h, value);
      r := At(allocs);
      heap := heap[allocs := Node(value, h, 1, false)];
      RetainNode(h);
      allocs, owned := allocs + 1, owned + multiset{allocs};
    }

    /** The caller keeps its handle, and is given one more to the rest unless the stack was empty. */
    method StackPop(h: Handle) returns (r: Handle, value: u64)
      requires Inv(W()) && Live(heap, h)
      requires !Terminal(heap, h) ==> Room(heap, heap[h.addr].next)
      modifies `heap, `owned
      ensures W() == old(Popped(W(), h)) && Inv(W())
      ensures var seen := old(Contents(heap, h));
              && value == (if seen == [] then 0 else seen[0])
              && Contents(heap, r) == (if seen == [] then [] else seen[1..])
              && owned == (if seen == [] then old(owned) else old(owned) + Own(r))
              && (h.At? && seen == [] ==> r == h)
      ensures Live(heap, r) && r != Null && (!h.At? ==> r == Empty)
    {
      hide Counted, External, Retain, Release;
      StepInv(W(), Pop(h));
      PopSeen(W(), h);
      HeldAreLive(W());
      if !h.At? || heap[h.addr].isTerminal {
        return if h == Null then Empty else h, 0;
      }
      value := heap[h.addr].value;
      var next := heap[h.addr].next;
      RetainNode(next);
      owned := owned + Own(next);
      r := if next == Null then Empty else next;
    }

    method StackIsEmpty(h: Handle) returns (empty: bool)
      requires Live(heap, h)
      ensures empty <==> Contents(heap, h) == []
    {
      empty := !h.At? || heap[h.addr].isTerminal;
    }

    method StackTop(h: Handle) returns (value: u64)
      requires Live(heap, h)
      ensures value == if Contents(heap, h) == [] then 0 else Contents(heap, h)[0]
    {
      value := if !h.At? || heap[h.addr].isTerminal then 0 else heap[h.addr].value;
    }

    method StackSize(h: Handle) returns (count: nat)
      requires Closed(heap) && Live(heap, h)
      ensures count == |Contents(heap, h)|
    {
      var current := h;
      count := 0;
      while current.At? && !heap[current.addr].isTerminal
        invariant Live(heap, current)
        invariant count + |Contents(heap, current)| == |Contents(heap, h)|
        decreases Rank(current)
      {
        count := count + 1;
        current := heap[current.addr].next;
      }
    }

    method StackDestroy(h: Handle)
      requires Inv(W()) && Own(h) <= owned
      modifies `heap, `owned
      ensures W() == old(Destroyed(W(), h)) && Inv(W())
      ensures owned == old(owned) - Own(h)
    {
      hide Counted, External, Retain, Release;
      StepInv(W(), Destroy(h));
      HeldAreLive(W());
      OwnedIsLive(W(), h);
      ReleaseNode(h);
      owned := owned - Own(h);
    }

    // ------------------------------------------------------------ iterators

    /** `id` is where the allocator places the iterator. */
    method IteratorCreate(h: Handle, id: nat) returns (it: Pointer)
      requires Inv(W()) && Live(heap, h) && Room(heap, h) && id !in iters
      modifies `heap, `iters
      ensures it == To(id) && W() == old(IterCreated(W(), id, h)) && Inv(W())
      ensures iters == old(iters)[id := if h == Null then Empty else h]
    {
      hide Counted, External, Retain, Release;
      StepInv(W(), IterCreate(id, h));
      var start := if h == Null then Empty else h;
      RetainNode(start);
      iters := iters[id := start];
      it := To(id);
    }

    method IteratorHasNext(it: Pointer) returns (more: bool)
      requires Inv(W()) && (it.To? ==> it.id in iters)
      ensures more <==> it.To? && Contents(heap, iters[it.id]) != []
    {
      hide Counted, External, Retain, Release;
      HeldAreLive(W());
      more := it.To? && iters[it.id].At? && !heap[iters[it.id].addr].isTerminal;
    }

    /** Returns the first of the values left and drops it, or 0 if none is left. */
    method IteratorNext(it: Pointer) returns (value: u64)
      requires Inv(W()) && (it.To? ==> it.id in iters)
      requires it.To? && !Terminal(heap, iters[it.id]) ==> Room(heap, heap[iters[it.id].addr].next)
      modifies `heap, `iters
      ensures it == NullPointer ==> W() == old(W()) && value == 0
      ensures it.To? ==>
                && W() == old(IterAdvanced(W(), it.id)) && Inv(W())
                && it.id in iters && Live(heap, iters[it.id]) && iters[it.id] != Null
                && iters == old(iters)[it.id := iters[it.id]]
      ensures it.To? ==>
                var seen := old(Contents(heap, iters[it.id]));
                && value == (if seen == [] then 0 else seen[0])
                && Contents(heap, iters[it.id]) == (if seen == [] then [] else seen[1..])
    {
      hide Counted, External, Retain, Release;
      if it == NullPointer {
        return 0;
      }
      StepInv(W(), IterNext(it.id));
      AdvanceSeen(W(), it.id);
      HeldAreLive(W());
      var current := iters[it.id];
      if !current.At? || heap[current.addr].isTerminal {
        return 0;
      }
      value := heap[current.addr].value;
      var next := if heap[current.addr].next == Null then Empty else heap[current.addr].next;
      RetainNode(next);
      RetainClosed(old(heap), next);
      ReleaseNode(current);
      iters := iters[it.id := next];
    }

    method IteratorDestroy(it: Pointer)
      requires Inv(W()) && (it.To? ==> it.id in iters)
      modifies `heap, `iters
      ensures it == NullPointer ==> W() == old(W())
      ensures it.To? ==> W() == old(IterDestroyed(W(), it.id)) && Inv(W()) && iters == old(iters) - {it.id}
    {
      hide Counted, External, Retain, Release;
      if it.To? {
        StepInv(W(), IterDestroy(it.id));
        HeldAreLive(W());
        ReleaseNode(iters[it.id]);
        iters := iters - {it.id};
      }
    }

    // ------------------------------------------------------------ snapshot maps

    method StateMapCreate(id: nat) returns (m: Pointer)
      requires Inv(W()) && id !in maps
      modifies `maps
      ensures m == To(id) && W() == old(Next(W(), MapCreate(id))) && Inv(W())
      ensures maps == old(maps) + {id} && forall k: u32 :: SlotKey(id, k) !in slots
    {
      hide Counted, External;
      StepInv(W(), MapCreate(id));
      maps := maps + {id};
      m := To(id);
    }

    /** Gives back the two references of a slot; the slot itself is still in the table. */
    method ReleaseSlot(s: SlotKey)
      requires Inv(W()) && s in slots
      modifies `heap
      ensures heap == old(DropSlot(W(), s).heap)
    {
      hide Counted, External, Release;
      HeldAreLive(W());
      HalfReleased(W(), s);
      ReleaseNode(slots[s].addressStack);
      ReleaseNode(slots[s].typeStack);
    }

    method StateSavePair(m: Pointer, key: u32, addressStack: Handle, typeStack: Handle) returns (ok: bool)
      requires Inv(W())
      requires m.To? ==>
                 && m.id in maps
                 && StaysWithout(W(), SlotKey(m.id, key), addressStack)
                 && StaysWithout(W(), SlotKey(m.id, key), typeStack)
      requires m.To? ==> RoomForPair(DropSlot(W(), SlotKey(m.id, key)).heap, Pair(addressStack, typeStack))
      modifies `heap, `slots
      ensures ok <==> m.To?
      ensures m == NullPointer ==> W() == old(W())
      ensures m.To? ==>
                && W() == old(Saved(W(), SlotKey(m.id, key), Pair(addressStack, typeStack))) && Inv(W())
                && slots == old(slots)[SlotKey(m.id, key) := Pair(addressStack, typeStack)]
                && PairContents(heap, Pair(addressStack, typeStack))
                   == old((Contents(heap, addressStack), Contents(heap, typeStack)))
    {
      hide Counted, External, Release, Retain, PairContents, Contents, StaysWithout;
      if m == NullPointer {
        return false;
      }
      var s := SlotKey(m.id, key);
      StepInv(W(), Save(m.id, key, addressStack, typeStack));
      SaveSeen(W(), m.id, key, addressStack, typeStack);
      SavedInv(W(), s, Pair(addressStack, typeStack));
      if s in slots {
        ReleaseSlot(s);
      }
      RetainNode(addressStack);
      RetainNode(typeStack);
      slots := slots[s := Pair(addressStack, typeStack)];
      return true;
    }

    /** On success the caller owns one more reference to each of the two stacks. */
    method StateLoadPair(m: Pointer, key: u32) returns (ok: bool, addressStack: Handle, typeStack: Handle)
      requires Inv(W()) && (m.To? ==> m.id in maps)
      requires m.To? && SlotKey(m.id, key) in slots ==>
                 RoomForPair(heap, LoadResult(W(), SlotKey(m.id, key)))
      modifies `heap, `owned
      ensures ok <==> m.To? && SlotKey(m.id, key) in slots
      ensures !ok ==> W() == old(W())
      ensures ok ==>
                && W() == old(Loaded(W(), SlotKey(m.id, key))) && Inv(W())
                && PairContents(heap, Pair(addressStack, typeStack)) == old(ViewOf(W()).slots[SlotKey(m.id, key)])
                && owned == old(owned) + Own(addressStack) + Own(typeStack)
                && Live(heap, addressStack) && Live(heap, typeStack)
      ensures ok ==>
                var p := slots[SlotKey(m.id, key)];
                && addressStack == (if p.addressStack == Null then Empty else p.addressStack)
                && typeStack == (if p.typeStack == Null then Empty else p.typeStack)
    {
      hide Counted, External, Retain, Contents, PairContents, HandlesIn, ItersIn, SlotsIn, NextIsOlder;
      addressStack, typeStack := Null, Null;
      if m == NullPointer || SlotKey(m.id, key) !in slots {
        return false, addressStack, typeStack;
      }
      var s := SlotKey(m.id, key);
      StepInv(W(), Load(m.id, key));
      LoadSeen(W(), m.id, key);
      SlotIsLive(W(), s);
      SlotSeen(W(), s);
      addressStack := if slots[s].addressStack == Null then Empty else slots[s].addressStack;
      typeStack := if slots[s].typeStack == Null then Empty else slots[s].typeStack;
      RetainNode(addressStack);
      RetainNode(typeStack);
      owned := owned + Own(addressStack) + Own(typeStack);
      ok := true;
    }

    method StateExists(m: Pointer, key: u32) returns (found: bool)
      ensures found <==> m.To? && SlotKey(m.id, key) in slots
      ensures found <==> m.To? && SlotKey(m.id, key) in ViewOf(W()).slots
    {
      found := m.To? && SlotKey(m.id, key) in slots;
    }

    method StateRemove(m: Pointer, key: u32) returns (removed: bool)
      requires Inv(W()) && (m.To? ==> m.id in maps)
      modifies `heap, `slots
      ensures removed <==> m.To? && SlotKey(m.id, key) in old(slots)
      ensures !removed ==> W() == old(W())
      ensures removed ==>
                && W() == old(DropSlot(W(), SlotKey(m.id, key))) && Inv(W())
                && slots == old(slots) - {SlotKey(m.id, key)}
    {
      hide Counted, External;
      if m == NullPointer || SlotKey(m.id, key) !in slots {
        return false;
      }
      StepInv(W(), Remove(m.id, key));
      ReleaseSlot(SlotKey(m.id, key));
      slots := slots - {SlotKey(m.id, key)};
      return true;
    }

    /** Releases the slots in whatever order the table yields them. */
    method StateMapDestroy(m: Pointer) returns (ghost order: seq<u32>)
      requires Inv(W()) && (m.To? ==> m.id in maps)
      modifies `heap, `slots, `maps
      ensures m == NullPointer ==> W() == old(W())
      ensures m.To? ==>
                && old(Legal(W(), MapDestroy(m.id, order)))
                && W() == old(Next(W(), MapDestroy(m.id, order))) && Inv(W())
                && maps == old(maps) - {m.id}
                && slots == map s | s in old(slots) && s.owner != m.id :: old(slots)[s]
    {
      hide Counted, External, Release, Clearing, Legal, DropSlots;
      order := [];
      if m == NullPointer {
        return;
      }
      ghost var w := W();
      var todo := set s | s in slots && s.owner == m.id;
      ClearingStart(w, m.id);
      while todo != {}
        invariant W() == w.(heap := DropSlots(w, m.id, order).heap)
        invariant Clearing(w, m.id, order, todo)
      {
        var s :| s in todo;
        ClearingStep(w, m.id, order, todo, s);
        ReleaseNode(slots[s].addressStack);
        ReleaseNode(slots[s].typeStack);
        todo, order := todo - {s}, order + [s.key];
      }
      ClearingEnd(w, m.id, order);
      slots := map s | s in slots && s.owner != m.id :: slots[s];
      maps := maps - {m.id};
    }

    // ------------------------------------------------------------ whole iterations

    /** Calls back with every value, top to bottom, and gives back every reference it took. `seen` stands
        for what the callback is given. */
    method StackForeach(h: Handle, id: nat) returns (seen: seq<u64>)
      requires Inv(W()) && Live(heap, h) && id !in iters
      requires forall a :: a in Chain(heap, h) ==> Room(heap, At(a))
      modifies this
      ensures seen == old(Contents(heap, h))
      ensures W() == old(W())
    {
      hide Counted, External, Release;
      ghost var w := W();
      seen := [];
      HeldAreLive(w);
      IteratingStart(w, h, id);
      var it := IteratorCreate(h, id);
      var more := IteratorHasNext(it);
      while more
        invariant Iterating(w, h, W(), id, seen)
        invariant more <==> Contents(heap, iters[id]) != []
        decreases |old(Contents(heap, h))| - |seen|
      {
        IteratingNext(w, h, W(), id, seen);
        var v := IteratorNext(it);
        seen := seen + [v];
        more := IteratorHasNext(it);
      }
      IteratingEnd(w, h, W(), id, seen);
      IteratorDestroy(it);
    }

    /** The number of entries and the sum of their values, as 32-bit counters that wrap around. */
    method CountStackEntries(h: Handle, id: nat) returns (count: u32, size: u32)
      requires Inv(W()) && Live(heap, h) && id !in iters
      requires forall a :: a in Chain(heap, h) ==> Room(heap, At(a))
      modifies this
      ensures count == Wrap32(old(|Contents(heap, h)|)) && size == Wrap32(old(Sum(Contents(heap, h))))
      ensures old(|Contents(heap, h)|) < 0x1_0000_0000 ==> count == old(|Contents(heap, h)|)
      ensures old(Sum(Contents(heap, h))) < 0x1_0000_0000 ==> size == old(Sum(Contents(heap, h)))
      ensures W() == old(W())
    {
      hide Counted, External, Release, Wrap32, Sum, Iterating, Contents;
      CountersStart();
      ghost var w: World, seen: seq<u64> := W(), [];
      count, size := 0, 0;
      HeldAreLive(w);
      IteratingStart(w, h, id);
      var it := IteratorCreate(h, id);
      var more := IteratorHasNext(it);
      while more
        invariant Inv(W()) && id in iters && Iterating(w, h, W(), id, seen)
        invariant more <==> Contents(heap, iters[id]) != []
        invariant count == Wrap32(|seen|) && size == Wrap32(Sum(seen))
        decreases |old(Contents(heap, h))| - |seen|
      {
        IteratingNext(w, h, W(), id, seen);
        var t := IteratorNext(it);
        CountersStep(seen, t);
        count, size, seen := Wrap32(count + 1), Wrap32(size + Wrap32(t)), seen + [t];
        more := IteratorHasNext(it);
      }
      IteratingEnd(w, h, W(), id, seen);
      IteratorDestroy(it);
      WrapIsCongruent(|seen|);
      WrapIsCongruent(Sum(seen));
    }
  }

  // ---------------------------------------------------------------- emptying a map

  /** `order` lists the keys released so far, `todo` holds the other slots of map `m`. */
  ghost predicate Clearing(w: World, m: nat, order: seq<u32>, todo: set<SlotKey>) {
    && Distinct(order)
    && (forall k :: k in order ==> SlotKey(m, k) in w.slots && SlotKey(m, k) !in todo)
    && (forall s :: s in w.slots && s.owner == m ==> s in todo || s.key in order)
    && (forall s :: s in todo ==> s in w.slots && s.owner == m)
  }

  lemma ClearingStart(w: World, m: nat)
    ensures Clearing(w, m, [], set s | s in w.slots && s.owner == m)
    ensures DropSlots(w, m, []) == w
  {}

  lemma ClearingStep(w: World, m: nat, order: seq<u32>, todo: set<SlotKey>, s: SlotKey)
    requires Inv(w) && Clearing(w, m, order, todo) && s in todo
    ensures Clearing(w, m, order + [s.key], todo - {s})
    ensures var now := DropSlots(w, m, order);
            && s in w.slots && s in now.slots && now.slots[s] == w.slots[s]
            && DropSlots(w, m, order + [s.key]).heap == ReleasePair(now.heap, w.slots[s])
            && Closed(now.heap) && Live(now.heap, w.slots[s].addressStack)
            && Closed(Release(now.heap, w.slots[s].addressStack))
            && Live(Release(now.heap, w.slots[s].addressStack), w.slots[s].typeStack)
  {
    hide Counted, External, DropSlots, Release;
    assert s == SlotKey(m, s.key);
    DropSlotsInv(w, m, order);
    DropSlotsAppend(w, m, order, s.key);
    HalfReleased(DropSlots(w, m, order), s);
    HeldAreLive(DropSlots(w, m, order));
  }

  lemma ClearingEnd(w: World, m: nat, order: seq<u32>)
    requires Inv(w) && m in w.maps && Clearing(w, m, order, {})
    ensures Legal(w, MapDestroy(m, order)) && Inv(Next(w, MapDestroy(m, order)))
    ensures DropSlots(w, m, order).slots == OtherSlots(w.slots, m)
  {
    hide Counted, External, DropSlots;
    forall k ensures k in order <==> SlotKey(m, k) in w.slots {}
    StepInv(w, MapDestroy(m, order));
    MapDestroySlots(w, m, order);
  }

  // ---------------------------------------------------------------- counters

  lemma {:induction false} SumAppend(values: seq<u64>, v: u64)
    ensures Sum(values + [v]) == Sum(values) + v
  {
    if values != [] {
      assert (values + [v])[1..] == values[1..] + [v];
      SumAppend(values[1..], v);
    }
  }

  lemma CountersStart()
    ensures Wrap32(0) == 0 && Sum([]) == 0
  {}

  lemma WrapAdd(a: nat, b: nat)
    ensures Wrap32(a + b) == Wrap32(Wrap32(a) + Wrap32(b))
  {}

  /** The wrapped counters step like the counts they stand for. */
  lemma CountersStep(values: seq<u64>, v: u64)
    ensures Wrap32(|values + [v]|) == Wrap32(Wrap32(|values|) + 1)
    ensures Wrap32(Sum(values + [v])) == Wrap32(Wrap32(Sum(values)) + Wrap32(v))
  {
    assert Wrap32(1) == 1;
    hide Wrap32, Sum;
    WrapAdd(|values|, 1);
    SumAppend(values, v);
    WrapAdd(Sum(values), v);
  }

  // ---------------------------------------------------------------- iterating over a borrowed stack

  /** An iteration over `h` that began in `w` differs from it by one iterator and one reference. */
  ghost predicate Iterating(w: World, h: Handle, now: World, id: nat, seen: seq<u64>) {
    && Inv(w) && Inv(now) && id !in w.iters && id in now.iters
    && now == w.(heap := Retain(w.heap, now.iters[id]), iters := w.iters[id := now.iters[id]])
    && Live(w.heap, now.iters[id])
    && Chain(w.heap, now.iters[id]) <= Chain(w.heap, h)
    && seen + Contents(w.heap, now.iters[id]) == Contents(w.heap, h)
  }

  lemma SetCountTwice(heap: Heap, a: nat, count: int)
    requires a in heap
    ensures SetCount(SetCount(heap, a, count), a, heap[a].refCount) == heap
  {}

  lemma CountIsPositive(heap: Heap, refs: multiset<nat>, h: Handle)
    requires Counted(heap, refs) && Live(heap, h)
    ensures h.At? ==> heap[h.addr].refCount >= 1
    ensures Closed(heap)
  {}

  lemma RetainUndone(heap: Heap, h: Handle)
    requires h.At? ==> h.addr in heap && heap[h.addr].refCount >= 1
    ensures Release(Retain(heap, h), h) == heap
  {
    hide Release;
    if h.At? {
      var raised := SetCount(heap, h.addr, heap[h.addr].refCount + 1);
      ReleaseSpare(raised, h);
      SetCountTwice(heap, h.addr, heap[h.addr].refCount + 1);
    } else {
      ReleaseSpare(heap, h);
    }
  }

  lemma RetainSeen(heap: Heap, h: Handle)
    requires Closed(heap) && Live(heap, h)
    ensures Contents(Retain(heap, h), h) == Contents(heap, h)
    ensures Terminal(Retain(heap, h), h) <==> Terminal(heap, h)
  {
    hide Contents, Closed;
    RetainPrunes(heap, h);
    RetainClosed(heap, h);
    SeenFrom(heap, Retain(heap, h), h);
  }

  /** Taking a reference to `current` changes nothing that can be seen, and can be undone. */
  lemma Borrow(heap: Heap, refs: multiset<nat>, current: Handle)
    requires Counted(heap, refs) && Live(heap, current)
    ensures Contents(Retain(heap, current), current) == Contents(heap, current)
    ensures Terminal(Retain(heap, current), current) <==> Terminal(heap, current)
    ensures Release(Retain(heap, current), current) == heap
  {
    hide Counted, Retain, Release, Contents, Terminal, Closed;
    CountIsPositive(heap, refs, current);
    RetainSeen(heap, current);
    RetainUndone(heap, current);
  }

  /** The next node takes over the reference to the current one. */
  lemma HandOver(heap: Heap, refs: multiset<nat>, a: nat)
    requires Counted(heap, refs) && a in heap
    ensures var borrowed, next := Retain(heap, At(a)), OrEmpty(heap[a].next);
            && a in borrowed && borrowed[a].next == heap[a].next
            && (next.At? && next.addr in heap ==> borrowed[next.addr] == heap[next.addr])
            && Release(Retain(borrowed, next), At(a)) == Retain(heap, next)
  {
    hide Refs, Release, Closed, Nexts;
    var raised := SetCount(heap, a, heap[a].refCount + 1);
    RetainElsewhere(heap, a, OrEmpty(heap[a].next));
    ReleaseSpare(Retain(raised, OrEmpty(heap[a].next)), At(a));
  }

  /** Counts of different nodes are changed in either order. */
  lemma RetainElsewhere(heap: Heap, a: nat, h: Handle)
    requires a in heap && h != At(a)
    ensures var raised := Retain(SetCount(heap, a, heap[a].refCount + 1), h);
            && a in raised && raised[a].refCount == heap[a].refCount + 1
            && SetCount(raised, a, heap[a].refCount) == Retain(heap, h)
  {
    hide NextIsOlder;
  }

  lemma ChainNext(heap: Heap, h: Handle)
    requires h.At? && h.addr in heap
    ensures h.addr in Chain(heap, h)
    ensures Chain(heap, OrEmpty(heap[h.addr].next)) <= Chain(heap, h)
    ensures heap[h.addr].next.At? && heap[h.addr].next.addr in heap ==> heap[h.addr].next.addr in Chain(heap, h)
  {}

  lemma ChainStart(heap: Heap, h: Handle)
    ensures Chain(heap, OrEmpty(h)) == Chain(heap, h)
    ensures h.At? && h.addr in heap ==> h.addr in Chain(heap, h)
  {}

  lemma IteratingStart(w: World, h: Handle, id: nat)
    requires Inv(w) && Live(w.heap, h) && id !in w.iters
    ensures Iterating(w, h, IterCreated(w, id, h), id, [])
    ensures h.At? ==> h.addr in Chain(w.heap, h)
  {
    hide Counted, External, Retain, Contents, Chain, OrEmpty;
    IterCreatedInv(w, id, h);
    NullIsEmpty(w.heap, h);
    ChainStart(w.heap, h);
    assert [] + Contents(w.heap, h) == Contents(w.heap, h);
  }

  /** Stepping down from a borrowed node borrows the next one instead. */
  lemma StepBorrowed(heap: Heap, refs: multiset<nat>, current: Handle)
    requires Counted(heap, refs) && Live(heap, current) && !Terminal(heap, current)
    ensures var borrowed, link := Retain(heap, current), heap[current.addr].next;
            && !Terminal(borrowed, current) && borrowed[current.addr].next == link
            && (Room(heap, link) ==> Room(borrowed, link))
            && Release(Retain(borrowed, OrEmpty(link)), current) == Retain(heap, OrEmpty(link))
  {
    hide Counted, Retain, Release;
    CountIsPositive(heap, refs, current);
    RetainSeen(heap, current);
    HandOver(heap, refs, current.addr);
  }

  /** Advancing the iterator of an iteration replaces what is borrowed. */
  lemma AdvancedBorrow(w: World, now: World, id: nat, current: Handle, link: Handle)
    requires now == w.(heap := Retain(w.heap, current), iters := w.iters[id := current])
    requires !Terminal(now.heap, current) && now.heap[current.addr].next == link
    requires Release(Retain(now.heap, OrEmpty(link)), current) == Retain(w.heap, OrEmpty(link))
    ensures IterAdvanced(now, id) == w.(heap := Retain(w.heap, OrEmpty(link)), iters := w.iters[id := OrEmpty(link)])
  {
    hide Retain, Release, OrEmpty;
    assert now.iters[id := OrEmpty(link)] == w.iters[id := OrEmpty(link)];
  }

  lemma IteratingNext(w: World, h: Handle, now: World, id: nat, seen: seq<u64>)
    requires Iterating(w, h, now, id, seen) && Contents(now.heap, now.iters[id]) != []
    requires forall a :: a in Chain(w.heap, h) ==> Room(w.heap, At(a))
    ensures id in now.iters && !Terminal(now.heap, now.iters[id]) && Room(now.heap, now.heap[now.iters[id].addr].next)
    ensures Iterating(w, h, IterAdvanced(now, id), id, seen + [Contents(now.heap, now.iters[id])[0]])
    ensures |seen| < |Contents(w.heap, h)|
  {
    hide Counted, External, Retain, Release, Contents, Chain, OrEmpty, Closed, IterAdvanced, Numbered;
    var current := now.iters[id];
    HeldAreLive(w);
    Borrow(w.heap, External(w), current);
    NextSeen(w.heap, current);
    var link := w.heap[current.addr].next;
    StepBorrowed(w.heap, External(w), current);
    ChainNext(w.heap, current);
    AdvancedBorrow(w, now, id, current, link);
    IterAdvancedInv(now, id);
    var left := Contents(w.heap, current);
    assert seen + left == seen + [left[0]] + left[1..];
  }

  lemma IteratingEnd(w: World, h: Handle, now: World, id: nat, seen: seq<u64>)
    requires Iterating(w, h, now, id, seen) && Contents(now.heap, now.iters[id]) == []
    ensures id in now.iters && seen == Contents(w.heap, h) && IterDestroyed(now, id) == w
  {
    hide Counted, External, Retain, Release;
    Borrow(w.heap, External(w), now.iters[id]);
    assert now.iters - {id} == w.iters;
  }
}
