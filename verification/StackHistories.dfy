/** Histories: what pushes, pops, loads and iterators return, however the calls are interleaved. */
module StackHistories {
  import opened References
  import opened StackHeap
  import opened Reclamation
  import opened StackWorld
  import opened StackRuns
  import opened StackViews

  // ---------------------------------------------------------------- the persistent stack as a sequence

  /** Pushing yields a new handle, owned once, that shows the value on top of what `h` shows. */
  lemma PushSeen(w: World, h: Handle, v: u64)
    requires Inv(w) && Live(w.heap, h)
    ensures var w' := Next(w, Push(h, v));
            && Contents(w'.heap, At(w.allocs)) == [v] + Contents(w.heap, h)
            && w'.owned == w.owned + multiset{w.allocs}
  {
    hide Counted, External, Allocated, Contents;
    NewSeen(w, Push(h, v));
  }

  /** Popping shows the rest of the stack, and hands over a reference to it exactly when it was not empty. */
  lemma PopSeen(w: World, h: Handle)
    requires Inv(w) && Live(w.heap, h)
    ensures var w' := Next(w, Pop(h));
            var r, seen := PopResult(w.heap, h), Contents(w.heap, h);
            && Live(w'.heap, r) && r != Null && (!h.At? ==> r == Empty) && (h.At? && seen == [] ==> r == h)
            && Contents(w'.heap, r) == (if seen == [] then [] else seen[1..])
            && w'.owned == (if seen == [] then w.owned else w.owned + Own(r))
  {
    hide Counted, External;
    StepInv(w, Pop(h));
    StepPersistence(w, Pop(h));
    HeldAreLive(w);
    NextSeen(w.heap, h);
  }

  // ---------------------------------------------------------------- snapshots

  /** `op` replaces or discards what is stored in slot `s`. */
  predicate Overwrites(op: Op, s: SlotKey) {
    match op
    case Save(m, k, _, _) => SlotKey(m, k) == s
    case Remove(m, k) => SlotKey(m, k) == s
    case MapDestroy(m, _) => m == s.owner
    case _ => false
  }

  lemma SlotSeen(w: World, s: SlotKey)
    ensures s in ViewOf(w).slots <==> s in w.slots
    ensures s in w.slots ==> ViewOf(w).slots[s] == PairContents(w.heap, w.slots[s])
  {
    hide HandlesIn, ItersIn, PairContents;
  }

  lemma SlotsStep(slots: map<SlotKey, (seq<u64>, seq<u64>)>, op: Op, heap: Heap, s: SlotKey)
    requires !Overwrites(op, s)
    ensures s in SlotsNext(slots, op, heap) <==> s in slots
    ensures s in slots ==> SlotsNext(slots, op, heap)[s] == slots[s]
  {}

  /** A slot no step overwrites shows the same pair of values through a whole run, and an empty one stays empty. */
  lemma {:induction false} SlotStays(w: World, ops: seq<Op>, s: SlotKey)
    requires Inv(w) && LegalRun(w, ops)
    requires forall op :: op in ops ==> !Overwrites(op, s)
    ensures s in ViewOf(Run(w, ops)).slots <==> s in ViewOf(w).slots
    ensures s in w.slots ==> ViewOf(Run(w, ops)).slots[s] == ViewOf(w).slots[s]
    decreases |ops|
  {
    hide Counted, External, Legal, Next, Contents, SlotsNext, HandlesNext, ItersNext, HandlesIn, ItersIn;
    if ops != [] {
      StepInv(w, ops[0]);
      StepRefines(w, ops[0]);
      SlotsStep(ViewOf(w).slots, ops[0], w.heap, s);
      assert s in ViewOf(Next(w, ops[0])).slots <==> s in Next(w, ops[0]).slots;
      SlotStays(Next(w, ops[0]), ops[1..], s);
    }
  }

  /** Loading succeeds exactly on occupied slots; the caller then owns one reference to each of two live
      stacks that show what the slot shows. */
  lemma LoadSeen(w: World, m: nat, k: u32)
    requires Inv(w) && m in w.maps && SlotKey(m, k) in w.slots
    ensures var s := SlotKey(m, k);
            var w', p := Loaded(w, s), LoadResult(w, s);
            && w' == Next(w, Load(m, k))
            && PairContents(w'.heap, p) == ViewOf(w).slots[s]
            && w'.owned == w.owned + OwnPair(p)
            && Live(w'.heap, p.addressStack) && Live(w'.heap, p.typeStack)
            && p.addressStack == (if w.slots[s].addressStack == Null then Empty else w.slots[s].addressStack)
            && p.typeStack == (if w.slots[s].typeStack == Null then Empty else w.slots[s].typeStack)
  {
    hide Counted, External, Contents, HandlesIn, ItersIn, PairContents, Retain;
    LoadedSeen(w, m, k);
    SlotIsLive(w, SlotKey(m, k));
  }

  /** A saved slot shows what the two stacks showed when they were passed in. */
  lemma SaveSeen(w: World, m: nat, k: u32, a: Handle, t: Handle)
    requires Inv(w) && Legal(w, Save(m, k, a, t))
    ensures var w', s := Next(w, Save(m, k, a, t)), SlotKey(m, k);
            s in w'.slots && PairContents(w'.heap, w'.slots[s]) == (Contents(w.heap, a), Contents(w.heap, t))
  {
    hide Counted, External, Contents, StaysWithout, Next, HandlesNext, HandlesIn, ItersIn;
    StepRefines(w, Save(m, k, a, t));
    assert SlotKey(m, k) in ViewOf(Next(w, Save(m, k, a, t))).slots;
  }

  /** After a save, and any legal run that does not overwrite the key, loading the key yields the values the
      two stacks showed when they were saved, even if every handle to them has been destroyed meanwhile. */
  lemma SnapshotLasts(w: World, m: nat, k: u32, a: Handle, t: Handle, ops: seq<Op>)
    requires Inv(w) && Legal(w, Save(m, k, a, t))
    requires LegalRun(Next(w, Save(m, k, a, t)), ops)
    requires forall op :: op in ops ==> !Overwrites(op, SlotKey(m, k))
    ensures var w' := Run(Next(w, Save(m, k, a, t)), ops);
            && SlotKey(m, k) in w'.slots
            && m in w'.maps
            && PairContents(Loaded(w', SlotKey(m, k)).heap, LoadResult(w', SlotKey(m, k)))
               == (Contents(w.heap, a), Contents(w.heap, t))
  {
    hide Counted, External, PairContents, Legal, Next, Loaded, LoadResult, HandlesIn, ItersIn, SlotsIn;
    var s, w1 := SlotKey(m, k), Next(w, Save(m, k, a, t));
    StepInv(w, Save(m, k, a, t));
    SaveSeen(w, m, k, a, t);
    SlotSeen(w1, s);
    SlotStays(w1, ops, s);
    RunInv(w1, ops);
    SlotSeen(Run(w1, ops), s);
    LoadSeen(Run(w1, ops), m, k);
  }

  // ---------------------------------------------------------------- iteration

  function DropAtMost<T>(s: seq<T>, n: nat): seq<T> {
    if n <= |s| then s[n..] else []
  }

  lemma DropTwice<T>(s: seq<T>, m: nat, n: nat)
    ensures DropAtMost(DropAtMost(s, m), n) == DropAtMost(s, m + n)
  {}

  /** One operation moves iterator `i` down by at most one value. */
  lemma ItersStep(iters: map<nat, seq<u64>>, op: Op, heap: Heap, i: nat)
    requires i in iters && op != IterDestroy(i) && !(op.IterCreate? && op.iter == i)
    ensures i in ItersNext(iters, op, heap)
    ensures ItersNext(iters, op, heap)[i] == DropAtMost(iters[i], if op == IterNext(i) then 1 else 0)
  {}

  /** Creating an iterator makes a new one. */
  lemma CreatesNew(w: World, op: Op, i: nat)
    requires Legal(w, op) && i in w.iters
    ensures !(op.IterCreate? && op.iter == i)
  {}

  /** Advancing an iterator drops the first value it has left; it always stands on a live stack. */
  lemma AdvanceSeen(w: World, i: nat)
    requires Inv(w) && i in w.iters
    ensures var w', seen := IterAdvanced(w, i), Contents(w.heap, w.iters[i]);
            && i in w'.iters && Live(w'.heap, w'.iters[i]) && w'.iters[i] != Null
            && Contents(w'.heap, w'.iters[i]) == if seen == [] then [] else seen[1..]
  {
    hide Counted, External, Contents, IterAdvanced, HandlesIn, SlotsIn;
    var op := IterNext(i);
    StepInv(w, op);
    HeldAreLive(Next(w, op));
    IterNextRefines(w, i);
    assert i in ViewOf(w).iters && i in ViewOf(Next(w, op)).iters;
  }

  lemma {:induction false} IterationDrops(w: World, ops: seq<Op>, i: nat)
    requires Inv(w) && i in w.iters && LegalRun(w, ops)
    requires IterDestroy(i) !in ops
    ensures i in Run(w, ops).iters
    ensures ViewOf(Run(w, ops)).iters[i] == DropAtMost(ViewOf(w).iters[i], multiset(ops)[IterNext(i)])
    decreases |ops|
  {
    hide Counted, External, Contents, Next, Legal, DropAtMost, HandlesNext, ItersNext, SlotsNext, HandlesIn, SlotsIn;
    var left := ViewOf(w).iters[i];
    if ops == [] {
      DropNothing(left);
    } else {
      var w1, n := Next(w, ops[0]), if ops[0] == IterNext(i) then 1 else 0;
      StepInv(w, ops[0]);
      StepRefines(w, ops[0]);
      CreatesNew(w, ops[0], i);
      ItersStep(ViewOf(w).iters, ops[0], w.heap, i);
      assert i in ViewOf(w1).iters;
      IterationDrops(w1, ops[1..], i);
      DropTwice(left, n, multiset(ops[1..])[IterNext(i)]);
      HeadCount(ops, IterNext(i));
    }
  }

  lemma DropNothing<T>(s: seq<T>)
    ensures DropAtMost(s, 0) == s
  {}

  /** An iterator that is advanced `n` times in the course of a run has the values below the first `n`
      left, whatever else the run does, such as destroying the handle the iteration started from. */
  lemma IterationDelivers(w: World, ops: seq<Op>, i: nat)
    requires Inv(w) && i in w.iters && LegalRun(w, ops)
    requires IterDestroy(i) !in ops
    ensures i in Run(w, ops).iters
    ensures var left, n := Contents(w.heap, w.iters[i]), multiset(ops)[IterNext(i)];
            Contents(Run(w, ops).heap, Run(w, ops).iters[i]) == if n <= |left| then left[n..] else []
  {
    hide Counted, External, Contents, LegalRun, Run, HandlesIn, SlotsIn;
    IterationDrops(w, ops, i);
    assert i in ViewOf(w).iters && i in ViewOf(Run(w, ops)).iters;
  }

  // ---------------------------------------------------------------- order of release

  /** Destroying a map leaves the same world whatever order the hash table is iterated in. */
  lemma MapOrderIsIrrelevant(w: World, m: nat, order: seq<u32>, order': seq<u32>)
    requires Inv(w) && Legal(w, MapDestroy(m, order)) && Legal(w, MapDestroy(m, order'))
    ensures Next(w, MapDestroy(m, order)) == Next(w, MapDestroy(m, order'))
  {
    hide Counted, Refs, SlotRefs, DropSlots;
    var left, right := Next(w, MapDestroy(m, order)), Next(w, MapDestroy(m, order'));
    StepInv(w, MapDestroy(m, order));
    StepInv(w, MapDestroy(m, order'));
    StepEvolves(w, MapDestroy(m, order));
    StepEvolves(w, MapDestroy(m, order'));
    MapDestroySlots(w, m, order);
    MapDestroySlots(w, m, order');
    HeapIsDetermined(left.heap, right.heap, External(left));
  }

  lemma RunCons(w: World, op: Op, ops: seq<Op>)
    requires Numbered(w) && Legal(w, op) && LegalRun(Next(w, op), ops)
    ensures LegalRun(w, [op] + ops) && Run(w, [op] + ops) == Run(Next(w, op), ops)
  {
    hide Next, Legal;
    assert ([op] + ops)[1..] == ops;
  }

  /** Saving a stack that only the overwritten slot leads to is not safe, even when it is saved where it was:
      after these calls, releasing the old pair frees the stack that is about to be retained. */
  lemma UnownedSaveIsUnsafe() returns (ops: seq<Op>, w: World, s: SlotKey, h: Handle)
    ensures LegalRun(START, ops) && w == Run(START, ops)
    ensures s in w.slots && w.slots[s] == Pair(h, Empty) && s.owner in w.maps && Live(w.heap, h)
    ensures !Live(DropSlot(w, s).heap, h) && !Inv(Saved(w, s, Pair(h, Empty)))
  {
    hide Counted, External, StaysWithout;
    s, h := SlotKey(0, 5), At(0);
    var create, make, save, destroy := Create, MapCreate(0), Save(0, 5, At(0), Empty), Destroy(At(0));
    StartInv();
    StepInv(START, create);
    var w1 := Next(START, create);
    StepInv(w1, make);
    var w2 := Next(w1, make);
    assert w2.heap == map[0 := Node(0, Null, 1, true)];
    OwnedStays(w2, s, At(0));
    OwnedStays(w2, s, Empty);
    StepInv(w2, save);
    var w3 := Next(w2, save);
    assert w3.heap[0].refCount == 2;
    StepInv(w3, destroy);
    w := Next(w3, destroy);
    assert w.heap[0].refCount == 1;
    SurvivesDropExactlyWhen(w, s, h);
    SaveIsSafeExactlyWhen(w, s, Pair(h, Empty));
    RunCons(w3, destroy, []);
    RunCons(w2, save, [destroy] + []);
    RunCons(w1, make, [save] + ([destroy] + []));
    RunCons(START, create, [make] + ([save] + ([destroy] + [])));
    ops := [create] + ([make] + ([save] + ([destroy] + [])));
  }
}
