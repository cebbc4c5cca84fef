/** The queue of pending code positions; confirming one rotates through the whole queue. */
module PendingQueue {
  import opened References

  datatype Entry = Entry(fidx: u32, offset: u32, isConfirmed: bool)

  datatype Op = Enqueue(fidx: u32, offset: u32) | Dequeue | Confirm(fidx: u32, offset: u32)

  predicate IsAt(e: Entry, fidx: u32, offset: u32) {
    e.fidx == fidx && e.offset == offset
  }

  function Confirmed(entries: seq<Entry>, fidx: u32, offset: u32): (r: seq<Entry>)
    ensures |r| == |entries|
  {
    seq(|entries|, i requires 0 <= i < |entries| =>
      if IsAt(entries[i], fidx, offset) then entries[i].(isConfirmed := true) else entries[i])
  }

  predicate Waiting(entries: seq<Entry>, fidx: u32, offset: u32) {
    exists e :: e in entries && IsAt(e, fidx, offset)
  }

  lemma WaitingAppend(entries: seq<Entry>, e: Entry, fidx: u32, offset: u32)
    ensures Waiting(entries + [e], fidx, offset) <==> Waiting(entries, fidx, offset) || IsAt(e, fidx, offset)
  {
    assert forall q :: q in entries + [e] <==> q in entries || q == e;
    assert e in entries + [e];
  }

  /** The queue after an operation. */
  function Stepped(queue: seq<Entry>, op: Op): seq<Entry> {
    match op
    case Enqueue(f, o) => queue + [Entry(f, o, false)]
    case Dequeue => if queue == [] then [] else queue[1..]
    case Confirm(f, o) => Confirmed(queue, f, o)
  }

  class StateQueue {
    var entries: seq<Entry>

    constructor ()
      ensures entries == []
    {
      entries := [];
    }

    method StateEnqueue(fidx: u32, offset: u32) returns (ok: bool)
      modifies this
      ensures ok && entries == old(entries) + [Entry(fidx, offset, false)]
      ensures entries == Stepped(old(entries), Enqueue(fidx, offset))
    {
      entries := entries + [Entry(fidx, offset, false)];
      ok := true;
    }

    method StateDequeue() returns (ok: bool, fidx: u32, offset: u32)
      modifies this
      ensures ok <==> old(entries) != []
      ensures ok ==>
                && fidx == old(entries)[0].fidx && offset == old(entries)[0].offset
                && entries == old(entries)[1..]
      ensures !ok ==> entries == old(entries)
      ensures entries == Stepped(old(entries), Dequeue)
    {
      fidx, offset := 0, 0;
      ok := entries != [];
      if ok {
        fidx, offset := entries[0].fidx, entries[0].offset;
        entries := entries[1..];
      }
    }

    /** Marks every entry at the position, keeps all entries in order, and says whether there was one. */
    method ConfirmPending(fidx: u32, offset: u32) returns (found: bool)
      modifies this
      ensures entries == Stepped(old(entries), Confirm(fidx, offset))
      ensures |entries| == |old(entries)|
      ensures forall i :: 0 <= i < |entries| ==>
                && entries[i].fidx == old(entries)[i].fidx
                && entries[i].offset == old(entries)[i].offset
                && (entries[i].isConfirmed <==>
                      || old(entries)[i].isConfirmed
                      || (old(entries)[i].fidx == fidx && old(entries)[i].offset == offset))
      ensures found <==> exists e :: e in old(entries) && e.fidx == fidx && e.offset == offset
    {
      var rotated: seq<Entry> := [];
      found := false;
      while entries != []
        invariant |rotated| + |entries| == |old(entries)| && entries == old(entries)[|rotated|..]
        invariant rotated == Confirmed(old(entries), fidx, offset)[..|rotated|]
        invariant found <==> Waiting(old(entries)[..|rotated|], fidx, offset)
        decreases |entries|
      {
        var entry := entries[0];
        ghost var past := old(entries)[..|rotated|];
        assert old(entries)[..|rotated| + 1] == past + [entry];
        WaitingAppend(past, entry, fidx, offset);
        entries := entries[1..];
        if entry.fidx == fidx && entry.offset == offset {
          entry := entry.(isConfirmed := true);
          found := true;
        }
        rotated := rotated + [entry];
      }
      assert old(entries)[..|rotated|] == old(entries);
      entries := rotated;
    }
  }

  // ---------------------------------------------------------------- runs

  /** The queue and everything dequeued so far. */
  datatype History = History(queue: seq<Entry>, taken: seq<Entry>)

  function After(ops: seq<Op>): History {
    if ops == [] then History([], []) else
      var before, op := After(ops[..|ops| - 1]), ops[|ops| - 1];
      History(Stepped(before.queue, op),
              if op.Dequeue? && before.queue != [] then before.taken + [before.queue[0]] else before.taken)
  }

  function Positions(entries: seq<Entry>): seq<(u32, u32)> {
    seq(|entries|, i requires 0 <= i < |entries| => (entries[i].fidx, entries[i].offset))
  }

  function Enqueued(ops: seq<Op>): seq<(u32, u32)> {
    if ops == [] then [] else
      var before := Enqueued(ops[..|ops| - 1]);
      match ops[|ops| - 1]
      case Enqueue(f, o) => before + [(f, o)]
      case _ => before
  }

  /** First in, first out, however many confirmations rotate the queue in between: what was taken and what
      is still waiting are together exactly what was enqueued, in that order. */
  lemma {:induction false} FirstInFirstOut(ops: seq<Op>)
    ensures Positions(After(ops).taken) + Positions(After(ops).queue) == Enqueued(ops)
  {
    if ops != [] {
      FirstInFirstOut(ops[..|ops| - 1]);
      var before := After(ops[..|ops| - 1]);
      match ops[|ops| - 1]
      case Enqueue(f, o) =>
        assert Positions(before.queue + [Entry(f, o, false)]) == Positions(before.queue) + [(f, o)];
      case Confirm(f, o) =>
        assert Positions(Confirmed(before.queue, f, o)) == Positions(before.queue);
      case Dequeue =>
        if before.queue != [] {
          var e := before.queue[0];
          assert Positions(before.queue) == [(e.fidx, e.offset)] + Positions(before.queue[1..]);
          assert Positions(before.taken + [e]) == Positions(before.taken) + [(e.fidx, e.offset)];
        }
    }
  }
}
