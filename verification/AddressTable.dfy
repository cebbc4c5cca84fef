/** The two-way address map: a table from packed code positions to addresses and one back. */
module AddressTable {
  import opened Options
  import opened References

  /** The high half holds the function index, the low half the offset. */
  function Pack(fidx: u32, offset: u32): u64 {
    fidx * U32_LIMIT + offset
  }

  function Unpack(packed: u64): (u32, u32) {
    (packed / U32_LIMIT, packed % U32_LIMIT)
  }

  /** Packed keys stand for code positions one to one. */
  lemma PackIsBijective(fidx: u32, offset: u32, packed: u64)
    ensures Pack(fidx, offset) == packed <==> (fidx, offset) == Unpack(packed)
  {}

  /** On 64-bit words, multiplying and adding is shifting and combining bits, and dividing is undoing it. */
  lemma PackOnBits(fidx: bv32, offset: bv32, packed: bv64)
    ensures (fidx as bv64) * 0x1_0000_0000 + (offset as bv64) == ((fidx as bv64) << 32) | (offset as bv64)
    ensures packed / 0x1_0000_0000 == packed >> 32 && packed % 0x1_0000_0000 == packed & 0xffff_ffff
  {}

  // ---------------------------------------------------------------- states and operations

  datatype Tables = Tables(forward: map<u64, u64>, backward: map<u64, u64>)

  datatype Op =
    | SetBidirect(key: u64, value: u64)
    | SetForward(key: u64, value: u64)
    | SetBackward(key: u64, value: u64)
    | Remove(key: u64)

  /** The address `key` is bound to is no longer bound back, whichever key it was bound back to. */
  function Unlink(t: Tables, key: u64): map<u64, u64> {
    if key in t.forward then t.backward - {t.forward[key]} else t.backward
  }

  function Step(t: Tables, op: Op): Tables {
    match op
    case SetBidirect(k, v) => Tables(t.forward[k := v], Unlink(t, k)[v := k])
    case SetForward(k, v) => t.(forward := t.forward[k := v])
    case SetBackward(k, v) => t.(backward := t.backward[v := k])
    case Remove(k) => Tables(t.forward - {k}, Unlink(t, k))
  }

  function Run(ops: seq<Op>): Tables {
    if ops == [] then Tables(map[], map[]) else Step(Run(ops[..|ops| - 1]), ops[|ops| - 1])
  }

  // ---------------------------------------------------------------- two-way runs

  predicate TwoWay(op: Op) {
    op.SetBidirect? || op.Remove?
  }

  /** Every backward binding is a forward binding. */
  ghost predicate Sound(t: Tables) {
    forall v {:trigger t.backward[v]} :: v in t.backward ==>
      t.backward[v] in t.forward && t.forward[t.backward[v]] == v
  }

  /** The tables are each other's inverse. */
  ghost predicate Inverse(t: Tables) {
    Sound(t) &&
    forall k {:trigger t.forward[k]} :: k in t.forward ==>
      t.forward[k] in t.backward && t.backward[t.forward[k]] == k
  }

  /** Some key other than `op`'s is bound to the address `op` binds. */
  ghost predicate Steals(t: Tables, op: Op) {
    op.SetBidirect? && exists k :: k in t.forward && k != op.key && t.forward[k] == op.value
  }

  lemma StepSound(t: Tables, op: Op)
    requires Sound(t) && TwoWay(op)
    ensures Sound(Step(t, op))
  {}

  /** After any run of the two-way setter and removal, looking up a key by address and then the address of
      that key gives the address back, and no two addresses lead to the same key. */
  lemma {:induction false} KeyLookupIsSound(ops: seq<Op>)
    requires forall op :: op in ops ==> TwoWay(op)
    ensures Sound(Run(ops))
    ensures var t := Run(ops);
            forall v, v' {:trigger t.backward[v], t.backward[v']} ::
              v in t.backward && v' in t.backward && t.backward[v] == t.backward[v'] ==> v == v'
  {
    if ops != [] {
      KeyLookupIsSound(ops[..|ops| - 1]);
      StepSound(Run(ops[..|ops| - 1]), ops[|ops| - 1]);
    }
  }

  /** The other direction survives a two-way operation exactly when it does not bind an address that some
      other key holds. */
  lemma StepInverse(t: Tables, op: Op)
    requires Inverse(t) && TwoWay(op)
    ensures Inverse(Step(t, op)) <==> !Steals(t, op)
  {
    var t' := Step(t, op);
    if Steals(t, op) {
      var k :| k in t.forward && k != op.key && t.forward[k] == op.value;
      assert t'.forward[k] == op.value && t'.backward[op.value] == op.key;
    } else {
      forall k | k in t'.forward ensures t'.forward[k] in t'.backward && t'.backward[t'.forward[k]] == k {
        assert k in t.forward || k == op.key;
      }
    }
  }

  ghost predicate StealsNowhere(ops: seq<Op>) {
    ops == [] || (StealsNowhere(ops[..|ops| - 1]) && !Steals(Run(ops[..|ops| - 1]), ops[|ops| - 1]))
  }

  /** Over runs in which no step binds an address another key holds, the tables are inverse, of equal size. */
  lemma {:induction false} TablesStayInverse(ops: seq<Op>)
    requires (forall op :: op in ops ==> TwoWay(op)) && StealsNowhere(ops)
    ensures Inverse(Run(ops)) && |Run(ops).forward| == |Run(ops).backward|
  {
    if ops != [] {
      TablesStayInverse(ops[..|ops| - 1]);
      StepInverse(Run(ops[..|ops| - 1]), ops[|ops| - 1]);
    }
    InverseSize(Run(ops));
  }

  lemma {:induction false} InverseSize(t: Tables)
    requires Inverse(t)
    ensures |t.forward| == |t.backward|
    decreases |t.forward|
  {
    assert forall v :: v in t.backward ==> t.backward[v] in t.forward;
    if t.forward == map[] {
      assert t.backward.Keys == {};
    } else {
      var k :| k in t.forward;
      var v := t.forward[k];
      assert t.backward[v] == k;
      InverseSize(Tables(t.forward - {k}, t.backward - {v}));
    }
  }

  /** Without that condition the tables can disagree: the older key is bound to an address that is bound
      back to the newer one. */
  lemma StolenAddress(k: u64, k': u64, v: u64)
    requires k != k'
    ensures var t := Run([SetBidirect(k, v), SetBidirect(k', v)]);
            k in t.forward && t.forward[k] == v && v in t.backward && t.backward[v] == k'
  {
    var ops := [SetBidirect(k, v), SetBidirect(k', v)];
    assert ops[..1] == [SetBidirect(k, v)] && ops[..1][..0] == [];
    assert Run(ops[..1]) == Step(Run([]), SetBidirect(k, v));
  }

  // ---------------------------------------------------------------- histories of all four operations

  /** The last address bound to `key` since it was last removed, read off the history alone. */
  function LastForward(ops: seq<Op>, key: u64): Option<u64> {
    if ops == [] then None else
      var before := LastForward(ops[..|ops| - 1], key);
      match ops[|ops| - 1]
      case SetBidirect(k, v) => if k == key then Some(v) else before
      case SetForward(k, v) => if k == key then Some(v) else before
      case SetBackward(_, _) => before
      case Remove(k) => if k == key then None else before
  }

  function Lookup(m: map<u64, u64>, key: u64): Option<u64> {
    if key in m then Some(m[key]) else None
  }

  /** `get_value` returns the last address that either forward setter wrote for the key since its removal. */
  lemma {:induction false} ValueLookupIsLastWrite(ops: seq<Op>, key: u64)
    ensures Lookup(Run(ops).forward, key) == LastForward(ops, key)
  {
    if ops != [] {
      ValueLookupIsLastWrite(ops[..|ops| - 1], key);
    }
  }

  /** `op` binds the address back to a key. */
  predicate BindsBack(op: Op, value: u64) {
    (op.SetBidirect? || op.SetBackward?) && op.value == value
  }

  /** After the history `before`, `op` acts on a key whose address was `value`, and so drops what `value` is
      bound back to. */
  predicate Unbinds(before: seq<Op>, op: Op, value: u64) {
    (op.SetBidirect? || op.Remove?) && LastForward(before, op.key) == Some(value)
  }

  /** Some step after step `i` dropped it. */
  predicate UnboundSince(ops: seq<Op>, i: nat, value: u64)
    decreases |ops|
  {
    i + 1 < |ops| &&
    (Unbinds(ops[..|ops| - 1], ops[|ops| - 1], value) || UnboundSince(ops[..|ops| - 1], i, value))
  }

  /** `get_key` returns the key of the last step that bound the address back, unless a later two-way
      setter or removal acted on a key whose forward address was the same. */
  lemma {:induction false} KeyLookupIsLastWrite(ops: seq<Op>, i: nat, value: u64)
    requires i < |ops| && BindsBack(ops[i], value)
    requires forall j :: i < j < |ops| ==> !BindsBack(ops[j], value)
    ensures Lookup(Run(ops).backward, value) == if UnboundSince(ops, i, value) then None else Some(ops[i].key)
    decreases |ops|
  {
    var before, op := ops[..|ops| - 1], ops[|ops| - 1];
    if i < |ops| - 1 {
      KeyLookupIsLastWrite(before, i, value);
      if op.SetBidirect? || op.Remove? {
        ValueLookupIsLastWrite(before, op.key);
      }
    }
  }

  /** An address that was never bound back leads to no key. */
  lemma {:induction false} UnboundAddress(ops: seq<Op>, value: u64)
    requires forall op :: op in ops ==> !BindsBack(op, value)
    ensures Lookup(Run(ops).backward, value) == None
  {
    if ops != [] {
      UnboundAddress(ops[..|ops| - 1], value);
      assert ops[|ops| - 1] in ops;
    }
  }

  // ---------------------------------------------------------------- the map itself

  class AddressMap {
    var kv: map<u64, u64>
    var vk: map<u64, u64>

    ghost function T(): Tables
      reads this
    {
      Tables(kv, vk)
    }

    constructor ()
      ensures T() == Run([]) && kv == map[] && vk == map[]
    {
      kv, vk := map[], map[];
    }

    method SetBidirect(fidx: u32, offset: u32, value: u64) returns (ok: bool)
      modifies this
      ensures ok && T() == Step(old(T()), Op.SetBidirect(Pack(fidx, offset), value))
      ensures var key := fidx * 0x1_0000_0000 + offset;
              && kv == old(kv)[key := value]
              && vk == (if key in old(kv) then old(vk) - {old(kv)[key]} else old(vk))[value := key]
    {
      var packed := Pack(fidx, offset);
      if packed in kv {
        vk := vk - {kv[packed]};
      }
      kv := kv[packed := value];
      vk := vk[value := packed];
      ok := true;
    }

    method SetForward(fidx: u32, offset: u32, value: u64) returns (ok: bool)
      modifies `kv
      ensures ok && T() == Step(old(T()), Op.SetForward(Pack(fidx, offset), value))
      ensures kv == old(kv)[fidx * 0x1_0000_0000 + offset := value]
    {
      kv := kv[Pack(fidx, offset) := value];
      ok := true;
    }

    method SetBackward(fidx: u32, offset: u32, value: u64) returns (ok: bool)
      modifies `vk
      ensures ok && T() == Step(old(T()), Op.SetBackward(Pack(fidx, offset), value))
      ensures vk == old(vk)[value := fidx * 0x1_0000_0000 + offset]
    {
      vk := vk[value := Pack(fidx, offset)];
      ok := true;
    }

    /** The code position an address is bound back to, as its two 32-bit halves. */
    method GetKey(value: u64) returns (found: bool, fidx: u32, offset: u32)
      ensures found <==> value in vk
      ensures found ==> Pack(fidx, offset) == fidx * 0x1_0000_0000 + offset == vk[value]
      ensures found && Sound(T()) ==> Lookup(kv, Pack(fidx, offset)) == Some(value)
    {
      fidx, offset := 0, 0;
      found := value in vk;
      if found {
        fidx, offset := Unpack(vk[value]).0, Unpack(vk[value]).1;
        PackIsBijective(fidx, offset, vk[value]);
      }
    }

    method GetValue(fidx: u32, offset: u32) returns (found: bool, value: u64)
      ensures (if found then Some(value) else None) == Lookup(kv, Pack(fidx, offset))
      ensures found <==> fidx * 0x1_0000_0000 + offset in kv
      ensures found ==> value == kv[fidx * 0x1_0000_0000 + offset]
    {
      found := Pack(fidx, offset) in kv;
      value := if found then kv[Pack(fidx, offset)] else 0;
    }

    method Remove(fidx: u32, offset: u32) returns (removed: bool)
      modifies this
      ensures T() == Step(old(T()), Op.Remove(Pack(fidx, offset)))
      ensures var key := fidx * 0x1_0000_0000 + offset;
              && (removed <==> key in old(kv))
              && kv == old(kv) - {key}
              && vk == if removed then old(vk) - {old(kv)[key]} else old(vk)
    {
      var packed := Pack(fidx, offset);
      removed := packed in kv;
      if removed {
        vk := vk - {kv[packed]};
        kv := kv - {packed};
      } else {
        assert kv - {packed} == kv;
      }
    }
  }
}
