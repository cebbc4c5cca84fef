/** Stack handles, and the multiset of node references held by a table of handles. */
module References {

  const U32_LIMIT: int := 0x1_0000_0000
  const U64_LIMIT: int := 0x1_0000_0000_0000_0000
  const INT_MAX: int := 0x7fff_ffff

  type u32 = n: int | 0 <= n < U32_LIMIT
  type u64 = n: int | 0 <= n < U64_LIMIT

  /** What a `Stack` pointer can be: null, the static empty singleton, or an allocated node.
      A node is named by the number of the allocation that made it. */
  datatype Handle = Null | Empty | At(addr: nat)

  /** The counted reference that holding `h` stands for; null and the singleton are not counted. */
  function Own(h: Handle): multiset<nat> {
    if h.At? then multiset{h.addr} else multiset{}
  }

  /** All counted references held by the entries of `m` under the keys `ks`. */
  ghost function RefsUnder<K>(m: map<K, Handle>, ks: set<K>): multiset<nat>
    requires ks <= m.Keys
  {
    if ks == {} then multiset{} else
      var k :| k in ks;
      Own(m[k]) + RefsUnder(m, ks - {k})
  }

  /** All counted references held by the entries of `m`. */
  ghost function Refs<K>(m: map<K, Handle>): multiset<nat> {
    RefsUnder(m, m.Keys)
  }

  /** Any entry may be split off first, so the result does not depend on an order of the keys. */
  lemma {:induction false} RefsUnderSplit<K>(m: map<K, Handle>, ks: set<K>, k: K)
    requires k in ks && ks <= m.Keys
    ensures RefsUnder(m, ks) == Own(m[k]) + RefsUnder(m, ks - {k})
  {
    var first :| first in ks && RefsUnder(m, ks) == Own(m[first]) + RefsUnder(m, ks - {first});
    if first != k {
      RefsUnderSplit(m, ks - {first}, k);
      RefsUnderSplit(m, ks - {k}, first);
      assert ks - {first} - {k} == ks - {k} - {first};
    }
  }

  lemma {:induction false} RefsUnderSame<K>(m: map<K, Handle>, m': map<K, Handle>, ks: set<K>)
    requires ks <= m.Keys && ks <= m'.Keys
    requires forall k :: k in ks ==> m[k] == m'[k]
    ensures RefsUnder(m, ks) == RefsUnder(m', ks)
  {
    if ks != {} {
      var k :| k in ks;
      RefsUnderSame(m, m', ks - {k});
      RefsUnderSplit(m, ks, k);
      RefsUnderSplit(m', ks, k);
    }
  }

  /** Removing an entry gives back exactly the reference it held. */
  lemma RefsSplit<K>(m: map<K, Handle>, k: K)
    requires k in m
    ensures Refs(m) == Own(m[k]) + Refs(m - {k})
  {
    RefsUnderSplit(m, m.Keys, k);
    assert (m - {k}).Keys == m.Keys - {k};
    RefsUnderSame(m, m - {k}, m.Keys - {k});
  }

  /** Binding `k` to `h` exchanges one reference. */
  lemma RefsBind<K>(m: map<K, Handle>, k: K, h: Handle)
    ensures Refs(m[k := h]) == Own(h) + Refs(m - {k})
  {
    RefsSplit(m[k := h], k);
    assert m[k := h] - {k} == m - {k};
  }

  /** Binding a new `k` adds one reference. */
  lemma RefsAdd<K>(m: map<K, Handle>, k: K, h: Handle)
    requires k !in m
    ensures Refs(m[k := h]) == Own(h) + Refs(m)
  {
    RefsBind(m, k, h);
    assert m - {k} == m;
  }

  /** The keys whose handle points to node `a`. */
  ghost function Pointing<K>(m: map<K, Handle>, a: nat): set<K> {
    set k | k in m && m[k] == At(a)
  }

  /** The multiplicity of `a` is the number of entries that point to it. */
  lemma {:induction false} RefsCount<K>(m: map<K, Handle>, a: nat)
    ensures Refs(m)[a] == |Pointing(m, a)|
    decreases m.Keys
  {
    if m.Keys == {} {
      assert Pointing(m, a) == {};
    } else {
      var k :| k in m.Keys;
      RefsSplit(m, k);
      RefsCount(m - {k}, a);
      PointingSplit(m, k, a);
    }
  }

  lemma PointingSplit<K>(m: map<K, Handle>, k: K, a: nat)
    requires k in m
    ensures |Pointing(m, a)| == |Pointing(m - {k}, a)| + Own(m[k])[a]
  {
    var others := Pointing(m - {k}, a);
    if m[k] == At(a) {
      assert Pointing(m, a) == others + {k};
    } else {
      assert Pointing(m, a) == others;
    }
  }

  /** There are at most as many references as entries. */
  lemma {:induction false} RefsSize<K>(m: map<K, Handle>)
    ensures |Refs(m)| <= |m|
    decreases m.Keys
  {
    if m.Keys != {} {
      var k :| k in m.Keys;
      RefsSplit(m, k);
      RefsSize(m - {k});
    }
  }

  /** A counted reference comes from some entry. */
  lemma RefsSource<K>(m: map<K, Handle>, a: nat) returns (k: K)
    requires a in Refs(m)
    ensures k in m && m[k] == At(a)
  {
    RefsCount(m, a);
    k :| k in Pointing(m, a);
  }
}
