/** Little-endian numbers and byte files. */
module Bytes {
  import opened References

  type byte = n: int | 0 <= n < 256

  function Zeros(n: nat): (z: seq<byte>)
    ensures |z| == n && forall i :: 0 <= i < n ==> z[i] == 0
  {
    seq(n, _ => 0)
  }

  /** The `width` low bytes of `n`, least significant first. */
  function LittleEndian(n: nat, width: nat): (b: seq<byte>)
    ensures |b| == width
  {
    if width == 0 then [] else [n % 256] + LittleEndian(n / 256, width - 1)
  }

  function FromLittleEndian(b: seq<byte>): nat {
    if b == [] then 0 else b[0] + 256 * FromLittleEndian(b[1..])
  }

  function Power256(width: nat): (p: nat)
    ensures p > 0
  {
    if width == 0 then 1 else 256 * Power256(width - 1)
  }

  /** Reading back the low bytes of a number gives the number modulo the width. */
  lemma {:induction false} ReadBack(n: nat, width: nat)
    ensures FromLittleEndian(LittleEndian(n, width)) == n % Power256(width)
  {
    if width > 0 {
      ReadBack(n / 256, width - 1);
      assert LittleEndian(n, width)[1..] == LittleEndian(n / 256, width - 1);
      ModStep(n, Power256(width - 1));
    }
  }

  lemma ModStep(n: nat, p: nat)
    requires p > 0
    ensures n % 256 + 256 * (n / 256 % p) == n % (256 * p)
  {
    var q, r := n / 256 / p, n % 256 + 256 * (n / 256 % p);
    assert n == 256 * (p * q + n / 256 % p) + n % 256;
    assert n == (256 * p) * q + r && 0 <= r < 256 * p;
    RemainderIsUnique(n, 256 * p, q, r);
  }

  lemma RemainderIsUnique(n: nat, d: nat, q: int, r: nat)
    requires d > 0 && n == d * q + r && r < d
    ensures n % d == r
  {
    var k := n / d;
    assert n == d * k + n % d;
    if q > k {
      MultiplyKeepsOrder(d, k + 1, q);
    } else if q < k {
      MultiplyKeepsOrder(d, q + 1, k);
    }
  }

  lemma MultiplyKeepsOrder(d: nat, a: int, b: int)
    requires a <= b
    ensures d * a <= d * b
  {}

  /** The bytes of a number are the only ones that read back to it. */
  lemma {:induction false} WriteBack(b: seq<byte>)
    ensures LittleEndian(FromLittleEndian(b), |b|) == b
    ensures FromLittleEndian(b) < Power256(|b|)
  {
    if b != [] {
      WriteBack(b[1..]);
    }
  }

  lemma DivideTwice(n: nat, p: nat)
    requires p > 0
    ensures n / 256 / p == n / (256 * p)
  {
    ModStep(n, p);
    var k := n / (256 * p);
    assert n == (256 * p) * k + n % (256 * p);
    assert n / 256 == p * k + n / 256 % p by {
      assert n == 256 * (n / 256) + n % 256;
      assert n % (256 * p) == n % 256 + 256 * (n / 256 % p);
      assert (256 * p) * k == 256 * (p * k);
    }
    QuotientIsUnique(n / 256, p, k, n / 256 % p);
  }

  lemma QuotientIsUnique(n: nat, d: nat, q: int, r: nat)
    requires d > 0 && n == d * q + r && r < d
    ensures n / d == q
  {
    var k := n / d;
    assert n == d * k + n % d;
    if k < q {
      MultiplyKeepsOrder(d, k + 1, q);
    } else if k > q {
      MultiplyKeepsOrder(d, q + 1, k);
    }
  }

  /** Byte `i` is digit `i` of the number to the base 256, counted from the least significant one. */
  lemma {:induction false} DigitOf(n: nat, width: nat, i: nat)
    requires i < width
    ensures LittleEndian(n, width)[i] == n / Power256(i) % 256
  {
    if i > 0 {
      DigitOf(n / 256, width - 1, i - 1);
      DivideTwice(n, Power256(i - 1));
    }
  }

  lemma Powers()
    ensures Power256(0) == 1 && Power256(1) == 256 && Power256(2) == 0x1_0000 && Power256(3) == 0x100_0000
    ensures Power256(4) == 0x1_0000_0000
  {
    assert Power256(2) == 256 * Power256(1);
    assert Power256(3) == 256 * Power256(2);
  }

  function Put32(n: u32): (b: seq<byte>)
    ensures |b| == 4
  {
    LittleEndian(n, 4)
  }

  function Get32(b: seq<byte>): (n: u32)
    requires |b| == 4
  {
    WriteBack(b);
    Powers();
    FromLittleEndian(b)
  }

  /** The four bytes of a 32-bit number, least significant first. */
  lemma PutOrder(n: u32)
    ensures Put32(n) == [n % 256, n / 0x100 % 256, n / 0x1_0000 % 256, n / 0x100_0000]
  {
    Powers();
    DigitOf(n, 4, 0);
    DigitOf(n, 4, 1);
    DigitOf(n, 4, 2);
    DigitOf(n, 4, 3);
  }

  lemma GetOrder(b0: byte, b1: byte, b2: byte, b3: byte)
    ensures Get32([b0, b1, b2, b3])
            == b0 as int + 0x100 * (b1 as int) + 0x1_0000 * (b2 as int) + 0x100_0000 * (b3 as int)
  {
    var b := [b0, b1, b2, b3];
    assert b[1..] == [b1, b2, b3] && b[1..][1..] == [b2, b3] && b[1..][1..][1..] == [b3];
    assert b[1..][1..][1..][1..] == [];
    assert FromLittleEndian([b3]) == b3;
    assert FromLittleEndian([b2, b3]) == b2 as int + 256 * FromLittleEndian([b3]);
    assert FromLittleEndian([b1, b2, b3]) == b1 as int + 256 * FromLittleEndian([b2, b3]);
  }

  lemma Get32Put32(n: u32)
    ensures Get32(Put32(n)) == n
  {
    ReadBack(n, 4);
    Powers();
  }

  lemma Put32Get32(b: seq<byte>)
    requires |b| == 4
    ensures Put32(Get32(b)) == b
  {
    WriteBack(b);
  }

  /** A file opened for reading. */
  class ByteFile {
    const bytes: seq<byte>
    var position: nat
    var atEnd: bool

    ghost predicate Valid()
      reads this
    {
      position <= |bytes|
    }

    ghost function Rest(): (rest: seq<byte>)
      reads this
      requires Valid()
      ensures |rest| == |bytes| - position
    {
      bytes[position..]
    }

    constructor (bytes: seq<byte>)
      ensures Valid() && this.bytes == bytes && position == 0 && Rest() == bytes && !atEnd
    {
      this.bytes := bytes;
      position, atEnd := 0, false;
    }

    /** Up to `n` bytes: all of them, or what is left and an end-of-file indication. */
    method Read(n: nat) returns (data: seq<byte>)
      requires Valid()
      modifies this
      ensures |data| == if n <= |old(Rest())| then n else |old(Rest())|
      ensures Valid() && data == old(Rest())[..|data|] && Rest() == old(Rest())[|data|..]
      ensures position == old(position) + |data| && data == bytes[old(position)..position]
      ensures atEnd == (old(atEnd) || |data| < n)
    {
      if n <= |bytes| - position {
        data := bytes[position..position + n];
      } else {
        data := bytes[position..];
        atEnd := true;
      }
      position := position + |data|;
    }

    /** One 32-bit number, unless fewer than four bytes are left. */
    method ReadU32() returns (read: bool, n: u32)
      requires Valid()
      modifies this
      ensures Valid() && read == (|old(Rest())| >= 4)
      ensures read ==> n == Get32(old(Rest())[..4]) && Rest() == old(Rest())[4..] && atEnd == old(atEnd)
      ensures !read ==> n == 0 && Rest() == [] && atEnd
    {
      hide Get32;
      var data := Read(4);
      read := |data| == 4;
      n := if read then Get32(data) else 0;
    }
  }
}
