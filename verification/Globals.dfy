/** Global variables, written one after the other with a width of their own and no separators. */
module Globals {
  import opened References
  import opened Bytes

  type Width = w: nat | w <= 8

  /** Where the bytes of value `i` start. */
  function Offset(widths: seq<Width>, i: nat): nat
    requires i <= |widths|
  {
    if i == 0 then 0 else Offset(widths, i - 1) + widths[i - 1]
  }

  /** The bytes of the first `n` values. */
  function Image(values: seq<u64>, widths: seq<Width>, n: nat): (image: seq<byte>)
    requires n <= |values| == |widths|
    ensures |image| == Offset(widths, n)
  {
    if n == 0 then [] else Image(values, widths, n - 1) + LittleEndian(values[n - 1], widths[n - 1])
  }

  method CheckpointGlobal(values: seq<u64>, widths: seq<Width>) returns (rc: int, image: seq<byte>)
    requires |values| == |widths|
    ensures rc == 0 && image == Image(values, widths, |values|)
  {
    image := [];
    for i := 0 to |values|
      invariant image == Image(values, widths, i)
    {
      image := image + LittleEndian(values[i], widths[i]);
    }
    rc := 0;
  }

  /** A 64-bit variable whose low bytes have been overwritten by `data`. */
  function Patch(before: u64, data: seq<byte>): (r: u64)
    requires |data| <= 8
  {
    var bytes := data + LittleEndian(before, 8)[|data|..];
    WriteBack(bytes);
    Powers();
    assert Power256(8) == U64_LIMIT by { assert Power256(6) == 0x1_0000_0000_0000; }
    FromLittleEndian(bytes)
  }

  lemma {:induction false} AppendHigh(low: seq<byte>, high: seq<byte>)
    ensures FromLittleEndian(low + high) == FromLittleEndian(low) + Power256(|low|) * FromLittleEndian(high)
  {
    if low == [] {
      assert low + high == high;
    } else {
      assert (low + high)[1..] == low[1..] + high;
      AppendHigh(low[1..], high);
      hide FromLittleEndian;
      Distribute(FromLittleEndian(low[1..]), Power256(|low| - 1), FromLittleEndian(high));
    }
  }

  lemma Distribute(a: nat, p: nat, h: nat)
    ensures 256 * (a + p * h) == 256 * a + (256 * p) * h
  {}

  /** Overwriting the low bytes sets the number modulo their width. */
  lemma PatchSetsLow(before: u64, data: seq<byte>)
    requires |data| <= 8
    ensures Patch(before, data) % Power256(|data|) == FromLittleEndian(data)
  {
    var high := LittleEndian(before, 8)[|data|..];
    AppendHigh(data, high);
    WriteBack(data);
    RemainderIsUnique(Patch(before, data), Power256(|data|), FromLittleEndian(high), FromLittleEndian(data));
  }

  lemma {:induction false} OffsetGrows(widths: seq<Width>, i: nat, j: nat)
    requires i <= j <= |widths|
    ensures Offset(widths, i) <= Offset(widths, j)
  {
    if i < j {
      OffsetGrows(widths, i, j - 1);
    }
  }

  /** The low bytes of a restored variable are the bytes of value `i`, if the file has them all. */
  predicate Restored(global: u64, widths: seq<Width>, image: seq<byte>, i: nat)
    requires i < |widths|
  {
    Offset(widths, i + 1) <= |image| ==>
      global % Power256(widths[i]) == FromLittleEndian(image[Offset(widths, i)..Offset(widths, i + 1)])
  }

  /** Reads one value per width into memory that is not initialized: only low bytes are ever set. A file that
      ends early leaves the remaining variables as they were. */
  method RestoreGlobal(widths: seq<Width>, image: seq<byte>) returns (globals: array<u64>)
    ensures globals.Length == |widths|
    ensures forall i :: 0 <= i < |widths| ==> Restored(globals[i], widths, image, i)
  {
    hide Patch, Restored, ReadsFrom, Offset, ByteFile.Rest;
    globals := new u64[|widths|];
    var file := new ByteFile(image);
    ReadsAt(widths, image, 0);
    for i := 0 to |widths|
      invariant file.Valid() && fresh(file) && file.bytes == image && file.position == ReadsFrom(widths, image, i)
      invariant forall k :: 0 <= k < i ==> Restored(globals[k], widths, image, k)
    {
      var data := file.Read(widths[i]);
      ReadsAt(widths, image, i);
      PatchRestores(globals[i], widths, image, i, data);
      globals[i] := Patch(globals[i], data);
    }
  }

  /** Where the cursor is before value `i` is read. */
  function ReadsFrom(widths: seq<Width>, image: seq<byte>, i: nat): nat
    requires i <= |widths|
  {
    if Offset(widths, i) <= |image| then Offset(widths, i) else |image|
  }

  lemma ReadsAt(widths: seq<Width>, image: seq<byte>, i: nat)
    requires i <= |widths|
    ensures i == 0 ==> ReadsFrom(widths, image, i) == 0
    ensures i < |widths| ==>
              var start, left := ReadsFrom(widths, image, i), |image| - ReadsFrom(widths, image, i);
              ReadsFrom(widths, image, i + 1) == start + if widths[i] <= left then widths[i] else left
  {}

  lemma PatchRestores(global: u64, widths: seq<Width>, image: seq<byte>, i: nat, data: seq<byte>)
    requires i < |widths| && |data| <= widths[i]
    requires var start, left := ReadsFrom(widths, image, i), |image| - ReadsFrom(widths, image, i);
             |data| == (if widths[i] <= left then widths[i] else left) && data == image[start..start + |data|]
    ensures Restored(Patch(global, data), widths, image, i)
  {
    hide Patch, FromLittleEndian, Power256;
    PatchSetsLow(global, data);
    if Offset(widths, i + 1) <= |image| {
      assert image[Offset(widths, i)..Offset(widths, i + 1)] == data;
    }
  }

  lemma SliceOfPrefix(whole: seq<byte>, m: nat, i: nat, j: nat)
    requires i <= j <= m <= |whole|
    ensures whole[i..j] == whole[..m][i..j]
  {}

  lemma ImageParts(values: seq<u64>, widths: seq<Width>, n: nat)
    requires 0 < n <= |values| == |widths|
    ensures var image, m := Image(values, widths, n), Offset(widths, n - 1);
            && m <= |image| && image[..m] == Image(values, widths, n - 1)
            && image[m..] == LittleEndian(values[n - 1], widths[n - 1])
  {}

  /** Value `i` sits between its offset and the next. */
  lemma {:induction false} ImageHolds(values: seq<u64>, widths: seq<Width>, n: nat, i: nat)
    requires i < n <= |values| == |widths|
    ensures Offset(widths, 0) == 0 && Offset(widths, i + 1) == Offset(widths, i) + widths[i]
    ensures Offset(widths, i + 1) <= Offset(widths, n) == |Image(values, widths, n)|
    ensures Image(values, widths, n)[Offset(widths, i)..Offset(widths, i + 1)] == LittleEndian(values[i], widths[i])
  {
    hide Image, LittleEndian;
    ImageParts(values, widths, n);
    if i == n - 1 {
      var image := Image(values, widths, n);
      assert image[Offset(widths, i)..Offset(widths, n)] == image[Offset(widths, i)..];
    } else {
      OffsetGrows(widths, n - 1, n);
      ImageHolds(values, widths, n - 1, i);
      SliceOfPrefix(Image(values, widths, n), Offset(widths, n - 1), Offset(widths, i), Offset(widths, i + 1));
    }
  }

  /** Round trip: restoring with the same widths yields the low bytes of every value at its own index. */
  method RoundTrip(values: seq<u64>, widths: seq<Width>) returns (globals: array<u64>)
    requires |values| == |widths|
    ensures globals.Length == |values|
    ensures forall i :: 0 <= i < |values| ==>
              globals[i] % Power256(widths[i]) == values[i] % Power256(widths[i])
  {
    var rc, image := CheckpointGlobal(values, widths);
    globals := RestoreGlobal(widths, image);
    forall i | 0 <= i < |values| ensures globals[i] % Power256(widths[i]) == values[i] % Power256(widths[i]) {
      assert Restored(globals[i], widths, image, i);
      ImageHolds(values, widths, |values|, i);
      ReadBack(values[i], widths[i]);
    }
  }
}
