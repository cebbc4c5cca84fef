/** Checkpointing and restoring memory as the program does it: loops over chunks, a file cursor, and a
    buffer that is written in place. */
module MemoryFiles {
  import opened Options
  import opened References
  import opened Bytes
  import opened MemoryImage
  import opened MemoryParsing
  import opened MemoryRestore
  import opened MemoryRoundTrip

  // ---------------------------------------------------------------- checkpoint

  method IsZeroMemoryChunk(memory: array<byte>, offset: nat) returns (zero: bool)
    requires offset + CHUNK <= memory.Length
    ensures zero <==> IsZero(memory[offset..offset + CHUNK])
    ensures zero <==> forall k :: offset <= k < offset + 4096 ==> memory[k] == 0
  {
    for i := 0 to CHUNK
      invariant forall k :: offset <= k < offset + i ==> memory[k] == 0
    {
      if memory[offset + i] != 0 {
        assert memory[offset..offset + CHUNK][i] != 0;
        return false;
      }
    }
    return true;
  }

  /** Appends an index and the chunk for every chunk that is not zero. */
  method CheckpointMemory(memory: array<byte>, pageCount: u32) returns (rc: int, image: seq<byte>, meta: seq<byte>)
    requires pageCount * PAGE <= memory.Length
    ensures rc == 0 && meta == SparseMeta(pageCount)
    ensures image == SparseImage(memory[..], pageCount)
  {
    hide EncodedFrom, IsZero, Put32, SparseImage, ChunkIndex, Chunk;
    var totalSize := pageCount * PAGE;
    ghost var contents, n, c := memory[..], pageCount * 16, 0;
    var offset := 0;
    image := [];
    StartEncoding(contents, pageCount);
    while offset < totalSize
      invariant c <= n && offset == c * CHUNK
      invariant image + EncodedFrom(contents, c, n) == SparseImage(contents, pageCount)
    {
      ChunkAt(contents, offset, c);
      var zero := IsZeroMemoryChunk(memory, offset);
      EncodeNext(contents, c, n);
      if !zero {
        IndexOf(offset, c);
        image := image + Put32(ChunkIndex(offset)) + memory[offset..offset + CHUNK];
      }
      offset, c := offset + CHUNK, c + 1;
    }
    EncodeNext(contents, n, n);
    meta := Put32(FORMAT_V1) + Put32(pageCount);
    rc := 0;
  }

  /** The index of the chunk at `offset`, as a 32-bit number. */
  function ChunkIndex(offset: nat): u32 {
    offset / CHUNK % U32_LIMIT
  }

  lemma IndexOf(offset: nat, c: nat)
    requires offset == c * CHUNK
    ensures offset / CHUNK == c && ChunkIndex(offset) == c % U32_LIMIT
  {}

  lemma ChunkAt(memory: seq<byte>, offset: nat, c: nat)
    requires offset == c * CHUNK && offset + CHUNK <= |memory|
    ensures Chunk(memory, c) == memory[offset..offset + CHUNK]
  {}

  ghost function EncodedFrom(memory: seq<byte>, c: nat, n: nat): seq<byte>
    requires n * CHUNK <= |memory|
  {
    Encode(FORMAT_V1, SparseRecords(memory, c, n))
  }

  lemma StartEncoding(memory: seq<byte>, pageCount: u32)
    requires pageCount * PAGE <= |memory|
    ensures EncodedFrom(memory, 0, pageCount * 16) == SparseImage(memory, pageCount)
  {
    assert ChunkCount(pageCount) == pageCount * 16;
  }

  /** The image from chunk `c` on: nothing for a zero chunk, else its index and its bytes. */
  lemma EncodeNext(memory: seq<byte>, c: nat, n: nat)
    requires n * CHUNK <= |memory| && c <= n
    ensures EncodedFrom(memory, c, n)
            == if c == n then []
               else (if IsZero(Chunk(memory, c)) then [] else Put32(c % U32_LIMIT) + Chunk(memory, c))
                    + EncodedFrom(memory, c + 1, n)
  {
    hide IsZero, Chunk, Put32;
    if c < n && !IsZero(Chunk(memory, c)) {
      assert SparseRecords(memory, c, n)[1..] == SparseRecords(memory, c + 1, n);
    }
  }

  // ---------------------------------------------------------------- reading

  method InspectMemoryImage(meta: seq<byte>) returns (info: Option<Info>)
    ensures info == Inspect(meta)
  {
    hide Get32;
    var file := new ByteFile(meta);
    info := None;
    if |meta| == 4 {
      assert meta[..4] == meta;
      var read, pageCount := file.ReadU32();
      info := Some(Info(0, pageCount, CHUNK, false));
    } else if |meta| == 8 {
      ghost var tail := meta[4..];
      assert tail[..4] == tail;
      var readFormat, format := file.ReadU32();
      assert file.Rest() == tail;
      var readCount, pageCount := file.ReadU32();
      if format == FORMAT_V1 || format == FORMAT_V2 {
        info := Some(Info(format, pageCount, CHUNK, true));
      }
    }
  }

  /** How one turn of the reading loop ends. */
  datatype Turn = Finished | Rejected | Got(r: Record)

  /** Reads the next sparse record. An index that cannot be read in full is the end of the image; a record
      that is out of range, empty or cut short is refused. */
  method NextRecord(file: ByteFile, info: Info) returns (turn: Turn)
    requires file.Valid()
    modifies file
    ensures file.Valid()
    ensures var p := Parse(info.format, Capacity(info), old(file.Rest()));
            match turn
            case Finished => p == Parsed([], true)
            case Rejected => p == Parsed([], false)
            case Got(r) =>
              var rest := Parse(info.format, Capacity(info), file.Rest());
              && p == Parsed([r] + rest.records, rest.ok)
              && |file.Rest()| < |old(file.Rest())|
  {
    hide Get32, Parse, ChunkCount;
    ghost var before := file.Rest();
    AtEnd(info, before);
    var read, start := file.ReadU32();
    if !read {
      return Finished;
    }
    if info.format == FORMAT_V1 {
      ChunkTurn(info, before);
      if start >= Capacity(info) {
        return Rejected;
      }
      var data := file.Read(CHUNK);
      if |data| < CHUNK {
        return Rejected;
      }
      return Got(Record(start, 1, data));
    }
    ExtentTurn(info, before);
    var readCount, count := file.ReadU32();
    if !readCount || count == 0 || start + count > Capacity(info) {
      return Rejected;
    }
    var data := file.Read(count * CHUNK);
    if |data| < count * CHUNK {
      return Rejected;
    }
    return Got(Record(start, count, data));
  }

  lemma AtEnd(info: Info, bytes: seq<byte>)
    ensures |bytes| < 4 ==> Parse(info.format, Capacity(info), bytes) == Parsed([], true)
  {}

  /** What a V1 record looks like: an index in range, then a chunk. */
  lemma ChunkTurn(info: Info, bytes: seq<byte>)
    requires info.format == FORMAT_V1 && |bytes| >= 4
    ensures var start, tail, p := Get32(bytes[..4]), bytes[4..], Parse(info.format, Capacity(info), bytes);
            if start >= Capacity(info) || |tail| < CHUNK then p == Parsed([], false)
            else
              var rest := Parse(info.format, Capacity(info), tail[CHUNK..]);
              p == Parsed([Record(start, 1, tail[..CHUNK])] + rest.records, rest.ok)
  {
    hide Get32, Put32, ChunkCount;
    if Get32(bytes[..4]) < Capacity(info) && |bytes[4..]| >= CHUNK {
      Put32Get32(bytes[..4]);
      var r := Record(Get32(bytes[..4]), 1, bytes[4..][..CHUNK]);
      assert bytes[4..4 + CHUNK] == r.data;
      assert bytes == EncodeRecord(info.format, r) + bytes[4..][CHUNK..];
      GotRecord(info, bytes, r, bytes[4..][CHUNK..]);
    }
  }

  /** What a V2 record looks like: an index and a count in range, then that many chunks. */
  lemma ExtentTurn(info: Info, bytes: seq<byte>)
    requires info.format != FORMAT_V1 && |bytes| >= 4
    ensures var start, tail, p := Get32(bytes[..4]), bytes[4..], Parse(info.format, Capacity(info), bytes);
            if |tail| < 4 then p == Parsed([], false)
            else
              var count, body := Get32(tail[..4]), tail[4..];
              if count == 0 || start + count > Capacity(info) || |body| < count * CHUNK then p == Parsed([], false)
              else
                var rest := Parse(info.format, Capacity(info), body[count * CHUNK..]);
                p == Parsed([Record(start, count, body[..count * CHUNK])] + rest.records, rest.ok)
  {
    hide Get32, Put32, ChunkCount;
    if |bytes| >= 8 {
      assert bytes[4..8] == bytes[4..][..4] && bytes[8..] == bytes[4..][4..];
      var start, count, body := Get32(bytes[..4]), Get32(bytes[4..8]), bytes[8..];
      if count > 0 && start + count <= Capacity(info) && |body| >= count * CHUNK {
        Put32Get32(bytes[..4]);
        Put32Get32(bytes[4..8]);
        var r := Record(start, count, body[..count * CHUNK]);
        assert bytes[8..8 + count * CHUNK] == r.data;
        assert bytes == EncodeRecord(info.format, r) + body[count * CHUNK..];
        GotRecord(info, bytes, r, body[count * CHUNK..]);
      }
    }
  }

  lemma GotRecord(info: Info, before: seq<byte>, r: Record, rest: seq<byte>)
    requires Representable(r) && |before| >= 4 && before == EncodeRecord(info.format, r) + rest
    requires ReadRecord(info.format, Capacity(info), before) == Some(r)
    ensures var p := Parse(info.format, Capacity(info), rest);
            Parse(info.format, Capacity(info), before) == Parsed([r] + p.records, p.ok)
  {
    hide ReadRecord, EncodeRecord;
    assert before[|EncodeRecord(info.format, r)|..] == rest;
  }

  // ---------------------------------------------------------------- visiting

  /** The return code and the user data that visiting a plan from `s` on leads to. */
  ghost function Outcome<S>(visitor: (S, Call) -> Verdict<S>, s: S, plan: Parsed): Verdict<S> {
    var end := Drive(visitor, s, plan.records);
    Verdict(if end.rc == 0 && plan.ok then 0 else -1, end.state)
  }

  lemma OutcomeStep<S>(visitor: (S, Call) -> Verdict<S>, s: S, r: Record, rest: Parsed)
    ensures var v := visitor(s, CallOf(r));
            Outcome(visitor, s, Parsed([r] + rest.records, rest.ok))
            == if v.rc != 0 then Verdict(-1, v.state) else Outcome(visitor, v.state, rest)
  {
    assert ([r] + rest.records)[1..] == rest.records;
  }

  lemma OutcomeEnd<S>(visitor: (S, Call) -> Verdict<S>, s: S, ok: bool)
    ensures Outcome(visitor, s, Parsed([], ok)) == Verdict(if ok then 0 else -1, s)
  {}

  /** A dense image from chunk `c` on. */
  ghost function DensePlan(image: seq<byte>, c: nat): Parsed {
    Parsed(DenseRecords(image, c), true)
  }

  lemma DensePlanEnds(image: seq<byte>, n: nat)
    requires |image| == n * CHUNK
    ensures DensePlan(image, n) == Parsed([], true)
  {}

  ghost function SparsePlanOf(info: Info, bytes: seq<byte>): Parsed {
    Parse(info.format, Capacity(info), bytes)
  }

  lemma VisitCases<S>(visitor: (S, Call) -> Verdict<S>, s: S, image: seq<byte>, meta: seq<byte>)
    ensures Inspect(meta) == None ==> Visit(visitor, s, image, meta) == Verdict(-1, s)
    ensures Inspect(meta).Some? ==>
              var info := Inspect(meta).value;
              Visit(visitor, s, image, meta)
              == if info.sparse then Outcome(visitor, s, SparsePlanOf(info, image))
                 else if |image| != TotalSize(info) then Verdict(-1, s)
                 else Outcome(visitor, s, DensePlan(image, 0))
  {}

  /** The next chunk of a dense image; `offset` is where chunk `c` starts. */
  method NextDense(file: ByteFile, offset: nat, ghost c: nat) returns (r: Record)
    requires file.Valid() && file.position == offset == c * CHUNK && (c + 1) * CHUNK <= |file.bytes|
    modifies file
    ensures file.Valid() && file.position == offset + CHUNK
    ensures var rest := DensePlan(file.bytes, c + 1);
            DensePlan(file.bytes, c) == Parsed([r] + rest.records, rest.ok)
    ensures CallOf(r).offset == offset % U32_LIMIT && CallOf(r).len == CHUNK
    ensures r.data == file.bytes[offset..offset + 4096]
  {
    var data := file.Read(CHUNK);
    assert data == Chunk(file.bytes, c);
    IndexOf(offset, c);
    r := Record(offset / CHUNK, 1, data);
  }

  /** Calls the visitor with every chunk of a dense image. */
  method VisitDense<S>(file: ByteFile, visitor: (S, Call) -> Verdict<S>, s0: S, ghost n: nat) returns (rc: int, s: S)
    requires file.Valid() && file.position == 0 && |file.bytes| == n * CHUNK
    modifies file
    ensures Verdict(rc, s) == Outcome(visitor, s0, DensePlan(file.bytes, 0))
  {
    hide DensePlan, Outcome, CallOf;
    s := s0;
    var offset := 0;
    ghost var c := 0;
    while offset < |file.bytes|
      invariant file.Valid() && file.position == offset == c * CHUNK && c <= n
      invariant Outcome(visitor, s, DensePlan(file.bytes, c)) == Outcome(visitor, s0, DensePlan(file.bytes, 0))
    {
      var r := NextDense(file, offset, c);
      OutcomeStep(visitor, s, r, DensePlan(file.bytes, c + 1));
      var v := visitor(s, CallOf(r));
      s := v.state;
      if v.rc != 0 {
        return -1, s;
      }
      offset, c := offset + CHUNK, c + 1;
    }
    DensePlanEnds(file.bytes, n);
    OutcomeEnd(visitor, s, true);
    return 0, s;
  }

  /** Calls the visitor with every record of a sparse image, up to its end or a record that is rejected. */
  method VisitSparse<S>(file: ByteFile, info: Info, visitor: (S, Call) -> Verdict<S>, s0: S) returns (rc: int, s: S)
    requires file.Valid()
    modifies file
    ensures Verdict(rc, s) == Outcome(visitor, s0, SparsePlanOf(info, old(file.Rest())))
  {
    hide Parse, Outcome;
    s := s0;
    while true
      invariant file.Valid()
      invariant Outcome(visitor, s, SparsePlanOf(info, file.Rest()))
                == Outcome(visitor, s0, SparsePlanOf(info, old(file.Rest())))
      decreases |file.Rest()|
    {
      var turn := NextRecord(file, info);
      match turn
      case Finished =>
        OutcomeEnd(visitor, s, true);
        return 0, s;
      case Rejected =>
        OutcomeEnd(visitor, s, false);
        return -1, s;
      case Got(r) =>
        OutcomeStep(visitor, s, r, SparsePlanOf(info, file.Rest()));
        var v := visitor(s, CallOf(r));
        s := v.state;
        if v.rc != 0 {
          return -1, s;
        }
    }
  }

  /** Visits the chunks or extents of an image in any of the three formats. `visitor` is any visitor at
      all, and `s0` the user data it is first called with. */
  method VisitMemoryChunks<S>(image: seq<byte>, meta: seq<byte>, visitor: (S, Call) -> Verdict<S>, s0: S)
    returns (rc: int, s: S)
    ensures Verdict(rc, s) == Visit(visitor, s0, image, meta)
  {
    hide Visit, Inspect, Outcome, SparsePlanOf, DensePlan, ChunkCount;
    VisitCases(visitor, s0, image, meta);
    var info := InspectMemoryImage(meta);
    if info.None? {
      return -1, s0;
    }
    var file := new ByteFile(image);
    if !info.value.sparse {
      if |image| != TotalSize(info.value) {
        return -1, s0;
      }
      rc, s := VisitDense(file, visitor, s0, ChunkCount(info.value.pageCount));
    } else {
      rc, s := VisitSparse(file, info.value, visitor, s0);
    }
  }

  // ---------------------------------------------------------------- restoring

  /** The visitor of `restore_memory_into`: refuses what does not fit, copies the rest in place. */
  method CopyChunk(dst: array<byte>, c: Call) returns (rc: int)
    modifies dst
    ensures Verdict(rc, dst[..]) == old(StoreChunk(dst[..], c))
    ensures rc == if c.offset + c.len <= dst.Length then 0 else -1
    ensures forall k :: 0 <= k < dst.Length ==>
              dst[k] == if rc == 0 && c.offset <= k < c.offset + c.len then c.data[k - c.offset] else old(dst[k])
  {
    if c.offset + c.len > dst.Length {
      return -1;
    }
    ghost var before := dst[..];
    for i := 0 to c.len
      invariant forall k :: 0 <= k < dst.Length ==>
                  dst[k] == if c.offset <= k < c.offset + i then c.data[k - c.offset] else before[k]
    {
      dst[c.offset + i] := c.data[i];
    }
    assert dst[..] == Write(before, c.offset, c.data[..c.len]);
    return 0;
  }

  method RestoreDense(file: ByteFile, dst: array<byte>, ghost n: nat) returns (rc: int)
    requires file.Valid() && file.position == 0 && |file.bytes| == n * CHUNK
    modifies file, dst
    ensures Verdict(rc, dst[..]) == Outcome(StoreChunk, old(dst[..]), DensePlan(file.bytes, 0))
  {
    hide DensePlan, Outcome, StoreChunk, CallOf;
    ghost var before, c := dst[..], 0;
    var offset := 0;
    while offset < |file.bytes|
      invariant file.Valid() && file.position == offset == c * CHUNK && c <= n
      invariant Outcome(StoreChunk, dst[..], DensePlan(file.bytes, c))
                == Outcome(StoreChunk, before, DensePlan(file.bytes, 0))
    {
      var r := NextDense(file, offset, c);
      OutcomeStep(StoreChunk, dst[..], r, DensePlan(file.bytes, c + 1));
      rc := CopyChunk(dst, CallOf(r));
      if rc != 0 {
        return -1;
      }
      offset, c := offset + CHUNK, c + 1;
    }
    DensePlanEnds(file.bytes, n);
    OutcomeEnd(StoreChunk, dst[..], true);
    return 0;
  }

  method RestoreSparse(file: ByteFile, info: Info, dst: array<byte>) returns (rc: int)
    requires file.Valid()
    modifies file, dst
    ensures Verdict(rc, dst[..]) == Outcome(StoreChunk, old(dst[..]), SparsePlanOf(info, old(file.Rest())))
  {
    hide Parse, Outcome, StoreChunk;
    ghost var before := dst[..];
    while true
      invariant file.Valid()
      invariant Outcome(StoreChunk, dst[..], SparsePlanOf(info, file.Rest()))
                == Outcome(StoreChunk, before, SparsePlanOf(info, old(file.Rest())))
      decreases |file.Rest()|
    {
      var turn := NextRecord(file, info);
      match turn
      case Finished =>
        OutcomeEnd(StoreChunk, dst[..], true);
        return 0;
      case Rejected =>
        OutcomeEnd(StoreChunk, dst[..], false);
        return -1;
      case Got(r) =>
        OutcomeStep(StoreChunk, dst[..], r, SparsePlanOf(info, file.Rest()));
        rc := CopyChunk(dst, CallOf(r));
        if rc != 0 {
          return -1;
        }
    }
  }

  /** Restores an image into the caller's buffer, in place; the buffer is not cleared first. */
  method RestoreMemoryInto(dst: array<byte>, image: seq<byte>, meta: seq<byte>) returns (rc: int)
    modifies dst
    ensures Verdict(rc, dst[..]) == old(RestoreInto(image, meta, dst[..]))
  {
    hide Visit, Inspect, Outcome, SparsePlanOf, DensePlan, StoreChunk, ChunkCount;
    VisitCases(StoreChunk, dst[..], image, meta);
    var info := InspectMemoryImage(meta);
    if info.None? {
      return -1;
    }
    if dst.Length < TotalSize(info.value) {
      return -1;
    }
    var file := new ByteFile(image);
    if !info.value.sparse {
      if |image| != TotalSize(info.value) {
        return -1;
      }
      rc := RestoreDense(file, dst, ChunkCount(info.value.pageCount));
    } else {
      rc := RestoreSparse(file, info.value, dst);
    }
  }

  /** Restores an image into zeroed memory, or hands out nothing. */
  method RestoreMemory(image: seq<byte>, meta: seq<byte>) returns (ok: bool, size: u32, contents: array<byte>)
    ensures fresh(contents)
    ensures (if ok then Some(Array8(size, contents[..])) else None) == RestoreFresh(image, meta)
    ensures ok ==> (contents.Length - size) % 0x1_0000_0000 == 0
    ensures !ok ==> size == 0 && contents.Length == 0
  {
    hide RestoreInto, Inspect;
    var nothing := new byte[0];
    var info := InspectMemoryImage(meta);
    if info.None? {
      return false, 0, nothing;
    }
    var totalSize := TotalSize(info.value);
    contents := new byte[totalSize](_ => 0);
    assert contents[..] == Zeros(totalSize);
    var rc := RestoreMemoryInto(contents, image, meta);
    if rc != 0 {
      return false, 0, nothing;
    }
    return true, totalSize % U32_LIMIT, contents;
  }

  /** A memory that is checkpointed and restored comes back byte for byte; the size reported with it is
      right exactly below 65536 pages. */
  method CheckpointAndRestore(memory: array<byte>, pageCount: u32) returns (ok: bool, size: u32, contents: array<byte>)
    requires memory.Length == pageCount * PAGE && pageCount <= PAGE
    ensures ok && contents[..] == memory[..]
    ensures size == memory.Length <==> pageCount < PAGE
  {
    hide SparseImage, SparseMeta, RestoreFresh;
    var rc, image, meta := CheckpointMemory(memory, pageCount);
    RoundTrip(memory[..], pageCount);
    ok, size, contents := RestoreMemory(image, meta);
  }
}
