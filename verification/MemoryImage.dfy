/** Memory images: the page-count file, the three formats of the memory file, and what reading one means. */
module MemoryImage {
  import opened Options
  import opened References
  import opened Bytes

  const CHUNK: int := 4096
  const PAGE: int := 0x1_0000
  const FORMAT_V1: u32 := 0x4d534731
  const FORMAT_V2: u32 := 0x4d534732

  datatype Info = Info(format: u32, pageCount: u32, chunkSize: u32, sparse: bool)

  /** The page-count file: a page count, or a format marker and a page count. */
  function Inspect(meta: seq<byte>): Option<Info> {
    if |meta| == 4 then
      Some(Info(0, Get32(meta), CHUNK, false))
    else if |meta| == 8 then
      var format := Get32(meta[..4]);
      if format != FORMAT_V1 && format != FORMAT_V2 then None
      else Some(Info(format, Get32(meta[4..]), CHUNK, true))
    else None
  }

  function TotalSize(info: Info): nat {
    info.pageCount * PAGE
  }

  /** How many chunks make up that many pages: their size divided by the chunk size, which divides it. */
  function ChunkCount(pageCount: u32): (n: nat)
    ensures n * CHUNK == pageCount * PAGE
  {
    pageCount * 16
  }

  /** How many chunks the memory has room for. */
  function Capacity(info: Info): nat {
    ChunkCount(info.pageCount)
  }

  // ---------------------------------------------------------------- records

  /** `count` consecutive chunks from chunk `start` on. */
  datatype Record = Record(start: nat, count: nat, data: seq<byte>)

  function EncodeRecord(format: u32, r: Record): seq<byte>
    requires Representable(r)
  {
    Put32(r.start) + (if format == FORMAT_V1 then [] else Put32(r.count)) + r.data
  }

  predicate Representable(r: Record) {
    r.start < U32_LIMIT && r.count < U32_LIMIT
  }

  /** A record as the format writes it: V1 has single chunks, V2 has extents; both are full-length. */
  predicate Shaped(format: u32, r: Record) {
    && Representable(r) && r.count > 0 && (format == FORMAT_V1 ==> r.count == 1)
    && |r.data| == r.count * CHUNK
  }

  /** ... and within a memory of `capacity` chunks. */
  predicate WellFormed(format: u32, capacity: nat, r: Record) {
    Shaped(format, r) && r.start + r.count <= capacity
  }

  ghost predicate AllShaped(format: u32, records: seq<Record>) {
    forall r :: r in records ==> Shaped(format, r)
  }

  ghost predicate AllWellFormed(format: u32, capacity: nat, records: seq<Record>) {
    forall r :: r in records ==> WellFormed(format, capacity, r)
  }

  ghost function Encode(format: u32, records: seq<Record>): seq<byte>
    requires AllShaped(format, records)
  {
    if records == [] then [] else
      assert records[0] in records;
      EncodeRecord(format, records[0]) + Encode(format, records[1..])
  }

  /** One turn of the reading loop on the bytes left: the next record, or none if the image is rejected. */
  function ReadRecord(format: u32, capacity: nat, bytes: seq<byte>): (r: Option<Record>)
    requires |bytes| >= 4
    ensures r.Some? ==> WellFormed(format, capacity, r.value)
    ensures r.Some? ==> EncodeRecord(format, r.value) <= bytes
  {
    Put32Get32(bytes[..4]);
    var start := Get32(bytes[..4]);
    if format == FORMAT_V1 then
      if start >= capacity || |bytes| < 4 + CHUNK then None
      else
        var r := Record(start, 1, bytes[4..4 + CHUNK]);
        assert EncodeRecord(format, r) == bytes[..4 + CHUNK];
        Some(r)
    else if |bytes| < 8 then None
    else
      Put32Get32(bytes[4..8]);
      var count := Get32(bytes[4..8]);
      if count == 0 || start + count > capacity || |bytes| < 8 + count * CHUNK then None
      else
        var r := Record(start, count, bytes[8..8 + count * CHUNK]);
        assert EncodeRecord(format, r) == bytes[..8 + count * CHUNK];
        Some(r)
  }

  /** The records read before the end, or before the first one that is rejected. */
  datatype Parsed = Parsed(records: seq<Record>, ok: bool)

  /** The sparse reader on any bytes at all. Fewer than four bytes at an index are taken for the end. */
  function Parse(format: u32, capacity: nat, bytes: seq<byte>): Parsed
    decreases |bytes|
  {
    if |bytes| < 4 then Parsed([], true) else
      match ReadRecord(format, capacity, bytes)
      case None => Parsed([], false)
      case Some(r) =>
        var rest := Parse(format, capacity, bytes[|EncodeRecord(format, r)|..]);
        Parsed([r] + rest.records, rest.ok)
  }

  function Chunk(memory: seq<byte>, c: nat): (chunk: seq<byte>)
    requires (c + 1) * CHUNK <= |memory|
    ensures |chunk| == CHUNK
  {
    memory[c * CHUNK..(c + 1) * CHUNK]
  }

  /** The dense format is every chunk in order, from chunk `c` on. */
  function DenseRecords(image: seq<byte>, c: nat): seq<Record>
    decreases |image| - c * CHUNK
  {
    if (c + 1) * CHUNK > |image| then [] else [Record(c, 1, Chunk(image, c))] + DenseRecords(image, c + 1)
  }

  /** What the reader makes of a memory file, in any of the three formats. */
  function Plan(info: Info, image: seq<byte>): Parsed {
    if info.sparse then Parse(info.format, Capacity(info), image)
    else if |image| != TotalSize(info) then Parsed([], false)
    else Parsed(DenseRecords(image, 0), true)
  }

  // ---------------------------------------------------------------- visitors

  /** The arguments of a visitor call; the offset and the length are 32-bit numbers. */
  datatype CallArgs = CallArgs(offset: u32, data: seq<byte>, len: u32)
  type Call = c: CallArgs | c.len <= |c.data| witness CallArgs(0, [], 0)

  function CallOf(r: Record): Call {
    CallArgs(r.start * CHUNK % U32_LIMIT, r.data, |r.data| % U32_LIMIT)
  }

  /** A visitor's return code and its user data afterwards. */
  datatype Verdict<S> = Verdict(rc: int, state: S)

  function Drive<S>(visitor: (S, Call) -> Verdict<S>, s: S, records: seq<Record>): Verdict<S> {
    if records == [] then Verdict(0, s) else
      var v := visitor(s, CallOf(records[0]));
      if v.rc != 0 then Verdict(-1, v.state) else Drive(visitor, v.state, records[1..])
  }

  function Visit<S>(visitor: (S, Call) -> Verdict<S>, s: S, image: seq<byte>, meta: seq<byte>): Verdict<S> {
    match Inspect(meta)
    case None => Verdict(-1, s)
    case Some(info) =>
      var plan := Plan(info, image);
      var end := Drive(visitor, s, plan.records);
      Verdict(if end.rc == 0 && plan.ok then 0 else -1, end.state)
  }

  // ---------------------------------------------------------------- restoring

  function Write(buffer: seq<byte>, offset: nat, data: seq<byte>): (r: seq<byte>)
    requires offset + |data| <= |buffer|
    ensures |r| == |buffer|
  {
    buffer[..offset] + data + buffer[offset + |data|..]
  }

  /** The visitor of `restore_memory_into`. */
  function StoreChunk(buffer: seq<byte>, c: Call): Verdict<seq<byte>> {
    if c.offset + c.len > |buffer| then Verdict(-1, buffer)
    else Verdict(0, Write(buffer, c.offset, c.data[..c.len]))
  }

  function RestoreInto(image: seq<byte>, meta: seq<byte>, buffer: seq<byte>): Verdict<seq<byte>> {
    match Inspect(meta)
    case None => Verdict(-1, buffer)
    case Some(info) =>
      if |buffer| < TotalSize(info) then Verdict(-1, buffer)
      else Visit(StoreChunk, buffer, image, meta)
  }

  datatype Array8 = Array8(size: u32, contents: seq<byte>)

  /** `restore_memory`: into zeroed memory; none is what is returned for a rejected image. */
  function RestoreFresh(image: seq<byte>, meta: seq<byte>): Option<Array8> {
    match Inspect(meta)
    case None => None
    case Some(info) =>
      var v := RestoreInto(image, meta, Zeros(TotalSize(info)));
      if v.rc != 0 then None else Some(Array8(TotalSize(info) % U32_LIMIT, v.state))
  }

  // ---------------------------------------------------------------- checkpointing

  predicate IsZero(chunk: seq<byte>) {
    forall i :: 0 <= i < |chunk| ==> chunk[i] == 0
  }

  /** The chunks worth writing, from chunk `c` up to chunk `n`; the index is a 32-bit number. */
  function SparseRecords(memory: seq<byte>, c: nat, n: nat): (records: seq<Record>)
    requires n * CHUNK <= |memory|
    ensures forall r :: r in records ==> Shaped(FORMAT_V1, r)
    decreases n - c
  {
    if c >= n then []
    else if IsZero(Chunk(memory, c)) then SparseRecords(memory, c + 1, n)
    else [Record(c % U32_LIMIT, 1, Chunk(memory, c))] + SparseRecords(memory, c + 1, n)
  }

  ghost function SparseImage(memory: seq<byte>, pageCount: u32): seq<byte>
    requires pageCount * PAGE <= |memory|
  {
    Encode(FORMAT_V1, SparseRecords(memory, 0, ChunkCount(pageCount)))
  }

  function SparseMeta(pageCount: u32): seq<byte> {
    Put32(FORMAT_V1) + Put32(pageCount)
  }

  /** The page-count files that are accepted, and what they say. */
  lemma InspectsExactly(meta: seq<byte>, info: Info)
    ensures Inspect(meta) == Some(info) <==>
            || (info == Info(0, info.pageCount, 4096, false) && meta == Put32(info.pageCount))
            || ((info.format == 0x4d53_4731 || info.format == 0x4d53_4732)
                && info == Info(info.format, info.pageCount, 4096, true)
                && meta == Put32(info.format) + Put32(info.pageCount))
  {
    Get32Put32(info.pageCount);
    Get32Put32(info.format);
    var both := Put32(info.format) + Put32(info.pageCount);
    assert both[..4] == Put32(info.format) && both[4..] == Put32(info.pageCount);
    if |meta| == 4 {
      Put32Get32(meta);
    } else if |meta| == 8 {
      Put32Get32(meta[..4]);
      Put32Get32(meta[4..]);
      assert meta == meta[..4] + meta[4..];
    }
  }

  lemma InspectSparseMeta(pageCount: u32)
    ensures Inspect(SparseMeta(pageCount)) == Some(Info(FORMAT_V1, pageCount, CHUNK, true))
  {
    InspectsExactly(SparseMeta(pageCount), Info(FORMAT_V1, pageCount, CHUNK, true));
  }

  /** The page-count file of a checkpoint, byte by byte. */
  lemma MetaLayout(pageCount: u32)
    ensures SparseMeta(pageCount)
            == [0x31, 0x47, 0x53, 0x4d,
                pageCount % 256, pageCount / 0x100 % 256, pageCount / 0x1_0000 % 256, pageCount / 0x100_0000]
  {
    PutOrder(FORMAT_V1);
    PutOrder(pageCount);
  }
}
