/** Checkpoint and restore are inverse to each other, and the three formats mean the same. */
module MemoryRoundTrip {
  import opened Options
  import opened References
  import opened Bytes
  import opened MemoryImage
  import opened MemoryParsing
  import opened MemoryRestore

  // ---------------------------------------------------------------- what is written

  /** The index of a chunk fits its 32 bits. */
  lemma SparseFirst(memory: seq<byte>, c: nat, n: nat)
    requires n * CHUNK <= |memory| && c < n <= U32_LIMIT
    ensures SparseRecords(memory, c, n)
            == (if IsZero(Chunk(memory, c)) then [] else [Record(c, 1, Chunk(memory, c))])
               + SparseRecords(memory, c + 1, n)
  {
    hide Chunk, IsZero;
  }

  lemma SparseEnd(memory: seq<byte>, c: nat, n: nat)
    requires n * CHUNK <= |memory| && n <= c
    ensures SparseRecords(memory, c, n) == []
  {}

  lemma {:induction false} SparseIsWellFormed(memory: seq<byte>, c: nat, n: nat)
    requires n * CHUNK <= |memory| && n <= U32_LIMIT
    ensures AllWellFormed(FORMAT_V1, n, SparseRecords(memory, c, n))
    ensures Singles(SparseRecords(memory, c, n))
    ensures forall r :: r in SparseRecords(memory, c, n) ==> c <= r.start
    decreases n - c
  {
    hide Chunk, IsZero, SparseRecords;
    if c < n {
      SparseFirst(memory, c, n);
      SparseIsWellFormed(memory, c + 1, n);
    } else {
      SparseEnd(memory, c, n);
    }
  }

  /** The last record for a chunk is its contents, and there is none for a chunk of zeros. */
  lemma {:induction false} SparseLastTo(memory: seq<byte>, c: nat, n: nat, k: nat)
    requires n * CHUNK <= |memory| && n <= U32_LIMIT && k < n
    ensures LastTo(SparseRecords(memory, c, n), k)
            == if c <= k && !IsZero(Chunk(memory, k)) then Some(Chunk(memory, k)) else None
    decreases n - c
  {
    hide Chunk, IsZero, SparseRecords;
    if c < n {
      SparseFirst(memory, c, n);
      SparseLastTo(memory, c + 1, n, k);
      if IsZero(Chunk(memory, c)) {
        assert SparseRecords(memory, c, n) == SparseRecords(memory, c + 1, n);
      } else {
        assert SparseRecords(memory, c, n)[1..] == SparseRecords(memory, c + 1, n);
      }
    } else {
      SparseEnd(memory, c, n);
    }
  }

  // ---------------------------------------------------------------- memory to image to memory

  /** A restored buffer, chunk by chunk: the memory where it was not zero, the old bytes elsewhere. */
  ghost predicate IsMerged(memory: seq<byte>, n: nat, buffer: seq<byte>, result: seq<byte>)
    requires n * CHUNK <= |memory| && n * CHUNK <= |buffer|
  {
    && |result| == |buffer|
    && (forall c: nat :: c < n ==>
          Chunk(result, c) == if IsZero(Chunk(memory, c)) then Chunk(buffer, c) else Chunk(memory, c))
    && result[n * CHUNK..] == buffer[n * CHUNK..]
  }

  /** What a checkpoint is read back as, for every memory the specification of WebAssembly allows. */
  lemma CheckpointIsRead(memory: seq<byte>, pageCount: u32)
    requires |memory| == pageCount * PAGE && pageCount <= PAGE
    ensures var info := Info(FORMAT_V1, pageCount, CHUNK, true);
            && Inspect(SparseMeta(pageCount)) == Some(info)
            && Plan(info, SparseImage(memory, pageCount))
               == Parsed(SparseRecords(memory, 0, ChunkCount(pageCount)), true)
  {
    var n := ChunkCount(pageCount);
    var records := SparseRecords(memory, 0, n);
    InspectSparseMeta(pageCount);
    SparseIsWellFormed(memory, 0, n);
    assert Encode(FORMAT_V1, records) + [] == Encode(FORMAT_V1, records);
    ReadingIsUnique(FORMAT_V1, n, Encode(FORMAT_V1, records), records, []);
  }

  /** Restoring a checkpoint into any large enough buffer succeeds, sets the chunks that were not zero,
      and leaves everything else as it was. */
  lemma RoundTripInto(memory: seq<byte>, pageCount: u32, buffer: seq<byte>)
    requires |memory| == pageCount * PAGE && pageCount <= PAGE && |memory| <= |buffer|
    ensures var v := RestoreInto(SparseImage(memory, pageCount), SparseMeta(pageCount), buffer);
            v.rc == 0 && IsMerged(memory, ChunkCount(pageCount), buffer, v.state)
  {
    hide SparseMeta, RestoreInto, Encode, Overlay, LastTo, Chunk, IsZero, ChunkCount;
    var n := ChunkCount(pageCount);
    var records := SparseRecords(memory, 0, n);
    SparseIsWellFormed(memory, 0, n);
    assert Encode(FORMAT_V1, records) + [] == Encode(FORMAT_V1, records);
    SinglesRestore(pageCount, records, [], buffer);
    SinglesOfWellFormed(records, n);
    var result := Overlay(buffer, records);
    forall c: nat | c < n
      ensures Chunk(result, c) == if IsZero(Chunk(memory, c)) then Chunk(buffer, c) else Chunk(memory, c)
    {
      OverlayChunk(buffer, records, c);
      SparseLastTo(memory, 0, n, c);
    }
    OverlayPast(buffer, records, n * CHUNK);
  }

  lemma ZeroChunks(n: nat, c: nat, chunk: seq<byte>)
    requires c < n && |chunk| == CHUNK
    ensures IsZero(chunk) ==> chunk == Chunk(Zeros(n * CHUNK), c)
    ensures IsZero(Chunk(Zeros(n * CHUNK), c))
  {
    var zeros := Chunk(Zeros(n * CHUNK), c);
    assert forall i :: 0 <= i < CHUNK ==> zeros[i] == Zeros(n * CHUNK)[c * CHUNK + i];
  }

  lemma SizeWraps(pageCount: u32)
    requires pageCount <= PAGE
    ensures pageCount * PAGE % U32_LIMIT == pageCount * PAGE <==> pageCount < PAGE
  {}

  /** Restoring a checkpoint into fresh memory gives back exactly the bytes of the memory. The size that is
      reported with them is right exactly for fewer than 65536 pages: at 65536 it wraps around to zero. */
  lemma RoundTrip(memory: seq<byte>, pageCount: u32)
    requires |memory| == pageCount * PAGE && pageCount <= PAGE
    ensures var result := RestoreFresh(SparseImage(memory, pageCount), SparseMeta(pageCount));
            && result.Some? && result.value.contents == memory
            && (result.value.size == |memory| <==> pageCount < PAGE)
  {
    hide SparseImage, SparseMeta, RestoreInto, Inspect, ChunkCount;
    var n, zeros := ChunkCount(pageCount), Zeros(pageCount * PAGE);
    CheckpointIsRead(memory, pageCount);
    RoundTripInto(memory, pageCount, zeros);
    var result := RestoreInto(SparseImage(memory, pageCount), SparseMeta(pageCount), zeros).state;
    forall c: nat | c < n ensures Chunk(result, c) == Chunk(memory, c) {
      ZeroChunks(n, c, Chunk(memory, c));
    }
    ChunksDetermine(result, memory, n);
    SizeWraps(pageCount);
  }

  // ---------------------------------------------------------------- image to memory to image

  /** The images a writer produces: indices strictly increase, and no chunk is zero. */
  ghost predicate Canonical(records: seq<Record>, n: nat) {
    && AllWellFormed(FORMAT_V1, n, records)
    && (forall i, j :: 0 <= i < j < |records| ==> records[i].start < records[j].start)
    && (forall r :: r in records ==> !IsZero(r.data))
  }

  lemma {:induction false} SparseIsCanonical(memory: seq<byte>, c: nat, n: nat)
    requires n * CHUNK <= |memory| && n <= U32_LIMIT
    ensures Canonical(SparseRecords(memory, c, n), n)
    decreases n - c
  {
    hide Chunk, IsZero, WellFormed, SparseRecords, Singles;
    if c < n {
      SparseFirst(memory, c, n);
      SparseIsCanonical(memory, c + 1, n);
      SparseIsWellFormed(memory, c + 1, n);
      if !IsZero(Chunk(memory, c)) {
        SingleIsWellFormed(memory, c, n);
        CanonicalCons(Record(c, 1, Chunk(memory, c)), SparseRecords(memory, c + 1, n), n);
      } else {
        assert SparseRecords(memory, c, n) == SparseRecords(memory, c + 1, n);
      }
    } else {
      SparseEnd(memory, c, n);
    }
  }

  lemma SingleIsWellFormed(memory: seq<byte>, c: nat, n: nat)
    requires n * CHUNK <= |memory| && c < n <= U32_LIMIT
    ensures WellFormed(FORMAT_V1, n, Record(c, 1, Chunk(memory, c)))
  {}

  lemma CanonicalCons(r: Record, rest: seq<Record>, n: nat)
    requires WellFormed(FORMAT_V1, n, r) && !IsZero(r.data)
    requires Canonical(rest, n) && forall q :: q in rest ==> r.start < q.start
    ensures Canonical([r] + rest, n)
  {
    hide WellFormed, IsZero;
    assert forall q :: q in [r] + rest <==> q == r || q in rest;
  }

  lemma CanonicalUncons(records: seq<Record>, n: nat)
    requires Canonical(records, n) && records != []
    ensures Canonical(records[1..], n) && WellFormed(FORMAT_V1, n, records[0]) && !IsZero(records[0].data)
    ensures forall q :: q in records[1..] ==> records[0].start < q.start
    ensures forall q :: q in records ==> records[0].start <= q.start
  {
    hide WellFormed, IsZero;
    assert records[0] in records;
    assert forall q :: q in records[1..] ==> q in records;
  }

  /** The writer emits a chunk if and only if it is not zero; being in strict order, it emits it once. */
  lemma WritesNonZeroChunks(memory: seq<byte>, n: nat, k: nat)
    requires n * CHUNK <= |memory| && n <= U32_LIMIT && k < n
    ensures Canonical(SparseRecords(memory, 0, n), n)
    ensures Record(k, 1, Chunk(memory, k)) in SparseRecords(memory, 0, n) <==> !IsZero(Chunk(memory, k))
  {
    hide Chunk, IsZero;
    SparseIsCanonical(memory, 0, n);
    SparseIsWellFormed(memory, 0, n);
    SparseLastTo(memory, 0, n, k);
    LastToIsMember(SparseRecords(memory, 0, n), k);
  }

  /** An image holds 4100 bytes for each of its records. */
  lemma {:induction false} ImageLength(records: seq<Record>)
    requires AllShaped(FORMAT_V1, records)
    ensures |Encode(FORMAT_V1, records)| == 4100 * |records|
    decreases |records|
  {
    if records != [] {
      assert records[0] in records;
      ImageLength(records[1..]);
    }
  }

  lemma CanonicalSingles(records: seq<Record>, n: nat)
    requires Canonical(records, n)
    ensures Singles(records) && forall r :: r in records ==> r.start < n
  {
    SinglesOfWellFormed(records, n);
  }

  lemma FirstDecides(records: seq<Record>, n: nat)
    requires Canonical(records, n) && records != []
    ensures var r := records[0];
            && r == Record(r.start, 1, r.data) && LastTo(records, r.start) == Some(r.data)
            && forall k: nat :: k != r.start ==> LastTo(records, k) == LastTo(records[1..], k)
  {
    hide Canonical, Singles;
    CanonicalUncons(records, n);
    CanonicalSingles(records, n);
    CanonicalSingles(records[1..], n);
    LastToIsMember(records[1..], records[0].start);
    assert records[0].count == 1 by { OneChunk(records); }
  }

  lemma OneChunk(records: seq<Record>)
    requires Singles(records) && records != []
    ensures records[0].count == 1
  {
    assert records[0] in records;
  }

  lemma NoneBefore(records: seq<Record>, c: nat, n: nat)
    requires Canonical(records, n) && forall r :: r in records ==> c < r.start
    ensures LastTo(records, c) == None
  {
    hide Canonical;
    CanonicalSingles(records, n);
    LastToIsMember(records, c);
  }

  lemma FirstRecord(records: seq<Record>)
    requires AllShaped(FORMAT_V1, records) && records != []
    ensures |records[0].data| == 4096 && records[0].start < U32_LIMIT
    ensures Encode(FORMAT_V1, records) == (Put32(records[0].start) + records[0].data) + Encode(FORMAT_V1, records[1..])
  {
    hide Put32;
    assert records[0] in records;
  }

  lemma {:induction false} RecordAt(records: seq<Record>, k: nat)
    requires AllShaped(FORMAT_V1, records) && k < |records|
    ensures var image, at := Encode(FORMAT_V1, records), 4100 * k;
            && at + 4100 <= |image|
            && Get32(image[at..at + 4]) == records[k].start && image[at + 4..at + 4100] == records[k].data
    decreases |records|
  {
    hide Get32, Put32, Encode, Shaped;
    ImageLength(records);
    FirstRecord(records);
    var r, image, rest := records[0], Encode(FORMAT_V1, records), Encode(FORMAT_V1, records[1..]);
    if k == 0 {
      Get32Put32(r.start);
      assert image[0..4] == Put32(r.start) && image[4..4100] == r.data;
    } else {
      var at := 4100 * (k - 1);
      RecordAt(records[1..], k - 1);
      assert image[at + 4100..at + 4104] == rest[at..at + 4];
      assert image[at + 4104..at + 8200] == rest[at + 4..at + 4100];
    }
  }

  /** The index of record `k` of a V1 image. */
  function IndexAt(image: seq<byte>, k: nat): u32
    requires 4100 * k + 4 <= |image|
  {
    Get32(image[4100 * k..4100 * k + 4])
  }

  lemma NonZero(memory: seq<byte>, c: nat)
    requires (c + 1) * CHUNK <= |memory|
    ensures !IsZero(Chunk(memory, c)) <==> exists i :: 4096 * c <= i < 4096 * c + 4096 && memory[i] != 0
  {
    var chunk := Chunk(memory, c);
    assert forall i :: 0 <= i < 4096 ==> chunk[i] == memory[4096 * c + i];
    if i :| 4096 * c <= i < 4096 * c + 4096 && memory[i] != 0 {
      assert chunk[i - 4096 * c] != 0;
    }
  }

  /** Every record of the writer is a chunk of the memory. */
  lemma WrittenIsChunk(memory: seq<byte>, n: nat, r: Record)
    requires n * CHUNK <= |memory| && n <= U32_LIMIT && r in SparseRecords(memory, 0, n)
    ensures r.start < n && r == Record(r.start, 1, Chunk(memory, r.start))
  {
    hide Chunk, IsZero, SparseRecords, Canonical;
    SparseIsCanonical(memory, 0, n);
    CanonicalSingles(SparseRecords(memory, 0, n), n);
    SparseLastTo(memory, 0, n, r.start);
    OnlyRecord(SparseRecords(memory, 0, n), n, r);
  }

  /** In a canonical list a record is the only one, and so the last, for its chunk. */
  lemma {:induction false} OnlyRecord(records: seq<Record>, n: nat, r: Record)
    requires Canonical(records, n) && r in records
    ensures LastTo(records, r.start) == Some(r.data) && r.count == 1
    decreases |records|
  {
    hide Canonical;
    CanonicalUncons(records, n);
    FirstDecides(records, n);
    if r != records[0] {
      OnlyRecord(records[1..], n, r);
    }
  }

  /** A record of a checkpoint, in bytes: the index of a chunk and what the memory holds there. */
  lemma CheckpointRecord(memory: seq<byte>, n: nat, k: nat)
    requires n * CHUNK <= |memory| && n <= U32_LIMIT && k < |SparseRecords(memory, 0, n)|
    ensures var records := SparseRecords(memory, 0, n);
            var image, c := Encode(FORMAT_V1, records), records[k].start;
            && 4100 * k + 4100 <= |image| && c < n && IndexAt(image, k) == c
            && image[4100 * k + 4..4100 * k + 4100] == memory[4096 * c..4096 * c + 4096]
  {
    hide Encode, SparseRecords, IsZero, Get32;
    var records := SparseRecords(memory, 0, n);
    RecordAt(records, k);
    assert records[k] in records;
    WrittenIsChunk(memory, n, records[k]);
  }

  /** A chunk is in the image if and only if one of its bytes is not zero. */
  lemma CheckpointHas(memory: seq<byte>, n: nat, image: seq<byte>, c: nat)
    requires n * CHUNK <= |memory| && n <= U32_LIMIT && c < n
    requires var records := SparseRecords(memory, 0, n);
             |image| == 4100 * |records| && forall k: nat :: k < |records| ==> IndexAt(image, k) == records[k].start
    ensures (exists k: nat :: k < |image| / 4100 && IndexAt(image, k) == c) <==>
            (exists i :: 4096 * c <= i < 4096 * c + 4096 && memory[i] != 0)
  {
    hide SparseRecords, IsZero, IndexAt, Chunk, Canonical;
    var records := SparseRecords(memory, 0, n);
    WritesNonZeroChunks(memory, n, c);
    NonZero(memory, c);
    if Record(c, 1, Chunk(memory, c)) in records {
      var k :| 0 <= k < |records| && records[k] == Record(c, 1, Chunk(memory, c));
      assert IndexAt(image, k) == c;
    }
    if k: nat :| k < |records| && IndexAt(image, k) == c {
      assert records[k] in records;
      WrittenIsChunk(memory, n, records[k]);
    }
  }

  lemma CountRecords(records: seq<Record>)
    requires AllShaped(FORMAT_V1, records)
    ensures |Encode(FORMAT_V1, records)| / 4100 == |records|
  {
    ImageLength(records);
  }

  lemma CheckpointBytes(memory: seq<byte>, n: nat, image: seq<byte>)
    requires n * CHUNK <= |memory| && n <= U32_LIMIT && image == Encode(FORMAT_V1, SparseRecords(memory, 0, n))
    ensures |image| == 4100 * |SparseRecords(memory, 0, n)|
    ensures forall k: nat :: k < |image| / 4100 ==>
              var c := IndexAt(image, k);
              c < n && image[4100 * k + 4..4100 * k + 4100] == memory[4096 * c..4096 * c + 4096]
    ensures forall k: nat :: k < |image| / 4100 ==> IndexAt(image, k) == SparseRecords(memory, 0, n)[k].start
  {
    hide Encode, SparseRecords, IsZero, IndexAt;
    var records := SparseRecords(memory, 0, n);
    ImageLength(records);
    CountRecords(records);
    forall k: nat | k < |records|
      ensures IndexAt(image, k) == records[k].start < n
      ensures image[4100 * k + 4..4100 * k + 4100]
              == memory[4096 * IndexAt(image, k)..4096 * IndexAt(image, k) + 4096]
    {
      CheckpointRecord(memory, n, k);
    }
  }

  lemma CheckpointAscends(memory: seq<byte>, n: nat, image: seq<byte>)
    requires n * CHUNK <= |memory| && n <= U32_LIMIT && image == Encode(FORMAT_V1, SparseRecords(memory, 0, n))
    ensures |image| == 4100 * |SparseRecords(memory, 0, n)|
    ensures forall j: nat, k: nat :: j < k < |image| / 4100 ==> IndexAt(image, j) < IndexAt(image, k)
  {
    hide Encode, SparseRecords, IsZero, IndexAt, WellFormed;
    CheckpointBytes(memory, n, image);
    SparseIsCanonical(memory, 0, n);
  }

  /** A checkpoint, byte by byte: 4100 bytes for each chunk that is not zero, in ascending order, namely four
      bytes for its index and the 4096 bytes of the memory there. */
  lemma CheckpointLayout(memory: seq<byte>, pageCount: u32)
    requires pageCount * 0x1_0000 <= |memory| && pageCount <= 0x1000_0000
    ensures var image := SparseImage(memory, pageCount);
            var count := |image| / 4100;
            && |image| == 4100 * count
            && (forall k: nat :: k < count ==>
                  var c := IndexAt(image, k);
                  && c < pageCount * 16
                  && image[4100 * k + 4..4100 * k + 4100] == memory[4096 * c..4096 * c + 4096])
            && (forall j: nat, k: nat :: j < k < count ==> IndexAt(image, j) < IndexAt(image, k))
            && (forall c: nat :: c < pageCount * 16 ==>
                  ((exists k: nat :: k < count && IndexAt(image, k) == c) <==>
                   (exists i :: 4096 * c <= i < 4096 * c + 4096 && memory[i] != 0)))
  {
    hide Encode, SparseRecords, IndexAt;
    var n, image := pageCount * 16, SparseImage(memory, pageCount);
    CheckpointBytes(memory, n, image);
    CheckpointAscends(memory, n, image);
    forall c: nat | c < n
      ensures (exists k: nat :: k < |image| / 4100 && IndexAt(image, k) == c) <==>
              (exists i :: 4096 * c <= i < 4096 * c + 4096 && memory[i] != 0)
    {
      CheckpointHas(memory, n, image, c);
    }
  }

  /** Scanning a memory that holds the records and zeros otherwise finds exactly the records. */
  lemma {:induction false} ScanFinds(memory: seq<byte>, records: seq<Record>, c: nat, n: nat)
    requires n * CHUNK <= |memory| && n <= U32_LIMIT && Canonical(records, n) && c <= n
    requires forall r :: r in records ==> c <= r.start
    requires forall k: nat :: c <= k < n ==>
               if LastTo(records, k).Some? then Chunk(memory, k) == LastTo(records, k).value
               else IsZero(Chunk(memory, k))
    ensures SparseRecords(memory, c, n) == records
    decreases n - c
  {
    hide Chunk, IsZero, Canonical, SparseRecords, LastTo, Singles;
    if records != [] {
      assert records[0] in records;
      CanonicalUncons(records, n);
      FirstDecides(records, n);
    }
    CanonicalSingles(records, n);
    if c == n {
      SparseEnd(memory, c, n);
    } else {
      SparseFirst(memory, c, n);
      if records != [] && records[0].start == c {
        ScanFinds(memory, records[1..], c + 1, n);
      } else {
        NoneBefore(records, c, n);
        ScanFinds(memory, records, c + 1, n);
      }
    }
  }

  /** Restoring a canonical image and checkpointing the memory again reproduces the image byte for byte:
      memories and canonical images correspond one to one. */
  lemma CanonicalImageIsReproduced(records: seq<Record>, pageCount: u32)
    requires pageCount <= PAGE && Canonical(records, ChunkCount(pageCount))
    ensures AllShaped(FORMAT_V1, records)
    ensures var image := Encode(FORMAT_V1, records);
            var result := RestoreFresh(image, SparseMeta(pageCount));
            && result.Some? && |result.value.contents| == pageCount * PAGE
            && SparseImage(result.value.contents, pageCount) == image
  {
    hide SparseMeta, RestoreInto, Encode, Overlay, LastTo, Chunk, IsZero;
    var n, zeros := ChunkCount(pageCount), Zeros(pageCount * PAGE);
    var image := Encode(FORMAT_V1, records);
    InspectSparseMeta(pageCount);
    assert image + [] == image;
    SinglesRestore(pageCount, records, [], zeros);
    var memory := Overlay(zeros, records);
    CanonicalSingles(records, n);
    forall k: nat | k < n
      ensures if LastTo(records, k).Some? then Chunk(memory, k) == LastTo(records, k).value
              else IsZero(Chunk(memory, k))
    {
      OverlayChunk(zeros, records, k);
      ZeroChunks(n, k, Chunk(zeros, k));
    }
    ScanFinds(memory, records, 0, n);
  }

  // ---------------------------------------------------------------- the dense format

  lemma {:induction false} DenseLength(image: seq<byte>, c: nat, n: nat)
    requires c <= n && n * CHUNK <= |image| < (n + 1) * CHUNK
    ensures |DenseRecords(image, c)| == n - c
    decreases n - c
  {
    hide Chunk;
    if c < n {
      DenseLength(image, c + 1, n);
    }
  }

  lemma {:induction false} DenseAt(image: seq<byte>, c: nat, k: nat)
    requires (c + k + 1) * CHUNK <= |image|
    ensures k < |DenseRecords(image, c)| && DenseRecords(image, c)[k] == Record(c + k, 1, Chunk(image, c + k))
    decreases k
  {
    hide Chunk;
    if k > 0 {
      DenseAt(image, c + 1, k - 1);
    }
  }

  /** A dense visit calls the visitor once for every chunk, in order, with its own bytes. */
  lemma DenseInOrder(image: seq<byte>, n: nat)
    requires |image| == n * 4096
    ensures |DenseRecords(image, 0)| == n
    ensures forall k: nat :: k < n ==>
              DenseRecords(image, 0)[k] == Record(k, 1, image[k * 4096..(k + 1) * 4096])
  {
    hide DenseRecords;
    DenseLength(image, 0, n);
    forall k: nat | k < n ensures DenseRecords(image, 0)[k] == Record(k, 1, image[k * 4096..(k + 1) * 4096]) {
      DenseAt(image, 0, k);
    }
  }

  lemma {:induction false} DenseLastTo(image: seq<byte>, c: nat, k: nat)
    requires (k + 1) * CHUNK <= |image|
    ensures LastTo(DenseRecords(image, c), k) == if c <= k then Some(Chunk(image, k)) else None
    decreases |image| - c * CHUNK
  {
    hide Chunk;
    if (c + 1) * CHUNK <= |image| {
      DenseLastTo(image, c + 1, k);
    }
  }

  lemma DensePlan(info: Info, image: seq<byte>)
    requires !info.sparse && info.pageCount <= PAGE
    ensures Plan(info, image).ok <==> |image| == TotalSize(info)
    ensures Singles(Plan(info, image).records)
  {
    if |image| == TotalSize(info) {
      DenseIsWellFormed(image, 0);
      SinglesOfWellFormed(DenseRecords(image, 0), |image| / CHUNK);
    }
  }

  /** A dense image of the right length replaces the memory; one of any other length is rejected before
      any byte is written. */
  lemma DenseRestores(image: seq<byte>, pageCount: u32, buffer: seq<byte>)
    requires pageCount <= PAGE && pageCount * PAGE <= |buffer|
    ensures RestoreInto(image, Put32(pageCount), buffer)
            == if |image| == pageCount * PAGE then Verdict(0, image + buffer[|image|..]) else Verdict(-1, buffer)
  {
    hide Drive, Overlay, LastTo, RestoreInto;
    InspectsExactly(Put32(pageCount), Info(0, pageCount, CHUNK, false));
    var info, n := Info(0, pageCount, CHUNK, false), ChunkCount(pageCount);
    var records := Plan(info, image).records;
    DensePlan(info, image);
    RestoreIsOverlay(image, Put32(pageCount), info, buffer);
    assert forall r :: r in records ==> r.count < CHUNK_LIMIT;
    if |image| != pageCount * PAGE {
      assert Overlay(buffer, []) == buffer by { OverlayNothing(buffer); }
    } else {
      DenseIsWellFormed(image, 0);
      SinglesOfWellFormed(records, n);
      var result, wanted := Overlay(buffer, records), image + buffer[|image|..];
      forall c: nat | c < n ensures Chunk(result, c) == Chunk(wanted, c) {
        OverlayChunk(buffer, records, c);
        DenseLastTo(image, 0, c);
      }
      forall r | r in records ensures r.start * CHUNK + |r.data| <= n * CHUNK {
        assert WellFormed(FORMAT_V1, n, r);
      }
      OverlayPast(buffer, records, n * CHUNK);
      ChunksDetermine(result, wanted, n);
    }
  }

  lemma OverlayNothing(buffer: seq<byte>)
    ensures Overlay(buffer, []) == buffer
  {}

  /** A legacy dense image and a sparse checkpoint of the same memory restore to the same fresh memory. */
  lemma DenseAndSparseAgree(memory: seq<byte>, pageCount: u32)
    requires |memory| == pageCount * PAGE && pageCount <= PAGE
    ensures RestoreFresh(memory, Put32(pageCount))
            == RestoreFresh(SparseImage(memory, pageCount), SparseMeta(pageCount))
  {
    hide RestoreInto, SparseImage, SparseMeta;
    InspectsExactly(Put32(pageCount), Info(0, pageCount, CHUNK, false));
    RoundTrip(memory, pageCount);
    CheckpointIsRead(memory, pageCount);
    DenseRestores(memory, pageCount, Zeros(pageCount * PAGE));
    assert memory + Zeros(pageCount * PAGE)[|memory|..] == memory;
  }

  // ---------------------------------------------------------------- extents

  /** The chunks of an extent as single-chunk records, from its chunk `k` on. */
  function Expand(r: Record, k: nat): seq<Record>
    requires |r.data| == r.count * CHUNK
    decreases r.count - k
  {
    if k >= r.count then [] else [Record(r.start + k, 1, Chunk(r.data, k))] + Expand(r, k + 1)
  }

  predicate FullLength(records: seq<Record>) {
    forall r :: r in records ==> |r.data| == r.count * CHUNK
  }

  function ExpandAll(records: seq<Record>): seq<Record>
    requires FullLength(records)
  {
    if records == [] then [] else
      assert records[0] in records;
      Expand(records[0], 0) + ExpandAll(records[1..])
  }

  /** Every chunk of the extent has its record, and nothing else does. */
  lemma {:induction false} ExpandMembers(r: Record, k: nat)
    requires |r.data| == r.count * CHUNK
    ensures forall q :: q in Expand(r, k) <==>
              exists i: nat {:trigger Chunk(r.data, i)} ::
                k <= i < r.count && q == Record(r.start + i, 1, Chunk(r.data, i))
    decreases r.count - k
  {
    hide Chunk;
    if k < r.count {
      ExpandMembers(r, k + 1);
    }
  }

  lemma {:induction false} OverlayAppend(buffer: seq<byte>, left: seq<Record>, right: seq<Record>)
    requires Fits(left, |buffer|) && Fits(right, |buffer|)
    ensures Fits(left + right, |buffer|)
    ensures Overlay(buffer, left + right) == Overlay(Overlay(buffer, left), right)
    decreases |left|
  {
    if left == [] {
      assert left + right == right;
    } else {
      assert left[0] in left;
      assert (left + right)[1..] == left[1..] + right;
      OverlayAppend(Write(buffer, left[0].start * CHUNK, left[0].data), left[1..], right);
    }
  }

  lemma {:induction false} ExpandFits(r: Record, k: nat, size: nat)
    requires |r.data| == r.count * CHUNK && r.start * CHUNK + |r.data| <= size
    ensures Fits(Expand(r, k), size)
    decreases r.count - k
  {
    hide Chunk;
    if k < r.count {
      ExpandFits(r, k + 1, size);
    }
  }

  /** Writing an extent is writing its chunks one by one. */
  lemma {:induction false} ExpandOverlay(buffer: seq<byte>, r: Record, k: nat)
    requires |r.data| == r.count * CHUNK && r.start * CHUNK + |r.data| <= |buffer| && k <= r.count
    ensures Fits(Expand(r, k), |buffer|)
    ensures Overlay(buffer, Expand(r, k)) == Write(buffer, (r.start + k) * CHUNK, r.data[k * CHUNK..])
    decreases r.count - k
  {
    hide Write, Chunk, Fits;
    ExpandFits(r, k, |buffer|);
    if k == r.count {
      WriteNothing(buffer, (r.start + k) * CHUNK, r.data[k * CHUNK..]);
    } else {
      var once := Write(buffer, (r.start + k) * CHUNK, Chunk(r.data, k));
      ExpandOverlay(once, r, k + 1);
      assert Expand(r, k)[1..] == Expand(r, k + 1);
      FirstChunk(r.data, k);
      WriteTwice(buffer, (r.start + k) * CHUNK, Chunk(r.data, k), r.data[(k + 1) * CHUNK..]);
    }
  }

  lemma FirstChunk(data: seq<byte>, k: nat)
    requires (k + 1) * CHUNK <= |data|
    ensures data[k * CHUNK..] == Chunk(data, k) + data[(k + 1) * CHUNK..]
  {}

  lemma WriteTwice(buffer: seq<byte>, offset: nat, left: seq<byte>, right: seq<byte>)
    requires offset + |left| + |right| <= |buffer|
    ensures Write(Write(buffer, offset, left), offset + |left|, right) == Write(buffer, offset, left + right)
  {}

  /** Expanding extents does not change what is restored, even when they overlap. */
  lemma {:induction false} ExpandAllOverlay(buffer: seq<byte>, records: seq<Record>)
    requires FullLength(records)
    requires Fits(records, |buffer|)
    ensures Fits(ExpandAll(records), |buffer|)
    ensures Overlay(buffer, ExpandAll(records)) == Overlay(buffer, records)
    decreases |records|
  {
    hide Write, Expand;
    if records != [] {
      var r := records[0];
      assert r in records;
      ExpandOverlay(buffer, r, 0);
      assert r.data[0 * CHUNK..] == r.data;
      ExpandAllOverlay(Write(buffer, r.start * CHUNK, r.data), records[1..]);
      OverlayAppend(buffer, Expand(r, 0), ExpandAll(records[1..]));
    }
  }

  /** Expanded records are V1 records, in range together with the extents they come from. */
  lemma {:induction false} ExpandAllShaped(records: seq<Record>, capacity: nat)
    requires AllShaped(FORMAT_V2, records)
    requires forall r :: r in records ==> r.start + r.count <= U32_LIMIT
    ensures AllShaped(FORMAT_V1, ExpandAll(records))
    ensures AllWellFormed(FORMAT_V1, capacity, ExpandAll(records)) <==> AllWellFormed(FORMAT_V2, capacity, records)
    decreases |records|
  {
    hide Chunk;
    if records != [] {
      var r, rest := records[0], records[1..];
      assert r in records && Shaped(FORMAT_V2, r);
      ExpandShaped(r, capacity);
      ExpandAllShaped(rest, capacity);
      assert forall q :: q in records <==> q == r || q in rest;
    }
  }

  lemma ExpandShaped(r: Record, capacity: nat)
    requires Shaped(FORMAT_V2, r) && r.start + r.count <= U32_LIMIT
    ensures AllShaped(FORMAT_V1, Expand(r, 0))
    ensures AllWellFormed(FORMAT_V1, capacity, Expand(r, 0)) <==> r.start + r.count <= capacity
  {
    hide Expand;
    ExpandMembers(r, 0);
    var last := Record(r.start + (r.count - 1), 1, Chunk(r.data, r.count - 1));
    assert last in Expand(r, 0);
    assert WellFormed(FORMAT_V1, capacity, last) <==> r.start + r.count <= capacity;
  }

  // ---------------------------------------------------------------- extents that reach past the memory

  /** The chunks of an extent that lie within the memory. */
  function Clip(r: Record, capacity: nat): (c: Record)
    requires |r.data| == r.count * CHUNK && r.start < capacity < r.start + r.count
    ensures |c.data| == c.count * CHUNK && c.start + c.count == capacity
  {
    Record(r.start, capacity - r.start, r.data[..(capacity - r.start) * CHUNK])
  }

  /** The extents in range, and what lies within the memory of the first one that is not. */
  function UpTo(records: seq<Record>, capacity: nat): (r: seq<Record>)
    requires FullLength(records)
    ensures FullLength(r) && forall q :: q in r ==> q.start + q.count <= capacity
    decreases |records|
  {
    if records == [] then []
    else
      assert records[0] in records;
      if records[0].start + records[0].count <= capacity then [records[0]] + UpTo(records[1..], capacity)
      else if records[0].start < capacity then [Clip(records[0], capacity)]
      else []
  }

  lemma {:induction false} InRangeAppend(left: seq<Record>, right: seq<Record>, capacity: nat)
    requires forall r :: r in left ==> r.start + r.count <= capacity
    ensures InRange(left + right, capacity) == left + InRange(right, capacity)
    decreases |left|
  {
    if left == [] {
      assert left + right == right;
    } else {
      assert (left + right)[1..] == left[1..] + right;
      InRangeAppend(left[1..], right, capacity);
    }
  }

  lemma ExpandInRange(r: Record, capacity: nat, more: seq<Record>)
    requires |r.data| == r.count * CHUNK && r.start + r.count <= capacity
    ensures InRange(Expand(r, 0) + more, capacity) == Expand(r, 0) + InRange(more, capacity)
  {
    hide Expand, Chunk, InRange;
    ExpandMembers(r, 0);
    InRangeAppend(Expand(r, 0), more, capacity);
  }

  lemma {:induction false} ExpandClipped(r: Record, k: nat, capacity: nat, more: seq<Record>)
    requires |r.data| == r.count * CHUNK && r.start < capacity < r.start + r.count && r.start + k <= capacity
    ensures InRange(Expand(r, k) + more, capacity) == Expand(Clip(r, capacity), k)
    decreases capacity - r.start - k
  {
    if r.start + k < capacity {
      ExpandClipped(r, k + 1, capacity, more);
      assert (Expand(r, k) + more)[1..] == Expand(r, k + 1) + more;
      assert Chunk(Clip(r, capacity).data, k) == Chunk(r.data, k);
    }
  }

  /** Of the expanded records, those before the first one out of range are the expansion of `UpTo`. */
  lemma {:induction false} ExpandAllInRange(records: seq<Record>, capacity: nat)
    requires FullLength(records) && forall r :: r in records ==> r.count > 0
    ensures InRange(ExpandAll(records), capacity) == ExpandAll(UpTo(records, capacity))
    decreases |records|
  {
    hide Expand, Clip;
    if records != [] {
      var r, rest := records[0], records[1..];
      assert r in records;
      if r.start + r.count <= capacity {
        ExpandInRange(r, capacity, ExpandAll(rest));
        ExpandAllInRange(rest, capacity);
        assert UpTo(records, capacity)[1..] == UpTo(rest, capacity);
      } else if r.start < capacity {
        ExpandClipped(r, 0, capacity, ExpandAll(rest));
        assert ExpandAll([Clip(r, capacity)]) == Expand(Clip(r, capacity), 0) + ExpandAll([]);
      } else {
        ExpandOutside(r, capacity, ExpandAll(rest));
      }
    }
  }

  lemma ExpandOutside(r: Record, capacity: nat, more: seq<Record>)
    requires |r.data| == r.count * CHUNK && r.count > 0 && capacity <= r.start
    ensures InRange(Expand(r, 0) + more, capacity) == []
  {}

  lemma {:induction false} UpToExtends(records: seq<Record>, capacity: nat)
    requires FullLength(records)
    ensures InRange(records, capacity) <= UpTo(records, capacity)
    ensures InRange(records, capacity) == records ==> UpTo(records, capacity) == records
    decreases |records|
  {
    hide Clip;
    if records != [] {
      assert records[0] in records;
      UpToExtends(records[1..], capacity);
    }
  }

  lemma ShapedIsFullLength(format: u32, records: seq<Record>)
    requires AllShaped(format, records)
    ensures FullLength(records) && forall r :: r in records ==> r.count > 0
  {
    assert forall r :: r in records ==> Shaped(format, r);
  }

  /** Restoring an image of full-length records: those in range are copied, except one that wraps. */
  lemma ShapedRestore(format: u32, records: seq<Record>, rest: seq<byte>, pageCount: u32, buffer: seq<byte>)
    requires (format == FORMAT_V1 || format == FORMAT_V2) && AllShaped(format, records) && |rest| < 4
    requires pageCount <= PAGE && pageCount * PAGE <= |buffer|
    ensures var n, written := ChunkCount(pageCount), Written(InRange(records, ChunkCount(pageCount)));
            && Fits(written, |buffer|)
            && RestoreInto(Encode(format, records) + rest, Put32(format) + Put32(pageCount), buffer)
               == Verdict(if AllWellFormed(format, n, records) then 0 else -1, Overlay(buffer, written))
  {
    hide Encode, RestoreInto, Overlay, Written, Parse, Inspect, Plan, Put32, InRange, Shaped, WellFormed;
    var n, image, info := ChunkCount(pageCount), Encode(format, records) + rest, Info(format, pageCount, CHUNK, true);
    InspectsExactly(Put32(format) + Put32(pageCount), info);
    SparsePlan(info, image);
    ShapedParse(format, n, records, rest);
    RestoreIsOverlay(image, Put32(format) + Put32(pageCount), info, buffer);
  }

  /** V2 refines V1. An image of extents and its expansion to single chunks are accepted together, and then
      leave the same buffer, save for an extent that wraps. Rejected, V2 leaves what the extents before the
      first bad one say, and V1 also the chunks of that one that are within the memory. */
  lemma ExtentsRefineChunks(records: seq<Record>, rest: seq<byte>, pageCount: u32, buffer: seq<byte>)
    requires AllShaped(FORMAT_V2, records) && |rest| < 4
    requires forall r :: r in records ==> r.start + r.count <= U32_LIMIT
    requires pageCount <= PAGE && pageCount * PAGE <= |buffer|
    ensures FullLength(records) && AllShaped(FORMAT_V1, ExpandAll(records))
    ensures var n := ChunkCount(pageCount);
            var extents := RestoreInto(Encode(FORMAT_V2, records) + rest, Put32(FORMAT_V2) + Put32(pageCount), buffer);
            var chunks := RestoreInto(Encode(FORMAT_V1, ExpandAll(records)) + rest, SparseMeta(pageCount), buffer);
            var rc := if AllWellFormed(FORMAT_V2, n, records) then 0 else -1;
            && Fits(Written(InRange(records, n)), |buffer|)
            && extents == Verdict(rc, Overlay(buffer, Written(InRange(records, n))))
            && Fits(UpTo(records, n), |buffer|)
            && chunks == Verdict(rc, Overlay(buffer, UpTo(records, n)))
            && (rc == 0 && (forall r :: r in records ==> r.count < CHUNK_LIMIT) ==> extents == chunks)
  {
    hide Encode, RestoreInto, Overlay, Written, InRange, ExpandAll, UpTo, Shaped, WellFormed, Put32, Singles;
    ShapedIsFullLength(FORMAT_V2, records);
    var n, single := ChunkCount(pageCount), ExpandAll(records);
    ExpandAllShaped(records, n);
    ShapedRestore(FORMAT_V2, records, rest, pageCount, buffer);
    ShapedRestore(FORMAT_V1, single, rest, pageCount, buffer);
    ExpandAllInRange(records, n);
    WrittenIsAllSingles(single, n);
    ExpandAllOverlay(buffer, UpTo(records, n));
    if AllWellFormed(FORMAT_V2, n, records) {
      InRangeIsWellFormed(FORMAT_V2, n, records);
      UpToExtends(records, n);
      WrittenIsAll(records);
    }
  }

  lemma WrittenIsAllSingles(records: seq<Record>, n: nat)
    requires AllShaped(FORMAT_V1, records)
    ensures Written(InRange(records, n)) == InRange(records, n)
  {
    hide Written, InRange;
    InRangeIsWellFormed(FORMAT_V1, n, records);
    SinglesOfWellFormed(InRange(records, n), n);
    WrittenIsAll(InRange(records, n));
  }

  /** At 65536 pages one extent is lost: one of all 2^20 chunks is accepted, but its length wraps around to
      zero and nothing is written. */
  lemma FullExtentIsLost(data: seq<byte>, rest: seq<byte>, buffer: seq<byte>)
    requires |data| == PAGE * PAGE <= |buffer| && |rest| < 4
    ensures var records := [Record(0, CHUNK_LIMIT, data)];
            && AllWellFormed(FORMAT_V2, CHUNK_LIMIT, records) && AllShaped(FORMAT_V2, records)
            && RestoreInto(Encode(FORMAT_V2, records) + rest, Put32(FORMAT_V2) + Put32(PAGE), buffer)
               == Verdict(0, buffer)
  {
    hide Encode, RestoreInto, Put32;
    var records := [Record(0, CHUNK_LIMIT, data)];
    ShapedRestore(FORMAT_V2, records, rest, PAGE, buffer);
    assert Written(InRange(records, ChunkCount(PAGE))) == [];
  }
}
