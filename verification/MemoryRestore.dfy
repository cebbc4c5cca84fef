/** What restoring an image does to a buffer: overlays, the last record for each chunk, 32-bit offsets. */
module MemoryRestore {
  import opened Options
  import opened References
  import opened Bytes
  import opened MemoryImage
  import opened MemoryParsing

  /** How many chunks 32-bit offsets and lengths can address: 65536 pages of 65536 bytes. */
  const CHUNK_LIMIT: int := 0x10_0000

  // ---------------------------------------------------------------- 32-bit arguments

  /** A visitor call says where its data belongs and how much of it there is, as true integers. */
  predicate CallIsExact(r: Record) {
    CallOf(r).offset == r.start * CHUNK && CallOf(r).len == r.count * CHUNK
  }

  /** The products of the reader do not wrap exactly when start and count are below 2^20. */
  lemma CallIsExactWhen(format: u32, r: Record)
    requires Shaped(format, r)
    ensures CallIsExact(r) <==> r.start < CHUNK_LIMIT && r.count < CHUNK_LIMIT
    ensures var c := CallOf(r);
            && c.data == r.data
            && (r.start * 4096 - c.offset) % 0x1_0000_0000 == 0
            && (r.count * 4096 - c.len) % 0x1_0000_0000 == 0
  {
    Congruent(r.start * CHUNK);
    Congruent(|r.data|);
  }

  lemma Congruent(n: nat)
    ensures (n - n % U32_LIMIT) % 0x1_0000_0000 == 0
  {}

  /** In a memory of at most 65536 pages no visitor call leaves the memory, whatever the image contains: the
      offset is a multiple of 4096, and offset plus length stay within. The length is that of the data
      unless the record is a single extent of all 2^20 chunks, which needs all 65536 pages. */
  lemma CallsStayInside(info: Info, image: seq<byte>, r: Record)
    requires info.pageCount <= PAGE && r in Plan(info, image).records
    ensures var c := CallOf(r);
            && c.offset == r.start * CHUNK && c.offset % CHUNK == 0
            && c.offset + c.len <= info.pageCount * PAGE
            && (c.len == |c.data| <==> r.count < CHUNK_LIMIT)
            && (info.pageCount < PAGE ==> r.count < CHUNK_LIMIT)
  {
    PlanIsWellFormed(info, image);
  }

  lemma PlanIsWellFormed(info: Info, image: seq<byte>)
    requires info.pageCount <= PAGE
    ensures forall r :: r in Plan(info, image).records ==>
              WellFormed(info.format, Capacity(info), r) || WellFormed(FORMAT_V1, Capacity(info), r)
  {
    if info.sparse {
      var rest := ParseIsSound(info.format, Capacity(info), image);
    } else if |image| == TotalSize(info) {
      DenseIsWellFormed(image, 0);
    }
  }

  lemma {:induction false} DenseIsWellFormed(image: seq<byte>, c: nat)
    requires |image| <= PAGE * PAGE
    ensures AllWellFormed(FORMAT_V1, |image| / CHUNK, DenseRecords(image, c))
    decreases |image| - c * CHUNK
  {
    if (c + 1) * CHUNK <= |image| {
      DenseIsWellFormed(image, c + 1);
    }
  }

  // ---------------------------------------------------------------- overlays

  predicate Fits(records: seq<Record>, size: nat) {
    forall r :: r in records ==> r.start * CHUNK + |r.data| <= size
  }

  /** The buffer after the records are copied into it in order. */
  function Overlay(buffer: seq<byte>, records: seq<Record>): (r: seq<byte>)
    requires Fits(records, |buffer|)
    ensures |r| == |buffer|
    decreases |records|
  {
    if records == [] then buffer else
      assert records[0] in records;
      Overlay(Write(buffer, records[0].start * CHUNK, records[0].data), records[1..])
  }

  /** The records that are copied: all but an extent of all 2^20 chunks, whose length wraps around to zero. */
  function Written(records: seq<Record>): seq<Record> {
    if records == [] then []
    else (if records[0].count < CHUNK_LIMIT then [records[0]] else []) + Written(records[1..])
  }

  lemma {:induction false} WrittenIsAll(records: seq<Record>)
    ensures |Written(records)| <= |records|
    ensures Written(records) == records <==> forall r :: r in records ==> r.count < CHUNK_LIMIT
    decreases |records|
  {
    if records != [] {
      WrittenIsAll(records[1..]);
      assert records == [records[0]] + records[1..];
    }
  }

  lemma {:induction false} WrittenFits(records: seq<Record>, size: nat)
    requires Fits(records, size)
    ensures Fits(Written(records), size)
    decreases |records|
  {
    if records != [] {
      WrittenFits(records[1..], size);
    }
  }

  /** A record within the first 2^20 chunks. */
  predicate Addressable(r: Record) {
    r.count > 0 && |r.data| == r.count * CHUNK && r.start + r.count <= CHUNK_LIMIT
  }

  /** The restore visitor copies an addressable record to where it belongs, unless its length wraps. */
  lemma StoreRecord(buffer: seq<byte>, r: Record)
    requires Addressable(r) && r.start * CHUNK + |r.data| <= |buffer|
    ensures StoreChunk(buffer, CallOf(r))
            == Verdict(0, if r.count < CHUNK_LIMIT then Write(buffer, r.start * CHUNK, r.data) else buffer)
  {
    hide Write;
    if r.count < CHUNK_LIMIT {
      assert r.data[..|r.data|] == r.data;
    } else {
      WriteNothing(buffer, 0, r.data[..0]);
    }
  }

  lemma WriteNothing(buffer: seq<byte>, offset: nat, data: seq<byte>)
    requires data == [] && offset <= |buffer|
    ensures Write(buffer, offset, data) == buffer
  {}

  /** The restore visitor never refuses an addressable record that fits, and leaves the overlay behind. */
  lemma {:induction false} DriveIsOverlay(buffer: seq<byte>, records: seq<Record>)
    requires Fits(records, |buffer|) && forall r :: r in records ==> Addressable(r)
    ensures Fits(Written(records), |buffer|)
    ensures Drive(StoreChunk, buffer, records) == Verdict(0, Overlay(buffer, Written(records)))
    decreases |records|
  {
    hide Write, Addressable, StoreChunk, CallOf;
    WrittenFits(records, |buffer|);
    if records != [] {
      var r := records[0];
      assert r in records;
      StoreRecord(buffer, r);
      if r.count < CHUNK_LIMIT {
        DriveIsOverlay(Write(buffer, r.start * CHUNK, r.data), records[1..]);
        assert Written(records) == [r] + Written(records[1..]);
        assert Written(records)[1..] == Written(records[1..]);
      } else {
        DriveIsOverlay(buffer, records[1..]);
        assert Written(records) == Written(records[1..]);
      }
    }
  }

  /** Restoring into a large enough buffer: the image alone decides success, and in either case the buffer
      is its old contents overlaid by the records before the end or the rejected one, and nothing else. One
      kind of record is lost: at 65536 pages, an extent of all of them. */
  lemma RestoreIsOverlay(image: seq<byte>, meta: seq<byte>, info: Info, buffer: seq<byte>)
    requires Inspect(meta) == Some(info) && info.pageCount <= PAGE && TotalSize(info) <= |buffer|
    ensures var plan := Plan(info, image);
            && Fits(Written(plan.records), |buffer|)
            && RestoreInto(image, meta, buffer)
               == Verdict(if plan.ok then 0 else -1, Overlay(buffer, Written(plan.records)))
            && (Written(plan.records) == plan.records <==> forall r :: r in plan.records ==> r.count < CHUNK_LIMIT)
            && (info.pageCount < PAGE ==> Written(plan.records) == plan.records)
  {
    hide Plan, Drive, Overlay, Inspect, Written;
    var records := Plan(info, image).records;
    PlanIsWellFormed(info, image);
    forall r | r in records ensures Addressable(r) && r.start * CHUNK + |r.data| <= TotalSize(info) {}
    DriveIsOverlay(buffer, records);
    WrittenIsAll(records);
  }

  // ---------------------------------------------------------------- when restoring succeeds

  /** Whatever the format, a buffer that is too small is not touched; nor is any if there is no page count. */
  lemma TooSmall(image: seq<byte>, meta: seq<byte>, buffer: seq<byte>)
    requires Inspect(meta).Some? ==> |buffer| < Inspect(meta).value.pageCount * 0x1_0000
    ensures RestoreInto(image, meta, buffer) == Verdict(-1, buffer)
  {
    hide Inspect;
  }

  predicate CallsFit(records: seq<Record>, size: nat) {
    forall r :: r in records ==> CallOf(r).offset + CallOf(r).len <= size
  }

  lemma {:induction false} DriveStores(buffer: seq<byte>, records: seq<Record>)
    ensures var end := Drive(StoreChunk, buffer, records);
            (end.rc == 0 <==> CallsFit(records, |buffer|)) && |end.state| == |buffer|
    decreases |records|
  {
    hide CallOf, Write;
    if records != [] {
      assert records == [records[0]] + records[1..];
      DriveStores(StoreChunk(buffer, CallOf(records[0])).state, records[1..]);
    }
  }

  /** Restoring succeeds if and only if the buffer is large enough, the memory file is well-formed and every
      call stays in the buffer; up to 65536 pages every call does. The size of the buffer never changes. */
  lemma RestoreAcceptsExactly(image: seq<byte>, meta: seq<byte>, info: Info, buffer: seq<byte>)
    requires Inspect(meta) == Some(info)
    ensures var v, calls := RestoreInto(image, meta, buffer), Plan(info, image).records;
            && |v.state| == |buffer| && (v.rc == 0 || v.rc == -1)
            && (v.rc == 0 <==>
                  info.pageCount * 0x1_0000 <= |buffer| && Acceptable(info, image) && CallsFit(calls, |buffer|))
            && (info.pageCount <= 0x1_0000 && info.pageCount * 0x1_0000 <= |buffer| ==> CallsFit(calls, |buffer|))
  {
    hide Plan, Drive, Acceptable, Inspect, NeverFails, StoreChunk, CallOf;
    var calls := Plan(info, image).records;
    VisitAcceptsExactly(StoreChunk, buffer, image, meta);
    DriveStores(buffer, calls);
    if info.pageCount <= 0x1_0000 {
      forall r | r in calls ensures CallOf(r).offset + CallOf(r).len <= info.pageCount * 0x1_0000 {
        CallsStayInside(info, image, r);
      }
    }
  }

  /** Fresh memory is handed out if and only if the files are accepted, and then holds the overlay of zeros;
      otherwise nothing is. The size reported with it is the true one, modulo 2^32. */
  lemma FreshAcceptsExactly(image: seq<byte>, meta: seq<byte>)
    ensures Inspect(meta) == None ==> RestoreFresh(image, meta) == None
    ensures Inspect(meta).Some? ==>
              var info, result := Inspect(meta).value, RestoreFresh(image, meta);
              var size, calls := info.pageCount * 0x1_0000, Plan(info, image).records;
              && (result.Some? <==> Acceptable(info, image) && CallsFit(calls, size))
              && (result.Some? ==> |result.value.contents| == size)
              && (result.Some? ==> (size - result.value.size) % 0x1_0000_0000 == 0)
              && (info.pageCount <= 0x1_0000 ==>
                    && (result.Some? <==> Acceptable(info, image))
                    && Fits(Written(calls), size)
                    && (result.Some? ==> result.value.contents == Overlay(Zeros(size), Written(calls))))
  {
    hide Plan, Acceptable, Inspect, RestoreInto, Written, Overlay, CallsFit;
    if Inspect(meta).Some? {
      var info := Inspect(meta).value;
      var zeros := Zeros(TotalSize(info));
      RestoreAcceptsExactly(image, meta, info, zeros);
      Congruent(TotalSize(info));
      if info.pageCount <= 0x1_0000 {
        RestoreIsOverlay(image, meta, info, zeros);
      }
    }
  }

  // ---------------------------------------------------------------- the last record decides

  /** The data of the last single-chunk record for chunk `c`. */
  function LastTo(records: seq<Record>, c: nat): Option<seq<byte>>
    decreases |records|
  {
    if records == [] then None
    else if LastTo(records[1..], c).Some? then LastTo(records[1..], c)
    else if records[0].start == c then Some(records[0].data)
    else None
  }

  predicate Singles(records: seq<Record>) {
    forall r :: r in records ==> r.count == 1 && |r.data| == CHUNK
  }

  lemma WriteChunk(buffer: seq<byte>, i: nat, data: seq<byte>, c: nat)
    requires |data| == CHUNK && (i + 1) * CHUNK <= |buffer| && (c + 1) * CHUNK <= |buffer|
    ensures Chunk(Write(buffer, i * CHUNK, data), c) == if c == i then data else Chunk(buffer, c)
  {}

  /** Each chunk holds the last record for it, or what was there before. */
  lemma {:induction false} OverlayChunk(buffer: seq<byte>, records: seq<Record>, c: nat)
    requires Singles(records) && Fits(records, |buffer|) && (c + 1) * CHUNK <= |buffer|
    ensures Chunk(Overlay(buffer, records), c)
            == if LastTo(records, c).Some? then LastTo(records, c).value else Chunk(buffer, c)
    decreases |records|
  {
    hide Write, Chunk;
    if records != [] {
      var r := records[0];
      assert r in records;
      WriteChunk(buffer, r.start, r.data, c);
      OverlayChunk(Write(buffer, r.start * CHUNK, r.data), records[1..], c);
    }
  }

  /** Nothing is written past the memory the records belong to. */
  lemma {:induction false} OverlayPast(buffer: seq<byte>, records: seq<Record>, size: nat)
    requires Fits(records, size) && size <= |buffer|
    ensures Overlay(buffer, records)[size..] == buffer[size..]
    decreases |records|
  {
    if records != [] {
      var r := records[0];
      assert r in records;
      OverlayPast(Write(buffer, r.start * CHUNK, r.data), records[1..], size);
    }
  }

  lemma ByteOfChunk(memory: seq<byte>, n: nat, j: nat)
    requires n * CHUNK <= |memory| && j < n * CHUNK
    ensures j / CHUNK < n && memory[j] == Chunk(memory, j / CHUNK)[j % CHUNK]
  {}

  /** Equal chunks and equal bytes past them make equal buffers. */
  lemma ChunksDetermine(left: seq<byte>, right: seq<byte>, n: nat)
    requires |left| == |right| && n * CHUNK <= |left|
    requires forall c: nat :: c < n ==> Chunk(left, c) == Chunk(right, c)
    requires left[n * CHUNK..] == right[n * CHUNK..]
    ensures left == right
  {
    forall j | 0 <= j < |left| ensures left[j] == right[j] {
      if j < n * CHUNK {
        ByteOfChunk(left, n, j);
        ByteOfChunk(right, n, j);
      } else {
        assert left[j] == left[n * CHUNK..][j - n * CHUNK];
        assert right[j] == right[n * CHUNK..][j - n * CHUNK];
      }
    }
  }

  // ---------------------------------------------------------------- record order

  predicate DistinctStarts(records: seq<Record>) {
    forall i, j :: 0 <= i < j < |records| ==> records[i].start != records[j].start
  }

  lemma {:induction false} LastToIsMember(records: seq<Record>, c: nat)
    requires Singles(records)
    ensures LastTo(records, c).Some? ==> Record(c, 1, LastTo(records, c).value) in records
    ensures LastTo(records, c) == None ==> forall r :: r in records ==> r.start != c
    decreases |records|
  {
    if records != [] {
      LastToIsMember(records[1..], c);
      assert forall q :: q in records <==> q == records[0] || q in records[1..];
    }
  }

  lemma SameMembers<T>(left: seq<T>, right: seq<T>)
    requires multiset(left) == multiset(right)
    ensures forall x :: x in left <==> x in right
  {
    forall x ensures x in left <==> x in right {
      assert x in left <==> x in multiset(left);
      assert x in right <==> x in multiset(right);
    }
  }

  /** Records for different chunks may come in any order. */
  lemma RecordOrderIsIrrelevant(buffer: seq<byte>, records: seq<Record>, records': seq<Record>)
    requires Singles(records) && Fits(records, |buffer|) && DistinctStarts(records)
    requires multiset(records) == multiset(records')
    ensures Fits(records', |buffer|) && Overlay(buffer, records) == Overlay(buffer, records')
  {
    hide Overlay, LastTo, Chunk;
    SameMembers(records, records');
    var n := |buffer| / CHUNK;
    forall c: nat | c < n ensures Chunk(Overlay(buffer, records), c) == Chunk(Overlay(buffer, records'), c) {
      OverlayChunk(buffer, records, c);
      OverlayChunk(buffer, records', c);
      LastToIsMember(records, c);
      LastToIsMember(records', c);
    }
    OverlayPastChunks(buffer, records);
    OverlayPastChunks(buffer, records');
    ChunksDetermine(Overlay(buffer, records), Overlay(buffer, records'), n);
  }

  lemma OverlayPastChunks(buffer: seq<byte>, records: seq<Record>)
    requires Singles(records) && Fits(records, |buffer|)
    ensures var whole := |buffer| / CHUNK * CHUNK;
            Overlay(buffer, records)[whole..] == buffer[whole..]
  {
    OverlayPast(buffer, records, |buffer| / CHUNK * CHUNK);
  }

  lemma SparsePlan(info: Info, image: seq<byte>)
    requires info.sparse
    ensures Plan(info, image) == Parse(info.format, Capacity(info), image)
  {}

  lemma SinglesOfWellFormed(records: seq<Record>, n: nat)
    requires AllWellFormed(FORMAT_V1, n, records)
    ensures Singles(records) && forall r :: r in records ==> r.start < n
    ensures forall size: nat | n * CHUNK <= size :: Fits(records, size)
  {
    assert forall r :: r in records ==> WellFormed(FORMAT_V1, n, r);
  }

  /** Restoring V1 records is overlaying them. */
  lemma SinglesRestore(pageCount: u32, records: seq<Record>, rest: seq<byte>, buffer: seq<byte>)
    requires pageCount <= PAGE && pageCount * PAGE <= |buffer| && |rest| < 4
    requires AllWellFormed(FORMAT_V1, ChunkCount(pageCount), records)
    ensures AllShaped(FORMAT_V1, records) && Singles(records) && Fits(records, |buffer|)
    ensures RestoreInto(Encode(FORMAT_V1, records) + rest, SparseMeta(pageCount), buffer)
            == Verdict(0, Overlay(buffer, records))
  {
    hide Encode, RestoreInto, SparseMeta, Overlay, Written, Parse, Inspect;
    var image, info := Encode(FORMAT_V1, records) + rest, Info(FORMAT_V1, pageCount, CHUNK, true);
    SinglesOfWellFormed(records, ChunkCount(pageCount));
    InspectSparseMeta(pageCount);
    assert IsImage(FORMAT_V1, ChunkCount(pageCount), image, records, rest);
    ReadingIsUnique(FORMAT_V1, ChunkCount(pageCount), image, records, rest);
    SparsePlan(info, image);
    RestoreIsOverlay(image, SparseMeta(pageCount), info, buffer);
  }

  /** The V1 records of an image may come in any order, if they are for different chunks. */
  lemma ImageOrderIsIrrelevant(
    pageCount: u32, records: seq<Record>, records': seq<Record>, rest: seq<byte>, rest': seq<byte>, buffer: seq<byte>)
    requires pageCount <= PAGE && AllWellFormed(FORMAT_V1, ChunkCount(pageCount), records) && DistinctStarts(records)
    requires multiset(records) == multiset(records') && |rest| < 4 && |rest'| < 4
    ensures AllShaped(FORMAT_V1, records) && AllShaped(FORMAT_V1, records')
    ensures RestoreInto(Encode(FORMAT_V1, records) + rest, SparseMeta(pageCount), buffer)
            == RestoreInto(Encode(FORMAT_V1, records') + rest', SparseMeta(pageCount), buffer)
  {
    hide Encode, RestoreInto, SparseMeta, Shaped, Overlay, Written, DistinctStarts;
    var n := ChunkCount(pageCount);
    SameMembers(records, records');
    assert AllWellFormed(FORMAT_V1, n, records');
    if n * CHUNK <= |buffer| {
      SinglesRestore(pageCount, records, rest, buffer);
      SinglesRestore(pageCount, records', rest', buffer);
      RecordOrderIsIrrelevant(buffer, records, records');
    } else {
      InspectSparseMeta(pageCount);
      TooSmall(Encode(FORMAT_V1, records) + rest, SparseMeta(pageCount), buffer);
      TooSmall(Encode(FORMAT_V1, records') + rest', SparseMeta(pageCount), buffer);
    }
  }
}
