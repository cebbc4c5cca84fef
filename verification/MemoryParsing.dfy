/** The sparse reader accepts exactly the images that are a sequence of well-formed records, and reads
    those records. */
module MemoryParsing {
  import opened Options
  import opened References
  import opened Bytes
  import opened MemoryImage

  lemma EncodedLength(format: u32, capacity: nat, r: Record)
    requires WellFormed(format, capacity, r)
    ensures Representable(r) && |EncodeRecord(format, r)| >= 4
    ensures |EncodeRecord(format, r)| == (if format == FORMAT_V1 then 4 else 8) + r.count * CHUNK
  {}

  lemma ReadEncoded(format: u32, capacity: nat, r: Record, rest: seq<byte>)
    requires Shaped(format, r)
    ensures |EncodeRecord(format, r)| >= 4
    ensures ReadRecord(format, capacity, EncodeRecord(format, r) + rest)
            == if r.start + r.count <= capacity then Some(r) else None
  {
    var bytes := EncodeRecord(format, r) + rest;
    Get32Put32(r.start);
    Get32Put32(r.count);
    assert bytes[..4] == Put32(r.start);
    if format == FORMAT_V1 {
      assert bytes[4..4 + CHUNK] == r.data;
    } else {
      assert bytes[4..8] == Put32(r.count);
      assert bytes[8..8 + r.count * CHUNK] == r.data;
    }
  }

  /** Records in front of any bytes are read first; what follows them is read as if it stood alone. */
  lemma {:induction false} ParseEncoded(format: u32, capacity: nat, records: seq<Record>, rest: seq<byte>)
    requires AllWellFormed(format, capacity, records)
    ensures AllShaped(format, records)
    ensures Parse(format, capacity, Encode(format, records) + rest)
            == Parsed(records + Parse(format, capacity, rest).records, Parse(format, capacity, rest).ok)
  {
    hide ReadRecord, EncodeRecord, Shaped;
    if records == [] {
      assert Encode(format, records) + rest == rest;
    } else {
      var r, more := records[0], records[1..];
      assert records == [r] + more && WellFormed(format, capacity, r);
      EncodedLength(format, capacity, r);
      ParseEncoded(format, capacity, more, rest);
      EncodeCons(format, capacity, r, more);
      hide Encode;
      var tail := Encode(format, more) + rest;
      ReadEncoded(format, capacity, r, tail);
      assert Encode(format, records) + rest == EncodeRecord(format, r) + tail;
      assert (EncodeRecord(format, r) + tail)[|EncodeRecord(format, r)|..] == tail;
      assert records + Parse(format, capacity, rest).records == [r] + (more + Parse(format, capacity, rest).records);
    }
  }

  /** `image` is the records in order, all in range, and fewer than four bytes after them. */
  ghost predicate IsImage(format: u32, capacity: nat, image: seq<byte>, records: seq<Record>, rest: seq<byte>) {
    AllWellFormed(format, capacity, records) && |rest| < 4 && image == Encode(format, records) + rest
  }

  /** On any bytes, what was read is well-formed and is a prefix of the bytes; reading stopped either within
      the last three bytes or at bytes that are no record. */
  lemma {:induction false} ParseIsSound(format: u32, capacity: nat, image: seq<byte>) returns (rest: seq<byte>)
    ensures var p := Parse(format, capacity, image);
            && AllWellFormed(format, capacity, p.records) && AllShaped(format, p.records)
            && image == Encode(format, p.records) + rest
            && (if p.ok then |rest| < 4 else |rest| >= 4 && ReadRecord(format, capacity, rest) == None)
    decreases |image|
  {
    hide ReadRecord, EncodeRecord, WellFormed, Shaped;
    rest := image;
    if |image| < 4 {
      assert Encode(format, []) + rest == image;
    } else {
      match ReadRecord(format, capacity, image)
      case None => assert Encode(format, []) + rest == image;
      case Some(r) =>
        EncodedLength(format, capacity, r);
        var n := |EncodeRecord(format, r)|;
        rest := ParseIsSound(format, capacity, image[n..]);
        var records := Parse(format, capacity, image[n..]).records;
        EncodeCons(format, capacity, r, records);
        assert image == EncodeRecord(format, r) + image[n..];
        assert image == EncodeRecord(format, r) + Encode(format, records) + rest;
    }
  }

  lemma EncodeCons(format: u32, capacity: nat, r: Record, records: seq<Record>)
    requires WellFormed(format, capacity, r) && AllWellFormed(format, capacity, records)
    ensures AllShaped(format, records) && AllShaped(format, [r] + records)
    ensures AllWellFormed(format, capacity, [r] + records)
    ensures Encode(format, [r] + records) == EncodeRecord(format, r) + Encode(format, records)
  {
    hide EncodeRecord;
    assert ([r] + records)[1..] == records;
    assert forall q :: q in [r] + records <==> q == r || q in records;
  }

  /** Exact acceptance, on arbitrary bytes. */
  lemma AcceptsExactlyImages(format: u32, capacity: nat, image: seq<byte>)
    ensures Parse(format, capacity, image).ok <==>
            exists records, rest :: IsImage(format, capacity, image, records, rest)
  {
    var rest := ParseIsSound(format, capacity, image);
    if Parse(format, capacity, image).ok {
      assert IsImage(format, capacity, image, Parse(format, capacity, image).records, rest);
    }
    if records, tail :| IsImage(format, capacity, image, records, tail) {
      ParseEncoded(format, capacity, records, tail);
    }
  }

  /** An image has one reading: the records the visitor is called with are the only ones it encodes. */
  lemma ReadingIsUnique(format: u32, capacity: nat, image: seq<byte>, records: seq<Record>, rest: seq<byte>)
    requires IsImage(format, capacity, image, records, rest)
    ensures Parse(format, capacity, image) == Parsed(records, true)
  {
    ParseEncoded(format, capacity, records, rest);
    assert records + [] == records;
  }

  /** The records before the first one that reaches past the memory. */
  function InRange(records: seq<Record>, capacity: nat): seq<Record> {
    if records == [] || records[0].start + records[0].count > capacity then []
    else [records[0]] + InRange(records[1..], capacity)
  }

  lemma {:induction false} InRangeIsWellFormed(format: u32, capacity: nat, records: seq<Record>)
    requires AllShaped(format, records)
    ensures AllWellFormed(format, capacity, InRange(records, capacity))
    ensures InRange(records, capacity) == records <==> AllWellFormed(format, capacity, records)
    decreases |records|
  {
    hide Shaped;
    if records != [] {
      assert records[0] in records;
      InRangeIsWellFormed(format, capacity, records[1..]);
      assert forall q :: q in records <==> q == records[0] || q in records[1..];
    }
  }

  /** Full-length records are read up to the first one that is out of range, and are accepted if and only if
      there is none. */
  lemma {:induction false} ShapedParse(format: u32, capacity: nat, records: seq<Record>, rest: seq<byte>)
    requires AllShaped(format, records) && |rest| < 4
    ensures Parse(format, capacity, Encode(format, records) + rest)
            == Parsed(InRange(records, capacity), InRange(records, capacity) == records)
    ensures InRange(records, capacity) == records <==> AllWellFormed(format, capacity, records)
    decreases |records|
  {
    hide ReadRecord, EncodeRecord;
    InRangeIsWellFormed(format, capacity, records);
    if records == [] {
      assert Encode(format, records) + rest == rest;
    } else {
      var r, tail := records[0], Encode(format, records[1..]) + rest;
      assert Shaped(format, r);
      ReadEncoded(format, capacity, r, tail);
      assert Encode(format, records) + rest == EncodeRecord(format, r) + tail;
      assert (EncodeRecord(format, r) + tail)[|EncodeRecord(format, r)|..] == tail;
      ShapedParse(format, capacity, records[1..], rest);
    }
  }

  /** A record that is out of range or cut short stops the reader: what came before it has been visited. */
  lemma RejectedAfter(format: u32, capacity: nat, records: seq<Record>, bad: seq<byte>)
    requires AllWellFormed(format, capacity, records)
    requires |bad| >= 4 && ReadRecord(format, capacity, bad) == None
    ensures AllShaped(format, records)
    ensures Parse(format, capacity, Encode(format, records) + bad) == Parsed(records, false)
  {
    ParseEncoded(format, capacity, records, bad);
    assert records + [] == records;
  }

  /** A visit of two lists of records is the visit of the first and then, unless the visitor has failed, that of
      the second from there: no record is visited after a failure, and none before is skipped. */
  lemma {:induction false} DriveInTurn<S>(
    visitor: (S, Call) -> Verdict<S>, s: S, left: seq<Record>, right: seq<Record>)
    ensures Drive(visitor, s, left + right)
            == if Drive(visitor, s, left).rc != 0 then Drive(visitor, s, left)
               else Drive(visitor, Drive(visitor, s, left).state, right)
    decreases |left|
  {
    if left == [] {
      assert left + right == right;
    } else {
      assert (left + right)[1..] == left[1..] + right;
      DriveInTurn(visitor, visitor(s, CallOf(left[0])).state, left[1..], right);
    }
  }

  /** A visit of one record is one call; any return code but 0 is a failure. */
  lemma DriveOne<S>(visitor: (S, Call) -> Verdict<S>, s: S, r: Record)
    ensures var v := visitor(s, CallOf(r));
            Drive(visitor, s, [r]) == Verdict(if v.rc == 0 then 0 else -1, v.state)
    ensures Drive(visitor, s, []) == Verdict(0, s)
  {
    assert [r][1..] == [];
  }

  ghost predicate NeverFails<S(!new)>(visitor: (S, Call) -> Verdict<S>) {
    forall s: S, c: Call :: visitor(s, c).rc == 0
  }

  lemma {:induction false} DriveNeverFails<S(!new)>(visitor: (S, Call) -> Verdict<S>, s: S, records: seq<Record>)
    requires NeverFails(visitor)
    ensures Drive(visitor, s, records).rc == 0
    decreases |records|
  {
    if records != [] {
      DriveNeverFails(visitor, visitor(s, CallOf(records[0])).state, records[1..]);
    }
  }

  /** The memory files that are well-formed, in any of the three formats. */
  ghost predicate Acceptable(info: Info, image: seq<byte>) {
    if info.sparse then exists records, rest :: IsImage(info.format, Capacity(info), image, records, rest)
    else |image| == info.pageCount * 0x1_0000
  }

  lemma PlanAcceptsExactly(info: Info, image: seq<byte>)
    ensures Plan(info, image).ok <==> Acceptable(info, image)
  {
    hide Parse, IsImage;
    AcceptsExactlyImages(info.format, Capacity(info), image);
  }

  /** A visit returns 0 if and only if the page-count file is accepted, the memory file is well-formed and no
      call of the visitor fails; else it returns -1. With a visitor that never fails the files alone decide. */
  lemma VisitAcceptsExactly<S(!new)>(visitor: (S, Call) -> Verdict<S>, s: S, image: seq<byte>, meta: seq<byte>)
    ensures Inspect(meta) == None ==> Visit(visitor, s, image, meta) == Verdict(-1, s)
    ensures Inspect(meta).Some? ==>
              var info := Inspect(meta).value;
              var v, end := Visit(visitor, s, image, meta), Drive(visitor, s, Plan(info, image).records);
              && v.state == end.state
              && (v.rc == 0 <==> Acceptable(info, image) && end.rc == 0)
              && (v.rc == 0 || v.rc == -1)
              && (NeverFails(visitor) ==> (v.rc == 0 <==> Acceptable(info, image)))
  {
    hide Plan, Drive, Acceptable, Inspect, NeverFails;
    if Inspect(meta).Some? {
      PlanAcceptsExactly(Inspect(meta).value, image);
      if NeverFails(visitor) {
        DriveNeverFails(visitor, s, Plan(Inspect(meta).value, image).records);
      }
    }
  }
}
