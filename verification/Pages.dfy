/** Pages of an SSTable file: a count, a checksum, packed records and zero padding. */
module Pages {
  import opened ByteStrings
  import opened Buffers
  import opened Records

  const PAGE_HEADER := 16

  /** The CRC of the page body, widened to 64 bits; any deterministic function will do. */
  type Checksum = Bytes -> Int64

  function RecordsBytes(rs: seq<Record>): Bytes {
    if rs == [] then [] else RecordsBytes(rs[..|rs| - 1]) + RecordBytes(rs[|rs| - 1])
  }

  lemma RecordsBytesAppend(rs: seq<Record>, r: Record)
    ensures RecordsBytes(rs + [r]) == RecordsBytes(rs) + RecordBytes(r)
  {
    assert (rs + [r])[..|rs|] == rs;
  }

  lemma AppendAssociates(a: Bytes, b: Bytes, c: Bytes)
    ensures (a + b) + c == a + (b + c)
  {}

  lemma {:induction false} RecordsBytesFirst(rs: seq<Record>)
    requires rs != []
    ensures RecordsBytes(rs) == RecordBytes(rs[0]) + RecordsBytes(rs[1..])
  {
    if |rs| == 1 {
      assert rs[..0] == [] && rs[1..] == [];
    } else {
      var front, last := rs[..|rs| - 1], rs[|rs| - 1];
      RecordsBytesFirst(front);
      RecordsBytesAppend(front[1..], last);
      assert rs[1..] == front[1..] + [last];
      AppendAssociates(RecordBytes(rs[0]), RecordsBytes(front[1..]), RecordBytes(last));
    }
  }

  function GetRecords(b: Bytes, n: nat): Result<seq<Record>> {
    if n == 0 then Success([])
    else
      var (r, b1) :- GetRecord(b);
      var rs :- GetRecords(b1, n - 1);
      Success([r] + rs)
  }

  lemma {:induction false} RecordsRoundTrip(rs: seq<Record>, rest: Bytes)
    requires |RecordsBytes(rs)| <= MAX_INT64
    ensures GetRecords(RecordsBytes(rs) + rest, |rs|) == Success(rs)
  {
    hide RecordBytes, GetRecord;
    if rs != [] {
      RecordsBytesFirst(rs);
      var tail := RecordsBytes(rs[1..]) + rest;
      assert RecordsBytes(rs) + rest == RecordBytes(rs[0]) + tail;
      RecordRoundTrip(rs[0], tail);
      RecordsRoundTrip(rs[1..], rest);
      assert rs == [rs[0]] + rs[1..];
    }
  }

  lemma {:induction false} RecordsAreLong(rs: seq<Record>)
    ensures |RecordsBytes(rs)| >= 24 * |rs|
  {
    if rs != [] { RecordsAreLong(rs[..|rs| - 1]); }
  }

  function Body(rs: seq<Record>, pageSize: nat): Bytes {
    var raw := RecordsBytes(rs);
    raw + Zeros(if PAGE_HEADER + |raw| < pageSize then pageSize - PAGE_HEADER - |raw| else 0)
  }

  function PageBytes(rs: seq<Record>, pageSize: nat, crc: Checksum): Bytes {
    IntBytes(|rs|) + IntBytes(crc(Body(rs, pageSize))) + Body(rs, pageSize)
  }

  /** The record bytes leave room for the header. */
  predicate FitsPage(rs: seq<Record>, pageSize: nat) {
    PAGE_HEADER + |RecordsBytes(rs)| <= pageSize
  }

  function LoadPage(buffer: Bytes, crc: Checksum): Result<seq<Record>> {
    var (count, b1) :- GetInt(buffer);
    var (checksum, body) :- GetInt(b1);
    if crc(body) != checksum then Failure(ChecksumMismatch)
    else if count < 0 then Failure(NegativeLength)
    else GetRecords(body, count)
  }

  /** Loading a built page gives back its records, and the page has the fixed size. */
  lemma PageRoundTrip(rs: seq<Record>, pageSize: nat, crc: Checksum)
    requires FitsPage(rs, pageSize) && pageSize <= MAX_INT64
    ensures |PageBytes(rs, pageSize, crc)| == pageSize
    ensures LoadPage(PageBytes(rs, pageSize, crc), crc) == Success(rs)
  {
    hide GetRecords, GetInt, RecordsBytes;
    var body := Body(rs, pageSize);
    RecordsAreLong(rs);
    assert PageBytes(rs, pageSize, crc) == IntBytes(|rs|) + (IntBytes(crc(body)) + body);
    IntRoundTrip(|rs|, IntBytes(crc(body)) + body);
    IntRoundTrip(crc(body), body);
    RecordsRoundTrip(rs, body[|RecordsBytes(rs)|..]);
    assert body == RecordsBytes(rs) + body[|RecordsBytes(rs)|..];
  }

  /** A page whose body no longer has the stored checksum is refused. */
  lemma PageChecksumDetects(rs: seq<Record>, pageSize: nat, crc: Checksum, body: Bytes)
    requires FitsPage(rs, pageSize) && pageSize <= MAX_INT64
    requires crc(body) != crc(Body(rs, pageSize))
    ensures LoadPage(IntBytes(|rs|) + IntBytes(crc(Body(rs, pageSize))) + body, crc) == Failure(ChecksumMismatch)
  {
    var checksum := crc(Body(rs, pageSize));
    RecordsAreLong(rs);
    assert IntBytes(|rs|) + IntBytes(checksum) + body == IntBytes(|rs|) + (IntBytes(checksum) + body);
    IntRoundTrip(|rs|, IntBytes(checksum) + body);
    IntRoundTrip(checksum, body);
  }

  function Prepend(rs: seq<Record>, r: Result<seq<Record>>): Result<seq<Record>> {
    if r.Success? then Success(rs + r.value) else r
  }

  /** The record loop of Page::Load. */
  method ReadRecords(reader: BufferReader, count: nat) returns (r: Result<seq<Record>>)
    modifies reader
    ensures r == GetRecords(old(reader.rest), count)
  {
    var records: seq<Record> := [];
    hide GetRecord;
    var left := count;
    PrependNothing(GetRecords(reader.rest, count));
    while left > 0
      invariant Prepend(records, GetRecords(reader.rest, left)) == GetRecords(old(reader.rest), count)
    {
      GetRecordsStep(records, reader.rest, left);
      var record := ReadRecord(reader);
      if record.Failure? { return Failure(record.fault); }
      records := records + [record.value];
      left := left - 1;
    }
    assert records + [] == records;
    return Success(records);
  }

  lemma GetRecordsStep(rs: seq<Record>, b: Bytes, n: nat)
    requires n > 0
    ensures GetRecord(b).Failure? ==> Prepend(rs, GetRecords(b, n)) == Failure(GetRecord(b).fault)
    ensures GetRecord(b).Success? ==>
              var (r, b1) := GetRecord(b).value;
              Prepend(rs, GetRecords(b, n)) == Prepend(rs + [r], GetRecords(b1, n - 1))
  {
    if GetRecord(b).Success? {
      var (r, b1) := GetRecord(b).value;
      var tail := GetRecords(b1, n - 1);
      if tail.Success? { assert rs + ([r] + tail.value) == rs + [r] + tail.value; }
    }
  }

  lemma PrependNothing(r: Result<seq<Record>>)
    ensures Prepend([], r) == r
  {
    if r.Success? { assert [] + r.value == r.value; }
  }

  /** Page::Load */
  method Load(buffer: Bytes, crc: Checksum) returns (r: Result<seq<Record>>)
    requires |buffer| >= PAGE_HEADER
    ensures r == LoadPage(buffer, crc)
  {
    var checksum := crc(buffer[PAGE_HEADER..]);
    var reader := new BufferReader(buffer);
    var count :- reader.ReadInt();
    var stored :- reader.ReadInt();
    assert reader.rest == buffer[PAGE_HEADER..];
    if checksum != stored { return Failure(ChecksumMismatch); }
    if count < 0 { return Failure(NegativeLength); }
    r := ReadRecords(reader, count);
  }

  /** Page::Find: std::ranges::lower_bound over the keys of a page. */
  function Find(rs: seq<Record>, key: Bytes): (n: nat)
    ensures n <= |rs| && (forall i :: 0 <= i < n ==> Less(rs[i].key, key))
    ensures n < |rs| ==> !Less(rs[n].key, key)
  {
    if rs == [] || !Less(rs[0].key, key) then 0 else 1 + Find(rs[1..], key)
  }

  /** disk::PageBuilder. The ghost `records` are the records added since the last Clear. */
  class PageBuilder {
    const pageSize: nat
    const crc: Checksum
    var currentPage: Bytes
    var count: nat
    ghost var records: seq<Record>

    ghost predicate Valid()
      reads this
    {
      currentPage == Zeros(PAGE_HEADER) + RecordsBytes(records) && count == |records|
    }

    constructor (pageSize: nat, crc: Checksum)
      ensures Valid() && records == [] && this.pageSize == pageSize && this.crc == crc
    {
      this.pageSize, this.crc := pageSize, crc;
      currentPage, count, records := Zeros(PAGE_HEADER), 0, [];
    }

    predicate IsEnoughSpace(recordSize: nat)
      reads this
    {
      |currentPage| + recordSize <= pageSize
    }

    predicate Empty()
      reads this
    {
      count == 0
    }

    method AddRecord(raw: Bytes, ghost record: Record)
      requires Valid() && raw == RecordBytes(record)
      modifies this
      ensures Valid() && records == old(records) + [record]
    {
      hide RecordBytes;
      RecordsBytesAppend(records, record);
      currentPage := currentPage + raw;
      count := count + 1;
      records := records + [record];
      assert currentPage == Zeros(PAGE_HEADER) + (RecordsBytes(old(records)) + raw);
    }

    /** Pads to the page size, then writes count and checksum over the reserved header. */
    method Extract() returns (page: Bytes)
      requires Valid()
      modifies this
      ensures page == PageBytes(records, pageSize, crc) && records == old(records)
    {
      if |currentPage| < pageSize {
        currentPage := currentPage + Zeros(pageSize - |currentPage|);
      }
      ghost var body := Body(records, pageSize);
      assert currentPage[PAGE_HEADER..] == body;
      var checksum := crc(currentPage[PAGE_HEADER..]);
      var header := IntBytes(count) + IntBytes(checksum);
      currentPage := header + currentPage[PAGE_HEADER..];
      page := currentPage;
      currentPage := [];
    }

    method Clear()
      modifies this
      ensures Valid() && records == []
    {
      currentPage, count, records := Zeros(PAGE_HEADER), 0, [];
    }
  }
}
