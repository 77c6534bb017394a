/** SSTable files: built by packing records greedily into fixed-size pages, read by
    binary search over the pages and a forward iterator through the page cache. */
module SSTables {
  import opened ByteStrings
  import opened Buffers
  import opened Sequences
  import opened Records
  import opened Pages
  import opened LruCaches

  const TABLE_HEADER := 24

  datatype Header = Header(pageSize: Int64, pageCount: Int64, maxSeqNo: Int64)

  // ----- packing records into pages

  /** Pages already closed, and the page still being filled. */
  datatype Packed = Packed(full: seq<seq<Record>>, open: seq<Record>)

  function PackStep(p: Packed, r: Record, pageSize: nat): Packed {
    if PAGE_HEADER + |RecordsBytes(p.open)| + |RecordBytes(r)| <= pageSize then Packed(p.full, p.open + [r])
    else Packed(p.full + [p.open], [r])
  }

  function Pack(rs: seq<Record>, pageSize: nat): Packed {
    if rs == [] then Packed([], []) else PackStep(Pack(rs[..|rs| - 1], pageSize), rs[|rs| - 1], pageSize)
  }

  function PagesOf(rs: seq<Record>, pageSize: nat): seq<seq<Record>> {
    var p := Pack(rs, pageSize);
    if p.open == [] then p.full else p.full + [p.open]
  }

  /** A single record must fit into one page; the options of the tree demand it. */
  predicate RecordFits(r: Record, pageSize: nat) {
    PAGE_HEADER + |RecordBytes(r)| <= pageSize
  }

  ghost predicate AllFit(rs: seq<Record>, pageSize: nat) {
    forall r :: r in rs ==> RecordFits(r, pageSize)
  }

  /** Every page holds something and fits; the next page starts with a record
      that the page no longer had room for. */
  ghost predicate GreedyPages(pages: seq<seq<Record>>, pageSize: nat) {
    && (forall i :: 0 <= i < |pages| ==> pages[i] != [] && FitsPage(pages[i], pageSize))
    && (forall i :: 0 <= i < |pages| - 1 ==>
          PAGE_HEADER + |RecordsBytes(pages[i])| + |RecordBytes(pages[i + 1][0])| > pageSize)
  }

  lemma GreedyAppend(pages: seq<seq<Record>>, page: seq<Record>, pageSize: nat)
    requires GreedyPages(pages, pageSize) && page != [] && FitsPage(page, pageSize)
    requires pages != [] ==>
               PAGE_HEADER + |RecordsBytes(pages[|pages| - 1])| + |RecordBytes(page[0])| > pageSize
    ensures GreedyPages(pages + [page], pageSize)
  {
    hide FitsPage, RecordsBytes, RecordBytes;
  }

  lemma GreedyFront(pages: seq<seq<Record>>, page: seq<Record>, pageSize: nat)
    requires GreedyPages(pages + [page], pageSize)
    ensures GreedyPages(pages, pageSize) && page != [] && FitsPage(page, pageSize)
    ensures pages != [] ==>
              PAGE_HEADER + |RecordsBytes(pages[|pages| - 1])| + |RecordBytes(page[0])| > pageSize
  {
    hide FitsPage, RecordsBytes, RecordBytes;
    var all := pages + [page];
    assert all[|pages|] == page;
    assert forall i :: 0 <= i < |pages| ==> all[i] == pages[i];
    if pages != [] { assert all[|pages| - 1 + 1] == page; }
  }

  /** Packing loses nothing, keeps the order, and fills every page as far as it goes. */
  lemma {:induction false} PackedPages(rs: seq<Record>, pageSize: nat)
    requires AllFit(rs, pageSize)
    ensures Flatten(PagesOf(rs, pageSize)) == rs
    ensures GreedyPages(PagesOf(rs, pageSize), pageSize)
    ensures Pack(rs, pageSize).open == [] <==> rs == []
    ensures rs == [] ==> PagesOf(rs, pageSize) == []
  {
    hide RecordBytes, RecordsBytes, GreedyPages, Flatten;
    if rs == [] {
      PackedNothing(pageSize);
    } else {
      var front, last := rs[..|rs| - 1], rs[|rs| - 1];
      assert rs == front + [last];
      PackedPages(front, pageSize);
      PackedStep(front, last, pageSize);
    }
  }

  lemma PackedNothing(pageSize: nat)
    ensures Flatten(PagesOf([], pageSize)) == [] && GreedyPages(PagesOf([], pageSize), pageSize)
  {}

  lemma PackAppend(rs: seq<Record>, r: Record, pageSize: nat)
    ensures Pack(rs + [r], pageSize) == PackStep(Pack(rs, pageSize), r, pageSize)
  {
    assert (rs + [r])[..|rs|] == rs;
  }

  lemma PackedStep(rs: seq<Record>, r: Record, pageSize: nat)
    requires Flatten(PagesOf(rs, pageSize)) == rs && GreedyPages(PagesOf(rs, pageSize), pageSize)
    requires (Pack(rs, pageSize).open == [] <==> rs == []) && RecordFits(r, pageSize)
    ensures Flatten(PagesOf(rs + [r], pageSize)) == rs + [r]
    ensures GreedyPages(PagesOf(rs + [r], pageSize), pageSize)
    ensures Pack(rs + [r], pageSize).open != []
  {
    hide RecordBytes, RecordsBytes, GreedyPages, Flatten, Pack;
    PackAppend(rs, r, pageSize);
    PackEmpty(pageSize);
    var p := Pack(rs, pageSize);
    RecordsBytesAppend(p.open, r);
    RecordsBytesAppend([], r);
    assert [] + [r] == [r];
    if rs == [] {
      FlattenAppend([], [r]);
      PackedNothing(pageSize);
      GreedyAppend([], [r], pageSize);
      assert [] + [[r]] == [[r]];
    } else {
      FlattenAppend(p.full, p.open);
      GreedyFront(p.full, p.open, pageSize);
      if PAGE_HEADER + |RecordsBytes(p.open)| + |RecordBytes(r)| <= pageSize {
        FlattenAppend(p.full, p.open + [r]);
        assert (p.open + [r])[0] == p.open[0];
        GreedyAppend(p.full, p.open + [r], pageSize);
        assert Flatten(p.full) + (p.open + [r]) == Flatten(p.full) + p.open + [r];
      } else {
        FlattenAppend(p.full + [p.open], [r]);
        GreedyAppend(p.full + [p.open], [r], pageSize);
      }
    }
  }

  lemma PackEmpty(pageSize: nat)
    ensures Pack([], pageSize) == Packed([], []) && RecordsBytes([]) == [] && Flatten<Record>([]) == []
  {}

  function MaxSeq(rs: seq<Record>): Int64 {
    if rs == [] then 0
    else
      var m, r := MaxSeq(rs[..|rs| - 1]), rs[|rs| - 1];
      if m < r.seqNo then r.seqNo else m
  }

  /** The header carries the largest sequence number of the file, or 0. */
  lemma {:induction false} MaxSeqIsMax(rs: seq<Record>)
    ensures MaxSeq(rs) >= 0 && (forall r :: r in rs ==> r.seqNo <= MaxSeq(rs))
    ensures MaxSeq(rs) == 0 || exists r :: r in rs && r.seqNo == MaxSeq(rs)
  {
    if rs != [] {
      var front, r := rs[..|rs| - 1], rs[|rs| - 1];
      MaxSeqIsMax(front);
      assert rs == front + [r];
      if MaxSeq(front) < r.seqNo { assert r in rs; }
    }
  }

  lemma MaxSeqAppend(rs: seq<Record>, r: Record)
    ensures MaxSeq(rs + [r]) == if MaxSeq(rs) < r.seqNo then r.seqNo else MaxSeq(rs)
  {
    assert (rs + [r])[..|rs|] == rs;
  }

  function PagesBytes(pages: seq<seq<Record>>, pageSize: nat, crc: Checksum): Bytes {
    if pages == [] then []
    else PagesBytes(pages[..|pages| - 1], pageSize, crc) + PageBytes(pages[|pages| - 1], pageSize, crc)
  }

  function HeaderBytes(pageSize: int, pageCount: int, maxSeqNo: int): (b: Bytes)
    ensures |b| == TABLE_HEADER
  {
    IntBytes(pageSize) + IntBytes(pageCount) + IntBytes(maxSeqNo)
  }

  /** The file that holds `rs`. */
  function TableFile(rs: seq<Record>, pageSize: nat, crc: Checksum): Bytes {
    var pages := PagesOf(rs, pageSize);
    HeaderBytes(pageSize, |pages|, MaxSeq(rs)) + PagesBytes(pages, pageSize, crc)
  }

  function ParseHeader(file: Bytes): Result<Header> {
    var (pageSize, b1) :- GetInt(file);
    var (pageCount, b2) :- GetInt(b1);
    var (maxSeqNo, _) :- GetInt(b2);
    Success(Header(pageSize, pageCount, maxSeqNo))
  }

  lemma HeaderRoundTrip(pageSize: Int64, pageCount: Int64, maxSeqNo: Int64, rest: Bytes)
    ensures ParseHeader(HeaderBytes(pageSize, pageCount, maxSeqNo) + rest)
         == Success(Header(pageSize, pageCount, maxSeqNo))
  {
    hide GetInt;
    var b2 := IntBytes(maxSeqNo) + rest;
    var b1 := IntBytes(pageCount) + b2;
    assert HeaderBytes(pageSize, pageCount, maxSeqNo) + rest == IntBytes(pageSize) + b1;
    IntRoundTrip(pageSize, b1);
    IntRoundTrip(pageCount, b2);
    IntRoundTrip(maxSeqNo, rest);
  }

  lemma PagesBytesAppend(pages: seq<seq<Record>>, page: seq<Record>, pageSize: nat, crc: Checksum)
    ensures PagesBytes(pages + [page], pageSize, crc) == PagesBytes(pages, pageSize, crc) + PageBytes(page, pageSize, crc)
  {
    hide PageBytes;
    assert (pages + [page])[..|pages|] == pages;
  }

  ghost predicate AllFitPage(pages: seq<seq<Record>>, pageSize: nat) {
    forall page :: page in pages ==> FitsPage(page, pageSize)
  }

  lemma {:induction false} PagesLength(pages: seq<seq<Record>>, pageSize: nat, crc: Checksum)
    requires pageSize <= MAX_INT64 && AllFitPage(pages, pageSize)
    ensures |PagesBytes(pages, pageSize, crc)| == |pages| * pageSize
  {
    hide PageBytes, FitsPage, LoadPage;
    if pages != [] {
      PagesLength(pages[..|pages| - 1], pageSize, crc);
      PageRoundTrip(pages[|pages| - 1], pageSize, crc);
      assert |pages| * pageSize == (|pages| - 1) * pageSize + pageSize;
    }
  }

  /** Page `i` is the `i`-th slice of page-size bytes. */
  lemma PageSlice(pages: seq<seq<Record>>, pageSize: nat, crc: Checksum, i: nat)
    requires pageSize <= MAX_INT64 && i < |pages| && AllFitPage(pages, pageSize)
    ensures i * pageSize + pageSize <= |PagesBytes(pages, pageSize, crc)|
    ensures PagesBytes(pages, pageSize, crc)[i * pageSize..i * pageSize + pageSize] == PageBytes(pages[i], pageSize, crc)
  {
    hide PageBytes, FitsPage, LoadPage, PagesBytes;
    PageRoundTrip(pages[i], pageSize, crc);
    PagesLength(pages[..i], pageSize, crc);
    PagesBytesAppend(pages[..i], pages[i], pageSize, crc);
    assert pages[..i + 1] == pages[..i] + [pages[i]];
    PagesPrefix(pages, pageSize, crc, i + 1);
    var a, b := PagesBytes(pages[..i], pageSize, crc), PageBytes(pages[i], pageSize, crc);
    assert (a + b)[|a|..|a| + |b|] == b;
  }

  lemma {:induction false} PagesPrefix(pages: seq<seq<Record>>, pageSize: nat, crc: Checksum, n: nat)
    requires n <= |pages|
    ensures PagesBytes(pages[..n], pageSize, crc) <= PagesBytes(pages, pageSize, crc)
  {
    hide PageBytes;
    if n == |pages| {
      assert pages[..n] == pages;
    } else {
      PagesPrefix(pages[..|pages| - 1], pageSize, crc, n);
      assert pages[..|pages| - 1][..n] == pages[..n];
    }
  }

  // ----- building

  /** disk::SSTableBuilder with its file. The ghost `added` lists the added records. */
  class SSTableBuilder {
    const pageSize: nat
    const crc: Checksum
    const pageBuilder: PageBuilder
    var pageCount: nat
    var maxSeqNo: Int64
    var file: Bytes
    ghost var added: seq<Record>

    ghost predicate Valid()
      reads this, pageBuilder
    {
      && pageBuilder.Valid() && pageBuilder.pageSize == pageSize && pageBuilder.crc == crc
      && AllFit(added, pageSize)
      && pageBuilder.records == Pack(added, pageSize).open
      && pageCount == |Pack(added, pageSize).full|
      && maxSeqNo == MaxSeq(added)
      && file == HeaderBytes(pageSize, 0, 0) + PagesBytes(Pack(added, pageSize).full, pageSize, crc)
    }

    constructor (pageSize: nat, crc: Checksum)
      ensures Valid() && fresh(pageBuilder) && added == []
      ensures this.pageSize == pageSize && this.crc == crc
    {
      this.pageSize, this.crc := pageSize, crc;
      pageBuilder := new PageBuilder(pageSize, crc);
      pageCount, maxSeqNo, added := 0, 0, [];
      // reserve space for the header
      file := HeaderBytes(pageSize, 0, 0);
    }

    method Add(record: Record)
      requires Valid() && RecordFits(record, pageSize) && pageSize <= MAX_INT64
      modifies this, pageBuilder
      ensures Valid() && added == old(added) + [record]
    {
      hide Pack, PageBytes, PagesBytes, RecordsBytes, RecordBytes, PagesOf, HeaderBytes, GreedyPages, MaxSeq;
      var writer := new BufferWriter();
      WriteRecord(writer, record);
      var raw := writer.Extract();
      assert raw == RecordBytes(record);
      ghost var p := Pack(added, pageSize);
      PackAppend(added, record, pageSize);
      PackedPages(added, pageSize);
      if !pageBuilder.IsEnoughSpace(|raw|) {
        PagesBytesAppend(p.full, p.open, pageSize, crc);
        AppendAssociates(HeaderBytes(pageSize, 0, 0), PagesBytes(p.full, pageSize, crc), PageBytes(p.open, pageSize, crc));
        FlushPage();
      }
      pageBuilder.AddRecord(raw, record);
      MaxSeqAppend(added, record);
      maxSeqNo := if maxSeqNo < record.seqNo then record.seqNo else maxSeqNo;
      added := added + [record];
      assert [] + [record] == [record];
    }

    method FlushPage()
      requires pageBuilder.Valid() && pageBuilder.pageSize == pageSize && pageBuilder.crc == crc
      modifies this`file, this`pageCount, pageBuilder
      ensures file == old(file) + PageBytes(old(pageBuilder.records), pageSize, crc)
      ensures pageCount == old(pageCount) + 1
      ensures pageBuilder.Valid() && pageBuilder.records == []
    {
      var raw := pageBuilder.Extract();
      file := file + raw;
      pageBuilder.Clear();
      pageCount := pageCount + 1;
    }

    /** Closes the last page and rewrites the header at the start of the file. */
    method Finish()
      requires Valid()
      modifies this, pageBuilder
      ensures file == TableFile(old(added), pageSize, crc)
    {
      hide Pack, PageBytes, PagesBytes, RecordsBytes;
      ghost var p := Pack(added, pageSize);
      if !pageBuilder.Empty() {
        PagesBytesAppend(p.full, p.open, pageSize, crc);
        FlushPage();
      }
      ghost var pages := PagesOf(old(added), pageSize);
      assert file[TABLE_HEADER..] == PagesBytes(pages, pageSize, crc);
      file := HeaderBytes(pageSize, pageCount, maxSeqNo) + file[TABLE_HEADER..];
    }
  }

  /** MemTable::Flush and the body of Compact: a file with exactly the given records. */
  method BuildTable(records: seq<Record>, pageSize: nat, crc: Checksum) returns (file: Bytes)
    requires AllFit(records, pageSize) && pageSize <= MAX_INT64
    ensures file == TableFile(records, pageSize, crc)
  {
    hide TableFile, RecordFits, SSTableBuilder.Valid;
    var builder := new SSTableBuilder(pageSize, crc);
    var i := 0;
    while i < |records|
      invariant 0 <= i <= |records| && fresh(builder) && fresh(builder.pageBuilder)
      invariant builder.Valid() && builder.pageSize == pageSize && builder.crc == crc
      invariant builder.added == records[..i]
    {
      builder.Add(records[i]);
      i := i + 1;
    }
    assert records[..i] == records;
    builder.Finish();
    return builder.file;
  }

  // ----- reading

  function Loader(pages: seq<seq<Record>>): int -> seq<Record> {
    n => if 0 <= n < |pages| then pages[n] else []
  }

  /** lsm::SSTable over the file of the ghost `records`. */
  class SSTable {
    const file: Bytes
    const crc: Checksum
    const header: Header
    const cache: LruCache<int, seq<Record>>
    const fileNo: nat
    ghost const records: seq<Record>
    ghost const pages: seq<seq<Record>>

    ghost predicate Valid()
      reads cache
    {
      && 0 <= header.pageSize && AllFit(records, header.pageSize)
      && pages == PagesOf(records, header.pageSize)
      && file == TableFile(records, header.pageSize, crc)
      && header.pageCount == |pages| && header.maxSeqNo == MaxSeq(records)
      && cache.Valid()
      && forall e :: e in cache.entries ==> e.value == Loader(pages)(e.key)
    }

    constructor (fileNo: nat, file: Bytes, crc: Checksum, capacity: nat, ghost records: seq<Record>, ghost pageSize: nat)
      requires file == TableFile(records, pageSize, crc)
      requires AllFit(records, pageSize) && pageSize <= MAX_INT64 && |PagesOf(records, pageSize)| <= MAX_INT64
      ensures Valid() && fresh(cache) && cache.entries == [] && cache.capacity == capacity
      ensures this.records == records && header.pageSize == pageSize
      ensures this.fileNo == fileNo && this.file == file && this.crc == crc
    {
      HeaderRoundTrip(pageSize, |PagesOf(records, pageSize)|, MaxSeq(records),
                      PagesBytes(PagesOf(records, pageSize), pageSize, crc));
      this.fileNo, this.file, this.crc := fileNo, file, crc;
      header := ParseHeader(file).value;
      cache := new LruCache(capacity);
      this.records := records;
      pages := PagesOf(records, pageSize);
    }

    method GetPage(pageNum: nat) returns (page: seq<Record>)
      requires Valid() && pageNum < header.pageCount
      modifies cache
      ensures Valid() && page == pages[pageNum]
      ensures cache.entries == Access(old(cache.entries), cache.capacity, Loader(pages), pageNum)
    {
      hide TableFile, PagesOf, MaxSeq, AllFit, Without, ValueOf, LoadPage;
      var cached := cache.Get(pageNum);
      if cached.Some? {
        ValueIsLoaded(old(cache.entries), Loader(pages), pageNum);
        return cached.value;
      }
      ReadsPage(pageNum);
      var start := TABLE_HEADER + pageNum * header.pageSize;
      var loaded := Load(file[start..start + header.pageSize], crc);
      page := loaded.value;
      cache.Put(pageNum, page);
    }

    lemma ReadsPage(n: nat)
      requires Valid() && n < |pages|
      ensures PAGE_HEADER <= header.pageSize
      ensures var start := TABLE_HEADER + n * header.pageSize;
              0 <= start && start + header.pageSize <= |file|
              && LoadPage(file[start..start + header.pageSize], crc) == Success(pages[n])
    {
      hide PageBytes, PagesOf, PagesBytes, RecordsBytes, LoadPage, Flatten, Pack, HeaderBytes, MaxSeq;
      var ps := header.pageSize;
      PackedPages(records, ps);
      PageSlice(pages, ps, crc, n);
      PageRoundTrip(pages[n], ps, crc);
      var bytes := PagesBytes(pages, ps, crc);
      var head := HeaderBytes(ps, |pages|, MaxSeq(records));
      SliceAfter(head, bytes, n * ps, ps);
    }

    static lemma SliceAfter(head: Bytes, rest: Bytes, at: nat, len: nat)
      requires at + len <= |rest|
      ensures (head + rest)[|head| + at..|head| + at + len] == rest[at..at + len]
    {}

    /** The first page whose largest key is not below `key`. */
    method LowerBound(key: Bytes) returns (lo: nat)
      requires Valid() && Sorted(records)
      modifies cache
      ensures Valid() && lo <= |pages|
      ensures forall p :: 0 <= p < lo ==> Less(MaxKey(pages[p]), key)
      ensures lo < |pages| ==> AtMost(key, MaxKey(pages[lo]))
    {
      hide TableFile, PagesOf, MaxSeq, AllFit;
      lo := 0;
      var hi := header.pageCount;
      while lo < hi
        invariant Valid() && 0 <= lo <= hi <= |pages|
        invariant forall p :: 0 <= p < lo ==> Less(MaxKey(pages[p]), key)
        invariant hi < |pages| ==> AtMost(key, MaxKey(pages[hi]))
      {
        var mid := lo + (hi - lo) / 2;
        var page := GetPage(mid);
        AtMostIsNotLess(key, MaxKey(page));
        if AtMost(key, MaxKey(page)) {
          hi := mid;
        } else {
          forall p | 0 <= p < mid ensures Less(MaxKey(pages[p]), key) {
            MaxKeysAscend(p, mid);
            AtMostTransitive(MaxKey(pages[p]), MaxKey(pages[mid]), key);
          }
          lo := mid + 1;
        }
      }
    }

    lemma MaxKeysAscend(p: nat, q: nat)
      requires Valid() && Sorted(records) && p < q < |pages|
      ensures AtMost(MaxKey(pages[p]), MaxKey(pages[q]))
    {
      hide TableFile, PagesOf, MaxSeq, AllFit, Flatten, FitsPage, RecordBytes, RecordsBytes;
      PackedPages(records, header.pageSize);
      FlattenIndex(pages, p, |pages[p]| - 1);
      FlattenIndex(pages, q, |pages[q]| - 1);
      OffsetGrows(pages, p, q);
      SortedKeys(records, Offset(pages, p) + |pages[p]| - 1, Offset(pages, q) + |pages[q]| - 1);
    }
  }

  lemma ValueIsLoaded<K, V>(es: seq<Entry<K, V>>, load: K -> V, key: K)
    requires Holds(es, key) && forall e :: e in es ==> e.value == load(e.key)
    ensures ValueOf(es, key) == load(key)
  {
    if es[0].key != key {
      HoldsTail(es, key);
      ValueIsLoaded(es[1..], load, key);
    }
  }

  function MaxKey(page: seq<Record>): Bytes {
    if page == [] then [] else page[|page| - 1].key
  }
}
