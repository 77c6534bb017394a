/** Range iterators over one SSTable and over one mem table. Both return exactly
    the records of the range, in order. */
module TableIterators {
  import opened ByteStrings
  import opened Sequences
  import opened Records
  import opened Pages
  import opened SSTables

  /** Between `below` and the end, a sorted list is split by the lower bound. */
  ghost predicate SplitsAt(rs: seq<Record>, range: Range, at: nat) {
    && at <= |rs|
    && (forall i :: 0 <= i < at ==> !AboveLower(range, rs[i].key))
    && (forall i :: at <= i < |rs| ==> AboveLower(range, rs[i].key))
  }

  /** In a sorted list it is enough to look at the records next to the split. */
  lemma SplitsBetween(rs: seq<Record>, range: Range, at: nat)
    requires Sorted(rs) && at <= |rs|
    requires at > 0 ==> !AboveLower(range, rs[at - 1].key)
    requires at < |rs| ==> AboveLower(range, rs[at].key)
    ensures SplitsAt(rs, range, at)
  {
    forall i | 0 <= i < at ensures !AboveLower(range, rs[i].key) {
      if i < at - 1 {
        SortedKeys(rs, i, at - 1);
        if AboveLower(range, rs[i].key) { AtMostTransitive(range.lower.value, rs[i].key, rs[at - 1].key); }
      }
    }
    forall i | at <= i < |rs| ensures AboveLower(range, rs[i].key) {
      if i > at && range.lower.Some? {
        SortedKeys(rs, at, i);
        AtMostTransitive(range.lower.value, rs[at].key, rs[i].key);
      }
    }
  }

  /** What a forward iterator at `at` still has to return. */
  lemma SelectFrom(rs: seq<Record>, range: Range, at: nat)
    requires Sorted(rs) && at <= |rs| && forall i :: at <= i < |rs| ==> AboveLower(range, rs[i].key)
    ensures at < |rs| && BelowUpper(range, rs[at].key) ==>
              Select(rs[at..], range) == [rs[at]] + Select(rs[at + 1..], range)
    ensures at == |rs| || !BelowUpper(range, rs[at].key) ==> Select(rs[at..], range) == []
  {
    if at < |rs| {
      assert rs[at..][1..] == rs[at + 1..];
      if !BelowUpper(range, rs[at].key) { SelectStops(rs[at..], range); }
    }
  }

  /** lsm::SSTableIterator. `next` is the record read ahead. */
  class SSTableIterator {
    const table: SSTable
    const range: Range
    var currentPage: nat
    var currentRecord: nat
    var next: Option<Record>

    /** The place in the table that NextImpl reads. */
    ghost predicate Placed()
      reads this, table.cache
    {
      && table.Valid() && currentPage <= |table.pages|
      && (if currentPage < |table.pages| then currentRecord < |table.pages[currentPage]| else currentRecord == 0)
    }

    ghost function Position(): nat
      requires Placed()
      reads this, table.cache
    {
      Offset(table.pages, currentPage) + currentRecord
    }

    ghost predicate Valid()
      reads this, table.cache
    {
      && Placed() && Sorted(table.records) && Position() <= |table.records|
      && (next.Some? ==> Position() >= 1 && next.value == table.records[Position() - 1])
      && (next.None? ==> Position() == |table.records|)
      && forall i :: At() <= i < |table.records| ==> AboveLower(range, table.records[i].key)
    }

    ghost function At(): nat
      requires Placed() && (next.Some? ==> Position() >= 1)
      reads this, table.cache
    {
      if next.Some? then Position() - 1 else Position()
    }

    ghost function Remaining(): seq<Record>
      requires Valid()
      reads this, table.cache
    {
      Select(table.records[At()..], range)
    }

    constructor (table: SSTable, range: Range, page: nat, record: nat)
      ensures this.table == table && this.range == range
      ensures currentPage == page && currentRecord == record && next == None
    {
      this.table, this.range := table, range;
      currentPage, currentRecord, next := page, record, None;
    }

    static method Create(table: SSTable, range: Range) returns (result: SSTableIterator)
      requires table.Valid() && Sorted(table.records)
      modifies table.cache
      ensures fresh(result) && result.Valid() && result.table == table && result.range == range
      ensures result.Remaining() == Select(table.records, range)
    {
      hide SSTable.Valid, Flatten, Select, Offset, AboveLower, Sorted;
      var page, record := Start(table, range);
      result := new SSTableIterator(table, range, page, record);
      SelectSkips(table.records, range, result.Position());
      var next := result.NextImpl();
      result.next := next;
    }

    /** Where the range starts: a page by binary search, then a record in that page. */
    static method Start(table: SSTable, range: Range) returns (page: nat, record: nat)
      requires table.Valid() && Sorted(table.records)
      modifies table.cache
      ensures table.Valid() && page <= |table.pages|
      ensures if page < |table.pages| then record < |table.pages[page]| else record == 0
      ensures SplitsAt(table.records, range, Offset(table.pages, page) + record)
    {
      hide SSTable.Valid, Flatten, Find, Offset, SplitsAt, Sorted;
      page, record := 0, 0;
      PageCount(table);
      if range.lower.Some? {
        page := table.LowerBound(range.lower.value);
        if page < table.header.pageCount {
          var startPage := table.GetPage(page);
          record := Find(startPage, range.lower.value);
          AtMostIsNotLess(range.lower.value, MaxKey(startPage));
        }
      }
      StartPlaced(table, page, record);
      StartSplits(table, range, page, record);
    }

    predicate HasMore()
      reads this
    {
      next.Some? && BelowUpper(range, next.value.key)
    }

    lemma HasMoreIsExact()
      requires Valid()
      ensures table.Valid() && (HasMore() <==> Remaining() != [])
      ensures HasMore() ==> Remaining() == [next.value] + Select(table.records[Position()..], range)
    {
      hide SSTable.Valid, Flatten, Select, Offset;
      SelectFrom(table.records, range, At());
    }

    method Next() returns (r: Record)
      requires Valid() && HasMore()
      modifies this, table.cache
      ensures Valid() && old(Remaining()) == [r] + Remaining()
    {
      hide SSTable.Valid, Flatten, Select, Offset;
      HasMoreIsExact();
      r := next.value;
      next := NextImpl();
    }

    method NextImpl() returns (r: Option<Record>)
      requires Placed()
      modifies this`currentPage, this`currentRecord, table.cache
      ensures Placed()
      ensures old(Position()) < |table.records| ==>
                r == Some(table.records[old(Position())]) && Position() == old(Position()) + 1
      ensures old(Position()) >= |table.records| ==>
                r == None && Position() == old(Position()) == |table.records|
    {
      hide SSTable.Valid, Flatten;
      PageCount(table);
      if currentPage >= table.header.pageCount {
        OffsetEnd(table.pages);
        return None;
      }
      FlattenIndex(table.pages, currentPage, currentRecord);
      OffsetGrows(table.pages, currentPage, currentPage + 1);
      var page := table.GetPage(currentPage);
      r := Some(page[currentRecord]);
      currentRecord := currentRecord + 1;
      if currentRecord >= |page| {
        currentRecord := 0;
        currentPage := currentPage + 1;
        if currentPage < |table.pages| { PageCount(table); }
      }
    }
  }

  lemma PageCount(table: SSTable)
    requires table.Valid()
    ensures table.header.pageCount == |table.pages| && table.records == Flatten(table.pages)
    ensures forall p :: 0 <= p < |table.pages| ==> table.pages[p] != []
  {
    PackedPages(table.records, table.header.pageSize);
  }

  lemma StartPlaced(table: SSTable, page: nat, record: nat)
    requires table.Valid() && page <= |table.pages|
    requires if page < |table.pages| then record == 0 || record < |table.pages[page]| else record == 0
    ensures page < |table.pages| ==> record < |table.pages[page]|
    ensures Offset(table.pages, page) + record <= |table.records|
  {
    hide SSTable.Valid;
    PageCount(table);
    if page < |table.pages| { FlattenIndex(table.pages, page, record); } else { OffsetEnd(table.pages); }
  }

  /** The binary search and the search inside the page find the split point. */
  lemma StartSplits(table: SSTable, range: Range, page: nat, record: nat)
    requires table.Valid() && Sorted(table.records) && page <= |table.pages|
    requires if page < |table.pages| then record < |table.pages[page]| else record == 0
    requires range.lower.None? ==> page == 0 && record == 0
    requires range.lower.Some? ==>
               && (forall p :: 0 <= p < page ==> Less(MaxKey(table.pages[p]), range.lower.value))
               && (page < |table.pages| ==> record == Find(table.pages[page], range.lower.value))
    ensures SplitsAt(table.records, range, Offset(table.pages, page) + record)
  {
    hide SSTable.Valid, Flatten;
    PageCount(table);
    OffsetStart(table.pages);
    var rs, at := table.records, Offset(table.pages, page) + record;
    if page < |table.pages| { FlattenIndex(table.pages, page, record); } else { OffsetEnd(table.pages); }
    if at > 0 && range.lower.Some? {
      if record > 0 {
        FlattenIndex(table.pages, page, record - 1);
        AtMostIsNotLess(range.lower.value, rs[at - 1].key);
      } else {
        assert page > 0;
        FlattenIndex(table.pages, page - 1, |table.pages[page - 1]| - 1);
        OffsetGrows(table.pages, page - 1, page);
        AtMostIsNotLess(range.lower.value, rs[at - 1].key);
      }
    }
    if at < |rs| && range.lower.Some? { AtMostIsNotLess(range.lower.value, rs[at].key); }
    SplitsBetween(rs, range, at);
  }

  /** A scan of a table drains its iterator: exactly the records of the range, in order. */
  method ScanTable(table: SSTable, range: Range) returns (out: seq<Record>)
    requires table.Valid() && Sorted(table.records)
    modifies table.cache
    ensures table.Valid() && out == Select(table.records, range)
  {
    hide SSTable.Valid, SSTableIterator.Valid, Select;
    var scan := SSTableIterator.Create(table, range);
    out := [];
    while scan.HasMore()
      invariant fresh(scan) && scan.table == table && scan.range == range
      invariant scan.Valid() && out + scan.Remaining() == Select(table.records, range)
      decreases |scan.Remaining()|
    {
      ghost var before := scan.Remaining();
      var r := scan.Next();
      assert out + before == out + [r] + scan.Remaining();
      out := out + [r];
    }
    scan.HasMoreIsExact();
  }

  lemma {:induction false} PagesAtMostRecords(pages: seq<seq<Record>>)
    requires forall p :: 0 <= p < |pages| ==> pages[p] != []
    ensures |pages| <= |Flatten(pages)|
  {
    if pages != [] { PagesAtMostRecords(pages[..|pages| - 1]); }
  }

  /** Writing sorted records to a file and scanning a range of the file returns exactly
      the records of that range, for every page size they fit and every cache capacity. */
  method BuildThenScan(records: seq<Record>, pageSize: nat, crc: Checksum, capacity: nat, range: Range)
    returns (out: seq<Record>)
    requires Sorted(records) && AllFit(records, pageSize)
    requires pageSize <= MAX_INT64 && |records| <= MAX_INT64
    ensures out == Select(records, range)
    ensures forall r :: (r in out <==> r in records && (range.lower.None? || !Less(r.key, range.lower.value))
                                       && (range.upper.None? || !Less(range.upper.value, r.key)))
  {
    hide Sorted, Select, TableFile, PagesOf, AllFit, Less;
    var file := BuildTable(records, pageSize, crc);
    PackedPages(records, pageSize);
    PagesAtMostRecords(PagesOf(records, pageSize));
    var table := new SSTable(0, file, crc, capacity, records, pageSize);
    out := ScanTable(table, range);
    forall r: Record { InRangeExactly(range, r.key); }
  }

  /** lsm::MemTableIterator over the sorted contents of a mem table. The lower bound
      is searched with the largest sequence number, so no version of the key is skipped. */
  class MemTableIterator {
    const impl: seq<Record>
    const range: Range
    var it: nat

    ghost predicate Valid()
      reads this
    {
      Sorted(impl) && it <= |impl| && forall i :: it <= i < |impl| ==> AboveLower(range, impl[i].key)
    }

    ghost function Remaining(): seq<Record>
      requires Valid()
      reads this
    {
      Select(impl[it..], range)
    }

    constructor (impl: seq<Record>, range: Range)
      requires Sorted(impl)
      ensures Valid() && this.impl == impl && this.range == range
      ensures Remaining() == Select(impl, range)
    {
      this.impl, this.range := impl, range;
      it := 0;
      new;
      if range.lower.Some? {
        it := FirstNotBefore(impl, Record(range.lower.value, MAX_INT64, []));
        if it > 0 { ProbeIsLeast(impl[it - 1], range.lower.value); }
        if it < |impl| { ProbeIsLeast(impl[it], range.lower.value); }
      }
      SplitsBetween(impl, range, it);
      SelectSkips(impl, range, it);
    }

    predicate HasMore()
      reads this
    {
      it < |impl| && BelowUpper(range, impl[it].key)
    }

    lemma HasMoreIsExact()
      requires Valid() && it <= |impl|
      ensures HasMore() <==> Remaining() != []
    {
      SelectFrom(impl, range, it);
    }

    method Next() returns (r: Record)
      requires Valid() && HasMore()
      modifies this
      ensures Valid() && old(Remaining()) == [r] + Remaining()
    {
      SelectFrom(impl, range, it);
      r := impl[it];
      it := it + 1;
    }
  }

  /** std::multiset::lower_bound */
  function FirstNotBefore(rs: seq<Record>, probe: Record): (n: nat)
    ensures n <= |rs| && (n > 0 ==> Before(rs[n - 1], probe)) && (n < |rs| ==> !Before(rs[n], probe))
  {
    if rs == [] || !Before(rs[0], probe) then 0 else 1 + FirstNotBefore(rs[1..], probe)
  }

  /** A record sorts before the probe exactly when its key is below the bound. */
  lemma ProbeIsLeast(r: Record, key: Bytes)
    ensures Before(r, Record(key, MAX_INT64, [])) <==> !AtMost(key, r.key)
  {
    AtMostIsNotLess(key, r.key);
    if r.key == key { LessIrreflexive(key); }
  }
}
