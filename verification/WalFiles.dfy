/** Segments of the log: one zero-padded page each, written by Writer and replayed in
    the order of their names by Reader. */
module WalFiles {
  import opened ByteStrings
  import opened Buffers
  import opened Sequences
  import opened WalEvents
  import opened FileNames

  const WAL_PAGE := 4096

  function EventsBytes(es: seq<Event>): Bytes {
    if es == [] then [] else EventsBytes(es[..|es| - 1]) + EventBytes(es[|es| - 1])
  }

  lemma EventsBytesAppend(es: seq<Event>, e: Event)
    ensures EventsBytes(es + [e]) == EventsBytes(es) + EventBytes(e)
  {
    assert (es + [e])[..|es|] == es;
  }

  lemma {:induction false} EventsBytesFirst(es: seq<Event>)
    requires es != []
    ensures EventsBytes(es) == EventBytes(es[0]) + EventsBytes(es[1..])
  {
    hide EventBytes;
    if |es| == 1 {
      assert es[..0] == [] && es[1..] == [];
    } else {
      var front, last := es[..|es| - 1], es[|es| - 1];
      EventsBytesFirst(front);
      EventsBytesAppend(front[1..], last);
      assert es[1..] == front[1..] + [last];
      assert EventBytes(es[0]) + EventsBytes(front[1..]) + EventBytes(last)
          == EventBytes(es[0]) + (EventsBytes(front[1..]) + EventBytes(last));
    }
  }

  /** Events applied from a page, and the fault that ended it, if any. An unknown tag is an
      exception that ends the segment; `PastEnd` is a read outside the buffer. */
  datatype Replayed = Replayed(events: seq<Event>, stop: Option<Fault>)

  function ReadPage(b: Bytes): Replayed
    decreases |b|
  {
    if b == [] then Replayed([], None)
    else match GetEvent(b)
      case Failure(f) => Replayed([], Some(f))
      case Success(p) => Before([p.0], ReadPage(p.1))
  }

  function Before(es: seq<Event>, r: Replayed): Replayed { Replayed(es + r.events, r.stop) }

  /** How the padding of a page reads. */
  function PaddingStop(n: nat): Option<Fault> {
    if n == 0 then None else if n < 8 then Some(PastEnd) else Some(UnknownTag)
  }

  /** A page gives back its events; its unused tail stops the reader cleanly when it is
      empty or at least eight bytes, and otherwise makes it read outside the page. */
  lemma {:induction false} PageReadsBack(es: seq<Event>, n: nat)
    requires |EventsBytes(es)| <= MAX_INT64
    ensures ReadPage(EventsBytes(es) + Zeros(n)) == Replayed(es, PaddingStop(n))
  {
    hide EventBytes, GetEvent;
    if es == [] {
      assert EventsBytes(es) + Zeros(n) == Zeros(n);
      PaddingReads(n);
    } else {
      EventsBytesFirst(es);
      var rest := EventsBytes(es[1..]) + Zeros(n);
      assert EventsBytes(es) + Zeros(n) == EventBytes(es[0]) + rest;
      EventRoundTrip(es[0], rest);
      PageReadsBack(es[1..], n);
      assert EventBytes(es[0]) + rest != [];
      assert [es[0]] + es[1..] == es;
    }
  }

  lemma PaddingReads(n: nat)
    ensures ReadPage(Zeros(n)) == Replayed([], PaddingStop(n))
  {
    ZeroTail(n);
  }

  /** RecoveryStrategy::OnPage without the application of the events. */
  method OnPage(page: Bytes) returns (r: Replayed)
    ensures r == ReadPage(page)
  {
    hide GetEvent;
    var reader := new BufferReader(page);
    var events := [];
    assert ReadPage(page) == Before([], ReadPage(page));
    while reader.HasMore()
      invariant fresh(reader) && ReadPage(page) == Before(events, ReadPage(reader.rest))
      decreases |reader.rest|
    {
      BeforeStep(events, reader.rest);
      var event := ParseEvent(reader);
      if event.Failure? { return Replayed(events, Some(event.fault)); }
      events := events + [event.value];
    }
    return Replayed(events, None);
  }

  lemma BeforeStep(es: seq<Event>, b: Bytes)
    requires b != []
    ensures GetEvent(b).Failure? ==> Before(es, ReadPage(b)) == Replayed(es, Some(GetEvent(b).fault))
    ensures GetEvent(b).Success? ==>
              |GetEvent(b).value.1| < |b|
              && Before(es, ReadPage(b)) == Before(es + [GetEvent(b).value.0], ReadPage(GetEvent(b).value.1))
  {
    if GetEvent(b).Success? {
      var (e, rest) := GetEvent(b).value;
      assert es + ([e] + ReadPage(rest).events) == es + [e] + ReadPage(rest).events;
    } else {
      assert es + [] == es;
    }
  }

  /** Reader::ReadSegment: pages until the end of the file or the first exception. */
  function ReadSegment(file: Bytes): Replayed
    decreases |file|
  {
    if |file| <= WAL_PAGE then ReadPage(file)
    else
      var r := ReadPage(file[..WAL_PAGE]);
      if r.stop.Some? then r else Before(r.events, ReadSegment(file[WAL_PAGE..]))
  }

  // ----- packing events into segments

  predicate EventFits(e: Event) { |EventBytes(e)| <= WAL_PAGE }

  datatype Log = Log(closed: seq<seq<Event>>, open: seq<Event>)

  function Append(log: Log, e: Event): Log {
    if |EventsBytes(log.open)| + |EventBytes(e)| > WAL_PAGE then Log(log.closed + [log.open], [e])
    else Log(log.closed, log.open + [e])
  }

  function AllEvents(log: Log): seq<Event> { Flatten(log.closed) + log.open }

  ghost predicate LogOk(log: Log) {
    && |EventsBytes(log.open)| <= WAL_PAGE
    && forall i :: 0 <= i < |log.closed| ==> log.closed[i] != [] && |EventsBytes(log.closed[i])| <= WAL_PAGE
  }

  /** What follows a closed segment. */
  function Next(log: Log, i: nat): seq<Event>
    requires i < |log.closed|
  {
    if i + 1 < |log.closed| then log.closed[i + 1] else log.open
  }

  /** A segment is closed only when the first event of the next one no longer fits it. */
  ghost predicate Packed(log: Log) {
    forall i :: 0 <= i < |log.closed| ==>
      Next(log, i) != [] && |EventsBytes(log.closed[i])| + |EventBytes(Next(log, i)[0])| > WAL_PAGE
  }

  lemma OnePart(open: seq<Event>)
    ensures Packed(Log([], open))
  {}

  lemma AppendPacks(log: Log, e: Event)
    requires LogOk(log) && Packed(log) && EventFits(e)
    ensures Packed(Append(log, e))
  {
    hide EventBytes, EventsBytes;
    var more := Append(log, e);
    NoBytes();
    forall i | 0 <= i < |more.closed|
      ensures Next(more, i) != [] && |EventsBytes(more.closed[i])| + |EventBytes(Next(more, i)[0])| > WAL_PAGE
    {
      if i < |log.closed| { assert Next(log, i) != [] && Next(more, i)[0] == Next(log, i)[0]; }
    }
  }

  /** Appending loses nothing, keeps the order and never splits an event. */
  lemma AppendKeeps(log: Log, e: Event)
    requires LogOk(log) && EventFits(e)
    ensures LogOk(Append(log, e)) && AllEvents(Append(log, e)) == AllEvents(log) + [e]
    ensures Append(log, e).open != []
  {
    hide EventBytes, EventsBytes, Flatten;
    EventsBytesAppend(log.open, e);
    EventsBytesAppend([], e);
    NoBytes();
    assert [] + [e] == [e];
    FlattenAppend(log.closed, log.open);
  }

  lemma NoBytes()
    ensures EventsBytes([]) == []
  {}

  function ClosedSegment(es: seq<Event>): Bytes
    requires |EventsBytes(es)| <= WAL_PAGE
  {
    EventsBytes(es) + Zeros(WAL_PAGE - |EventsBytes(es)|)
  }

  lemma Padded(es: seq<Event>)
    requires |EventsBytes(es)| <= WAL_PAGE
    ensures ClosedSegment(es) == EventsBytes(es) + Zeros(WAL_PAGE - |EventsBytes(es)|)
    ensures |EventsBytes(es)| == WAL_PAGE ==> ClosedSegment(es) == EventsBytes(es)
  {
    hide EventsBytes;
  }

  /** The unused tail of a closed segment. */
  function Tail(es: seq<Event>): int { WAL_PAGE - |EventsBytes(es)| }

  /** A directory that holds the files of earlier lives and, from `first` on, one segment for each
      part of the log. */
  ghost predicate LaidOut(files: map<nat, Bytes>, earlier: map<nat, Bytes>, first: nat, log: Log) {
    var no := first + |log.closed|;
    && LogOk(log)
    && (forall n :: n in earlier ==> n < first)
    && (forall n :: n in files <==> n in earlier || first <= n <= no)
    && (forall n :: n in earlier ==> files[n] == earlier[n])
    && (forall n :: first <= n < no ==> files[n] == ClosedSegment(log.closed[n - first]))
    && files[no] == EventsBytes(log.open)
  }

  lemma LaidOutFits(files: map<nat, Bytes>, earlier: map<nat, Bytes>, first: nat, log: Log)
    requires LaidOut(files, earlier, first, log)
    ensures LogOk(log) && first + |log.closed| in files && files[first + |log.closed|] == EventsBytes(log.open)
    ensures |EventsBytes(log.open)| <= WAL_PAGE
  {
    hide EventsBytes, ClosedSegment;
  }

  lemma LaidOutMore(files: map<nat, Bytes>, earlier: map<nat, Bytes>, first: nat, log: Log, event: Event)
    requires LaidOut(files, earlier, first, log) && LogOk(Log(log.closed, log.open + [event]))
    ensures var no := first + |log.closed|;
            no in files && LaidOut(files[no := files[no] + EventBytes(event)], earlier, first, Log(log.closed, log.open + [event]))
  {
    hide EventBytes, EventsBytes, ClosedSegment;
    EventsBytesAppend(log.open, event);
  }

  lemma LaidOutNext(files: map<nat, Bytes>, earlier: map<nat, Bytes>, first: nat, log: Log)
    requires LaidOut(files, earlier, first, log) && log.open != []
    ensures var no := first + |log.closed|;
            LaidOut(files[no := ClosedSegment(log.open)][no + 1 := []], earlier, first, Log(log.closed + [log.open], []))
  {
    hide EventsBytes, ClosedSegment;
    NoBytes();
  }

  /** wal::Writer with its directory. The ghost `log` lists the events of the segments from
      number `first` on; segments of earlier runs have smaller numbers. */
  class Writer {
    var files: map<nat, Bytes>
    var currentPageSize: nat
    var pagesInCurrentSegment: nat
    var currentSegmentNo: nat
    ghost var first: nat
    ghost var earlier: map<nat, Bytes>
    ghost var log: Log

    /** The files hold the log. */
    ghost predicate Holds()
      reads this
    {
      && currentSegmentNo == first + |log.closed| && pagesInCurrentSegment == 0
      && currentPageSize == |EventsBytes(log.open)| && LaidOut(files, earlier, first, log)
    }

    ghost predicate Valid()
      reads this
    {
      Holds() && Packed(log)
    }

    /** Init: opens the segment after the last name in the directory, for appending. With at most
        four digits that is a new one. */
    constructor (files: map<nat, Bytes>)
      ensures earlier == files && log == Log([], [])
      ensures FourDigits(files.Keys) ==> Valid() && (forall n :: n in files ==> n < first)
      ensures FourDigits(files.Keys) ==> first == 0 || first - 1 in files
      ensures exists names :: Listing(names, files.Keys, WAL_SUFFIX)
                && currentSegmentNo == if names == [] then 0 else names[|names| - 1] + 1
    {
      hide FileName, Less, EventsBytes, Packed;
      NoBytes();
      OnePart([]);
      var names := SortedNumbers(files.Keys, WAL_SUFFIX);
      var no := if names == [] then 0 else names[|names| - 1] + 1;
      assert names != [] ==> names[|names| - 1] in names;
      earlier, first := files, no;
      currentSegmentNo, currentPageSize, pagesInCurrentSegment := no, 0, 0;
      this.files := files[no := if no in files then files[no] else []];
      log := Log([], []);
      new;
      assert FourDigits(files.Keys) ==> forall n :: n in files ==> n in names;
    }

    method Write(event: Event)
      requires Valid() && EventFits(event)
      modifies this`files, this`currentPageSize, this`pagesInCurrentSegment, this`currentSegmentNo, this`log
      ensures Valid() && log == Append(old(log), event)
      ensures AllEvents(log) == AllEvents(old(log)) + [event]
      ensures currentSegmentNo == old(currentSegmentNo)
                                  + if old(currentPageSize) + |EventBytes(event)| > WAL_PAGE then 1 else 0
    {
      hide EventBytes, EventsBytes, Flatten, ClosedSegment, LogOk, LaidOut, Packed;
      LaidOutFits(files, earlier, first, log);
      AppendKeeps(log, event);
      AppendPacks(log, event);
      EventsBytesAppend(log.open, event);
      EventsBytesAppend([], event);
      NoBytes();
      assert [] + [event] == [event];
      var writer := new BufferWriter();
      FlushEvent(writer, event);
      var data := writer.Extract();
      assert data == EventBytes(event);
      if currentPageSize + |data| > WAL_PAGE {
        FlushPage();
      }
      LaidOutMore(files, earlier, first, log, event);
      files := files[currentSegmentNo := files[currentSegmentNo] + data];
      currentPageSize := currentPageSize + |data|;
      log := Log(log.closed, log.open + [event]);
    }

    /** Pads the page and opens the next segment; an empty page is left alone. */
    method FlushPage()
      requires Holds()
      modifies this`files, this`currentPageSize, this`pagesInCurrentSegment, this`currentSegmentNo, this`log
      ensures Holds()
      ensures log == if old(currentPageSize) == 0 then old(log) else Log(old(log).closed + [old(log).open], [])
      ensures currentSegmentNo == old(currentSegmentNo) + if old(currentPageSize) == 0 then 0 else 1
    {
      hide EventsBytes, ClosedSegment, LaidOut, LogOk;
      LaidOutFits(files, earlier, first, log);
      NoBytes();
      Padded(log.open);
      if currentPageSize == 0 { return; }
      LaidOutNext(files, earlier, first, log);
      if currentPageSize < WAL_PAGE {
        files := files[currentSegmentNo := files[currentSegmentNo] + Zeros(WAL_PAGE - currentPageSize)];
      }
      assert files == old(files)[currentSegmentNo := ClosedSegment(log.open)];
      currentPageSize := 0;
      // one page per segment, so the segment is full: open the next
      currentSegmentNo := currentSegmentNo + 1;
      files := files[currentSegmentNo := []];
      pagesInCurrentSegment := 0;
      log := Log(log.closed + [log.open], []);
    }

    /** Files are removed, but not the one being written. The closed segments that are left count
        as earlier ones from now on. */
    method LoseFiles(left: map<nat, Bytes>)
      requires Valid() && currentSegmentNo in left && forall n :: n in left ==> n in files && left[n] == files[n]
      modifies this`files, this`first, this`earlier, this`log
      ensures Valid() && files == left && log == Log([], old(log).open)
      ensures first == currentSegmentNo && earlier == left - {currentSegmentNo}
    {
      hide EventsBytes, ClosedSegment, Packed;
      OnePart(log.open);
      files, first, earlier, log := left, currentSegmentNo, left - {currentSegmentNo}, Log([], log.open);
    }
  }

  // ----- reading the log back

  /** The events of the named segments, in the order of the names. */
  function ReadNumbers(files: map<nat, Bytes>, names: seq<nat>): seq<Event>
    requires forall n :: n in names ==> n in files
  {
    if names == [] then []
    else ReadNumbers(files, names[..|names| - 1]) + ReadSegment(files[names[|names| - 1]]).events
  }

  /** Reader::Read */
  method ReadLog(files: map<nat, Bytes>) returns (names: seq<nat>, events: seq<Event>)
    ensures Listing(names, files.Keys, WAL_SUFFIX)
    ensures events == ReadNumbers(files, names)
  {
    hide ReadPage, ReadSegment;
    names := SortedNumbers(files.Keys, WAL_SUFFIX);
    events := [];
    var i := 0;
    while i < |names|
      invariant 0 <= i <= |names|
      invariant forall n :: n in names[..i] ==> n in files
      invariant events == ReadNumbers(files, names[..i])
    {
      assert names[i] in names && names[..i + 1][..i] == names[..i];
      var r := ReadFile(files[names[i]]);
      events := events + r.events;
      i := i + 1;
    }
    assert names[..i] == names;
  }

  method ReadFile(file: Bytes) returns (r: Replayed)
    ensures r == ReadSegment(file)
  {
    hide ReadPage;
    var rest := file;
    r := Replayed([], None);
    assert ReadSegment(file) == Before([], ReadSegment(file));
    while |rest| > WAL_PAGE
      invariant r.stop == None && ReadSegment(file) == Before(r.events, ReadSegment(rest))
      decreases |rest|
    {
      var page := OnPage(rest[..WAL_PAGE]);
      BeforeBefore(r.events, page.events, ReadSegment(rest[WAL_PAGE..]));
      r := Before(r.events, page);
      if page.stop.Some? { return; }
      rest := rest[WAL_PAGE..];
    }
    var page := OnPage(rest);
    r := Before(r.events, page);
  }

  lemma BeforeBefore(a: seq<Event>, b: seq<Event>, r: Replayed)
    ensures Before(a, Before(b, r)) == Before(a + b, r)
  {
    assert a + (b + r.events) == a + b + r.events;
  }

  lemma {:induction false} NumbersReadBack(files: map<nat, Bytes>, names: seq<nat>, events: seq<seq<Event>>)
    requires |names| == |events| && forall n :: n in names ==> n in files
    requires forall i :: 0 <= i < |names| ==> ReadSegment(files[names[i]]).events == events[i]
    ensures ReadNumbers(files, names) == Flatten(events)
  {
    hide ReadSegment;
    if names != [] {
      NumbersReadBack(files, names[..|names| - 1], events[..|events| - 1]);
    }
  }

  lemma {:induction false} ReadConcat(files: map<nat, Bytes>, a: seq<nat>, b: seq<nat>)
    requires forall n :: n in a + b ==> n in files
    ensures forall n :: n in a || n in b ==> n in files
    ensures ReadNumbers(files, a + b) == ReadNumbers(files, a) + ReadNumbers(files, b)
  {
    hide ReadSegment;
    forall n | n in a || n in b ensures n in files { assert n in a + b; }
    if b == [] {
      assert a + b == a;
    } else {
      assert (a + b)[..|a + b| - 1] == a + b[..|b| - 1];
      ReadConcat(files, a, b[..|b| - 1]);
    }
  }

  lemma {:induction false} ReadSame(f: map<nat, Bytes>, g: map<nat, Bytes>, names: seq<nat>)
    requires forall n :: n in names ==> n in f && n in g && f[n] == g[n]
    ensures ReadNumbers(f, names) == ReadNumbers(g, names)
  {
    hide ReadSegment;
    if names != [] { ReadSame(f, g, names[..|names| - 1]); }
  }

  lemma SegmentReadsBack(es: seq<Event>, n: nat)
    requires |EventsBytes(es)| + n <= WAL_PAGE
    ensures ReadSegment(EventsBytes(es) + Zeros(n)) == Replayed(es, PaddingStop(n))
  {
    hide EventsBytes, ReadPage;
    PageReadsBack(es, n);
  }

  function Numbers(first: nat, count: nat): (r: seq<nat>)
    ensures |r| == count && forall i :: 0 <= i < count ==> r[i] == first + i
  {
    seq(count, i => first + i)
  }

  /** What a segment of the run reads as. */
  lemma RunSegment(w: Writer, n: nat)
    requires w.Valid() && w.first <= n <= w.currentSegmentNo
    ensures n < w.currentSegmentNo ==>
              |w.files[n]| == WAL_PAGE
              && ReadSegment(w.files[n]) == Replayed(w.log.closed[n - w.first], PaddingStop(Tail(w.log.closed[n - w.first])))
    ensures n == w.currentSegmentNo ==> ReadSegment(w.files[n]) == Replayed(w.log.open, None)
  {
    hide EventsBytes, ReadSegment, Packed;
    if n < w.currentSegmentNo {
      SegmentReadsBack(w.log.closed[n - w.first], Tail(w.log.closed[n - w.first]));
    } else {
      SegmentReadsBack(w.log.open, 0);
      assert EventsBytes(w.log.open) + Zeros(0) == EventsBytes(w.log.open);
    }
  }

  /** No closed segment leaves a tail of 1 to 7 bytes. */
  ghost predicate TailsOk(log: Log) {
    forall k :: 0 <= k < |log.closed| ==> Tail(log.closed[k]) == 0 || Tail(log.closed[k]) >= 8
  }

  /** Reading the directory in name order gives the events of earlier runs, then every event
      this run wrote, once and in order, without a read outside a page; closed segments are
      exactly one page. */
  lemma WalRoundTrip(w: Writer, names: seq<nat>, earlier: seq<nat>)
    requires w.Valid() && w.currentSegmentNo < 10000 && TailsOk(w.log)
    requires Listing(names, w.files.Keys, WAL_SUFFIX) && Listing(earlier, w.earlier.Keys, WAL_SUFFIX)
    ensures ReadNumbers(w.files, names) == ReadNumbers(w.earlier, earlier) + AllEvents(w.log)
    ensures forall n :: w.first <= n < w.currentSegmentNo ==> |w.files[n]| == WAL_PAGE
    ensures forall n :: w.first <= n <= w.currentSegmentNo ==> ReadSegment(w.files[n]).stop != Some(PastEnd)
  {
    hide EventsBytes, ReadSegment, Flatten, ReadNumbers, ClosedSegment, Packed;
    ListingAscends(names, w.files.Keys, WAL_SUFFIX);
    ListingAscends(earlier, w.earlier.Keys, WAL_SUFFIX);
    var own := Numbers(w.first, |w.log.closed| + 1);
    OwnNames(w, names, earlier, own);
    ReaderStaysInsideExactly(w);
    ReadConcat(w.files, earlier, own);
    ReadSame(w.files, w.earlier, earlier);
    var segments := w.log.closed + [w.log.open];
    forall i | 0 <= i < |own| ensures own[i] in w.files && ReadSegment(w.files[own[i]]).events == segments[i] {
      RunSegment(w, w.first + i);
    }
    NumbersReadBack(w.files, own, segments);
    FlattenAppend(w.log.closed, w.log.open);
    forall n | w.first <= n < w.currentSegmentNo ensures |w.files[n]| == WAL_PAGE { RunSegment(w, n); }
  }

  lemma OwnNames(w: Writer, names: seq<nat>, earlier: seq<nat>, own: seq<nat>)
    requires w.Valid() && own == Numbers(w.first, |w.log.closed| + 1)
    requires Ascending(names) && forall n :: n in names <==> n in w.files
    requires Ascending(earlier) && forall n :: n in earlier <==> n in w.earlier
    ensures names == earlier + own
  {
    hide EventsBytes, ClosedSegment, Packed;
    var all := earlier + own;
    forall n ensures n in own <==> w.first <= n <= w.currentSegmentNo {
      if w.first <= n <= w.currentSegmentNo { assert own[n - w.first] == n; }
    }
    forall i, j | 0 <= i < j < |all| ensures all[i] < all[j] {
      if i < |earlier| <= j { assert all[i] in earlier && all[j] in own; }
    }
    AscendingUnique(names, all);
  }

  /** The segments of a first run are listed in the order they were written if and only if there
      are at most 10000. */
  lemma SegmentsListedExactly(w: Writer, names: seq<nat>)
    requires w.Valid() && w.earlier == map[] && w.first == 0 && Listing(names, w.files.Keys, WAL_SUFFIX)
    ensures Ascending(names) <==> w.currentSegmentNo < 10000
  {
    hide EventsBytes, ClosedSegment, Packed;
    ListingAscendsExactly(names, w.files.Keys, w.currentSegmentNo, WAL_SUFFIX);
  }

  /** The reader stays inside the pages of a run exactly when no closed segment leaves a
      tail of 1 to 7 bytes. */
  lemma ReaderStaysInsideExactly(w: Writer)
    requires w.Valid()
    ensures (forall n :: w.first <= n <= w.currentSegmentNo ==> ReadSegment(w.files[n]).stop != Some(PastEnd))
       <==> TailsOk(w.log)
  {
    hide EventsBytes, ReadSegment, ClosedSegment, Packed;
    forall n | w.first <= n <= w.currentSegmentNo
      ensures ReadSegment(w.files[n]).stop
           == if n < w.currentSegmentNo then PaddingStop(Tail(w.log.closed[n - w.first])) else None
    {
      RunSegment(w, n);
    }
    forall k | 0 <= k < |w.log.closed| ensures Tail(w.log.closed[k]) >= 0 {}
    if forall n :: w.first <= n <= w.currentSegmentNo ==> ReadSegment(w.files[n]).stop != Some(PastEnd) {
      forall k | 0 <= k < |w.log.closed| ensures Tail(w.log.closed[k]) == 0 || Tail(w.log.closed[k]) >= 8 {
        assert ReadSegment(w.files[w.first + k]).stop != Some(PastEnd);
      }
    }
  }

  /** Such a tail does occur: an event of 4095 bytes followed by any other. */
  lemma ShortTailOccurs(value: Bytes, tx: Int64)
    requires |value| == 4055
    ensures var e := Upsert([], 1, [], value);
            EventFits(e) && EventFits(Commit(tx))
            && Append(Append(Log([], []), e), Commit(tx)).closed == [[e]] && Tail([e]) == 1
  {
    hide EventBytes, EventsBytes;
    var e := Upsert([], 1, [], value);
    SizesOf(value, tx);
    NoBytes();
    EventsBytesAppend([], e);
    assert [] + [e] == [e] && [] + [[e]] == [[e]];
    assert Append(Log([], []), e) == Log([], [e]);
  }

  lemma SizesOf(value: Bytes, tx: Int64)
    ensures |EventBytes(Upsert([], 1, [], value))| == 40 + |value| && 2 <= |EventBytes(Commit(tx))| <= 40
  {}
}
