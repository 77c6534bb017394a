/** The leader streams log pages to a follower while it keeps writing and cleaning.
    A segment is one page; it is complete when it has the full page size. */
module Streaming {
  import opened ByteStrings
  import opened WalFiles
  import opened FileNames

  datatype Position = Position(segment: nat, page: nat)

  predicate Before(a: Position, b: Position) {
    if a.segment != b.segment then a.segment < b.segment else a.page < b.page
  }

  // ----- the registry of followers

  /** replication::FollowerRegistry: what every connected follower still needs. */
  class FollowerRegistry {
    var positions: map<nat, Position>
    var nextToken: nat

    ghost predicate Valid()
      reads this
    {
      forall t :: t in positions ==> t < nextToken
    }

    constructor ()
      ensures Valid() && positions == map[]
    {
      positions, nextToken := map[], 0;
    }

    method Register(from: Position) returns (token: nat)
      requires Valid()
      modifies this
      ensures Valid() && token !in old(positions) && positions == old(positions)[token := from]
    {
      token := nextToken;
      nextToken := nextToken + 1;
      positions := positions[token := from];
    }

    method Update(token: nat, nextNeeded: Position)
      requires Valid()
      modifies this`positions
      ensures Valid()
      ensures positions == if token in old(positions) then old(positions)[token := nextNeeded] else old(positions)
    {
      if token in positions { positions := positions[token := nextNeeded]; }
    }

    method Unregister(token: nat)
      requires Valid()
      modifies this`positions
      ensures Valid() && positions == old(positions) - {token}
    {
      positions := positions - {token};
    }

    /** The smallest segment that any connected follower needs. */
    method MinRetainedSegment() returns (r: Option<nat>)
      ensures r.None? <==> positions == map[]
      ensures r.Some? ==> forall t :: t in positions ==> r.value <= positions[t].segment
      ensures r.Some? ==> exists t :: t in positions && positions[t].segment == r.value
    {
      if positions == map[] { return None; }
      var first :| first in positions;
      var minSegment := positions[first].segment;
      var left := positions.Keys;
      while left != {}
        invariant left <= positions.Keys
        invariant exists t :: t in positions && positions[t].segment == minSegment
        invariant forall t :: t in positions && t !in left ==> minSegment <= positions[t].segment
        decreases left
      {
        var t :| t in left;
        if positions[t].segment < minSegment { minSegment := positions[t].segment; }
        left := left - {t};
      }
      return Some(minSegment);
    }
  }

  // ----- the stream as a protocol

  /** A page as the pump read it: segment number and size at that moment. */
  datatype Page = Page(no: nat, size: nat)

  /** The pump waits for its timer, reads the segments it has listed one by one, or sends what it
      read. `hi` is one past the last segment listed. */
  datatype Phase =
    | Ready
    | Reading(names: seq<nat>, pages: seq<Page>, hi: nat)
    | Sending(batch: seq<Page>)

  /** `sizes` is the leader's directory, `active` the segment it writes. `needed` is the
      position in the registry, `retain` what a running cleaner read from it (the minimum
      over all followers), `sent` the complete segments and `delivered` all pages sent so far. */
  datatype State = State(
    sizes: map<nat, nat>, active: nat,
    next: Position, tailSent: Option<nat>, phase: Phase, sent: seq<nat>, delivered: seq<Page>,
    needed: Position, retain: Option<nat>)

  datatype Step =
    | Grow(bytes: nat)                // the writer appends to its segment
    | Roll                           // the writer pads its segment, unless empty, and opens the next
    | List(names: seq<nat>)          // CollectPagesFrom lists the directory
    | ReadNext                       // and reads the next segment
    | Collect                        // until all are read
    | Send                           // the next page of the batch
    | Rest                           // all sent, wait for the timer
    | CleanStart(retain: nat)        // the cleaner reads the registry
    | CleanRemove(no: nat)           // and removes an obsolete segment

  predicate Lists(pages: seq<Page>, n: nat) { exists i :: 0 <= i < |pages| && pages[i].no == n }

  predicate Wanted(sizes: map<nat, nat>, n: nat, from: Position)
    requires n in sizes
  {
    sizes[n] > 0 && !Before(Position(n, 0), from)
  }

  /** The pages of the listed segments, at or after a position. */
  function PagesOf(sizes: map<nat, nat>, names: seq<nat>, from: Position): seq<Page>
    requires forall n :: n in names ==> n in sizes
  {
    if names == [] then []
    else (if Wanted(sizes, names[0], from) then [Page(names[0], sizes[names[0]])] else []) + PagesOf(sizes, names[1..], from)
  }

  lemma {:induction false} PagesOfMembers(sizes: map<nat, nat>, names: seq<nat>, from: Position)
    requires forall n :: n in names ==> n in sizes
    ensures forall p :: p in PagesOf(sizes, names, from) <==> p.no in names && p.size == sizes[p.no] && Wanted(sizes, p.no, from)
  {
    if names != [] { PagesOfMembers(sizes, names[1..], from); }
  }

  lemma {:induction false} PagesOfSnoc(sizes: map<nat, nat>, names: seq<nat>, last: nat, from: Position)
    requires last in sizes && forall n :: n in names ==> n in sizes
    ensures PagesOf(sizes, names + [last], from)
         == PagesOf(sizes, names, from) + if Wanted(sizes, last, from) then [Page(last, sizes[last])] else []
  {
    if names == [] {
      assert names + [last] == [last] && [last][1..] == [];
    } else {
      assert (names + [last])[1..] == names[1..] + [last];
      PagesOfSnoc(sizes, names[1..], last, from);
    }
  }

  /** CollectPagesFrom, when nothing happens in between. */
  method CollectPagesFrom(sizes: map<nat, nat>, from: Position) returns (pages: seq<Page>, names: seq<nat>)
    requires forall n :: n in sizes ==> sizes[n] <= WAL_PAGE
    ensures Listing(names, sizes.Keys, WAL_SUFFIX) && pages == PagesOf(sizes, names, from)
    ensures forall p :: (p in pages <==> p.no in sizes && p.size == sizes[p.no] && p.size > 0
                                         && (p.no > from.segment || (p.no == from.segment && from.page == 0)))
  {
    hide Before, FileName, Less;
    var segments := SortedNumbers(sizes.Keys, WAL_SUFFIX);
    pages, names := [], segments;
    var i := 0;
    while i < |segments|
      invariant 0 <= i <= |segments|
      invariant forall n :: n in segments[..i] ==> n in sizes
      invariant pages == PagesOf(sizes, segments[..i], from)
    {
      var no := segments[i];
      assert no in segments && segments[..i + 1] == segments[..i] + [no];
      PagesOfSnoc(sizes, segments[..i], no, from);
      OldSegment(no, from);
      if no >= from.segment {
        if sizes[no] > 0 && !Before(Position(no, 0), from) { pages := pages + [Page(no, sizes[no])]; }
      }
      i := i + 1;
    }
    assert segments[..i] == segments;
    PagesOfMembers(sizes, names, from);
    forall n | n in sizes { WantedExactly(sizes, n, from); }
  }

  /** A segment has a page to send exactly when it is not empty and its page is not before the
      position. */
  lemma WantedExactly(sizes: map<nat, nat>, n: nat, from: Position)
    requires n in sizes
    ensures Wanted(sizes, n, from) <==> sizes[n] > 0 && (n > from.segment || (n == from.segment && from.page == 0))
  {}

  lemma OldSegment(no: nat, from: Position)
    ensures no < from.segment ==> Before(Position(no, 0), from)
  {}

  ghost predicate Enabled(s: State, step: Step) {
    match step
    case Grow(bytes) => s.active in s.sizes ==> s.sizes[s.active] + bytes <= WAL_PAGE
    case Roll => s.active in s.sizes ==> s.sizes[s.active] > 0
    case List(names) => s.phase.Ready? && InNameOrder(names, WAL_SUFFIX)
                        && forall n :: n in names <==> n in s.sizes && n >= s.next.segment
    case ReadNext => s.phase.Reading? && s.phase.names != []
    case Collect => s.phase.Reading? && s.phase.names == []
    case Send => s.phase.Sending? && s.phase.batch != []
    case Rest => s.phase.Sending? && s.phase.batch == []
    case CleanStart(retain) => retain <= s.needed.segment
    case CleanRemove(no) => s.retain.Some? && no < s.retain.value
  }

  /** One page of the pump loop. */
  function SendPage(s: State): State
    requires s.phase.Sending? && s.phase.batch != []
  {
    var p, rest := s.phase.batch[0], s.phase.batch[1..];
    if p.size == WAL_PAGE then
      var next := Position(p.no, 1);
      s.(next := next, needed := next, tailSent := None, sent := s.sent + [p.no], delivered := s.delivered + [p],
         phase := Sending(rest))
    else if Position(p.no, 0) == s.next && s.tailSent == Some(p.size) then s.(phase := Sending([]))
    else s.(next := Position(p.no, 0), tailSent := Some(p.size), delivered := s.delivered + [p], phase := Sending([]))
  }

  /** The whole for loop over one batch. */
  function SendBatch(s: State): State
    requires s.phase.Sending?
    decreases |s.phase.batch|
  {
    if s.phase.batch == [] then s else SendBatch(SendPage(s))
  }

  /** The first page that is not complete, or the number of pages. */
  function FirstShort(pages: seq<Page>): (n: nat)
    ensures n <= |pages| && (n < |pages| ==> pages[n].size != WAL_PAGE)
    ensures forall i :: 0 <= i < n ==> pages[i].size == WAL_PAGE
  {
    if pages == [] || pages[0].size != WAL_PAGE then 0 else 1 + FirstShort(pages[1..])
  }

  function Nos(pages: seq<Page>): (r: seq<nat>)
    ensures |r| == |pages| && forall i :: 0 <= i < |r| ==> r[i] == pages[i].no
  {
    seq(|pages|, i requires 0 <= i < |pages| => pages[i].no)
  }

  /** A tail counts as sent only when it was: it is the last page delivered. */
  predicate TailDelivered(next: Position, tailSent: Option<nat>, delivered: seq<Page>) {
    tailSent.Some? ==>
      next.page == 0 && tailSent.value != WAL_PAGE
      && delivered != [] && delivered[|delivered| - 1] == Page(next.segment, tailSent.value)
  }

  /** How many of the pages are delivered: up to and with the first short one, unless nothing was
      complete before it and it was sent already. */
  function Delivers(pages: seq<Page>, next: Position, tailSent: Option<nat>): (m: nat)
    ensures m <= |pages|
  {
    var n := FirstShort(pages);
    if n == |pages| || (n == 0 && next == Position(pages[0].no, 0) && tailSent == Some(pages[0].size)) then n else n + 1
  }

  lemma NothingSent(s: State)
    requires s.phase == Sending([])
    ensures SendBatch(s) == s
  {}

  lemma FirstShortTail(pages: seq<Page>)
    requires pages != [] && pages[0].size == WAL_PAGE
    ensures FirstShort(pages) == 1 + FirstShort(pages[1..])
  {}

  /** What sending a batch does to the positions and the registry. */
  lemma {:induction false} BatchMoves(s: State)
    requires s.phase.Sending?
    ensures var pages, t := s.phase.batch, SendBatch(s);
            var n := FirstShort(pages);
            && t.needed == (if n == 0 then s.needed else Position(pages[n - 1].no, 1))
            && (n < |pages| ==> t.next == Position(pages[n].no, 0) && t.tailSent == Some(pages[n].size))
            && (0 < n == |pages| ==> t.next == Position(pages[n - 1].no, 1) && t.tailSent == None)
            && (pages == [] ==> t.next == s.next && t.tailSent == s.tailSent)
    decreases |s.phase.batch|
  {
    var pages := s.phase.batch;
    if pages != [] {
      if pages[0].size != WAL_PAGE {
        NothingSent(SendPage(s));
      } else {
        FirstShortTail(pages);
        hide FirstShort;
        BatchMoves(SendPage(s));
        assert forall i :: 0 <= i < |pages[1..]| ==> pages[1..][i] == pages[i + 1];
      }
    }
  }

  lemma DeliversTail(pages: seq<Page>, next: Position, tailSent: Option<nat>, after: Position)
    requires pages != [] && pages[0].size == WAL_PAGE
    ensures Delivers(pages, next, tailSent) == 1 + Delivers(pages[1..], after, None)
  {
    FirstShortTail(pages);
    hide FirstShort;
  }

  lemma TakeMore(pages: seq<Page>, n: nat)
    requires pages != [] && n < |pages|
    ensures pages[..n + 1] == [pages[0]] + pages[1..][..n]
    ensures Nos(pages[..n + 1]) == [pages[0].no] + Nos(pages[1..][..n])
  {
    var all, rest := pages[..n + 1], pages[1..][..n];
    assert all == [pages[0]] + rest;
    assert |Nos(all)| == 1 + |Nos(rest)|;
    forall i | 0 <= i < |all| ensures Nos(all)[i] == ([pages[0].no] + Nos(rest))[i] {}
  }

  lemma ShortFirst(pages: seq<Page>, next: Position, tailSent: Option<nat>)
    requires pages == [] || pages[0].size != WAL_PAGE
    ensures Nos(pages[..FirstShort(pages)]) == []
    ensures var again := pages != [] && next == Position(pages[0].no, 0) && tailSent == Some(pages[0].size);
            pages[..Delivers(pages, next, tailSent)] == if pages == [] || again then [] else [pages[0]]
  {}

  lemma Regroup<T>(a: seq<T>, x: T, b: seq<T>)
    ensures a + [x] + b == a + ([x] + b)
  {}

  /** Which pages of a batch are delivered, and which of them are complete. */
  lemma {:induction false} BatchDelivers(s: State)
    requires s.phase.Sending?
    ensures var pages, t := s.phase.batch, SendBatch(s);
            && t.sent == s.sent + Nos(pages[..FirstShort(pages)])
            && t.delivered == s.delivered + pages[..Delivers(pages, s.next, s.tailSent)]
    decreases |s.phase.batch|
  {
    hide FirstShort, Delivers, Nos;
    var pages := s.phase.batch;
    if pages == [] || pages[0].size != WAL_PAGE {
      if pages != [] { NothingSent(SendPage(s)); }
      ShortFirst(pages, s.next, s.tailSent);
    } else {
      var t := SendPage(s);
      var n, m := FirstShort(pages[1..]), Delivers(pages[1..], t.next, t.tailSent);
      BatchDelivers(t);
      FirstShortTail(pages);
      DeliversTail(pages, s.next, s.tailSent, t.next);
      TakeMore(pages, n);
      TakeMore(pages, m);
      Regroup(s.sent, pages[0].no, Nos(pages[1..][..n]));
      Regroup(s.delivered, pages[0], pages[1..][..m]);
    }
  }

  /** What sending the pages of a poll amounts to: the complete pages before the first short one are
      sent and the registry follows them; the short one is delivered unless it was before, and is
      asked for again. */
  ghost predicate PollSent(s: State, pages: seq<Page>, t: State) {
    var n := FirstShort(pages);
    && t.sent == s.sent + Nos(pages[..n])
    && t.delivered == s.delivered + pages[..Delivers(pages, s.next, s.tailSent)]
    && t.needed == (if n == 0 then s.needed else Position(pages[n - 1].no, 1))
    && (n < |pages| ==> t.next == Position(pages[n].no, 0) && t.tailSent == Some(pages[n].size))
    && (n < |pages| ==> t.delivered != [] && t.delivered[|t.delivered| - 1] == pages[n])
    && (0 < n == |pages| ==> t.next == Position(pages[n - 1].no, 1) && t.tailSent == None)
    && (pages == [] ==> t.next == s.next && t.tailSent == s.tailSent)
  }

  lemma BatchSends(s: State)
    requires s.phase.Sending? && TailDelivered(s.next, s.tailSent, s.delivered)
    ensures PollSent(s, s.phase.batch, SendBatch(s))
    ensures var t := SendBatch(s); TailDelivered(t.next, t.tailSent, t.delivered)
  {
    BatchMoves(s);
    BatchDelivers(s);
    hide SendBatch;
    assert s.phase.batch[..0] == [];
  }

  /** GetEventsReactor: the fields that Pump updates, with the registry entry of its token. */
  class Pump {
    var nextPos: Position
    var tailSentSize: Option<nat>
    var registered: Position
    var sent: seq<nat>
    var delivered: seq<Page>

    ghost predicate Valid()
      reads this
    {
      TailDelivered(nextPos, tailSentSize, delivered)
    }

    constructor (from: Position)
      ensures Valid() && nextPos == from && registered == from && tailSentSize == None && sent == [] && delivered == []
    {
      nextPos, registered, tailSentSize, sent, delivered := from, from, None, [], [];
    }

    ghost function Within(s: State, batch: seq<Page>): State
      reads this
    {
      s.(next := nextPos, tailSent := tailSentSize, needed := registered, sent := sent, delivered := delivered,
         phase := Sending(batch))
    }

    /** Sends the pages of one poll up to and with the first that is still growing, unless that was
        sent before with the same size. The registry follows the complete pages; a growing page
        is asked for again, and it is the last page delivered. */
    method SendPages(pages: seq<Page>, ghost s: State)
      requires Valid() && Within(s, pages) == s
      modifies this
      ensures Valid() && Within(s, []) == SendBatch(s)
      ensures PollSent(s, pages, Within(s, []))
    {
      hide PollSent;
      BatchSends(s);
      var i := 0;
      assert pages[0..] == pages;
      while i < |pages|
        invariant 0 <= i <= |pages| && SendBatch(Within(s, pages[i..])) == SendBatch(s)
      {
        var page := pages[i];
        assert pages[i..][0] == page && pages[i..][1..] == pages[i + 1..];
        var completed := page.size == WAL_PAGE;
        if !completed && Position(page.no, 0) == nextPos && tailSentSize == Some(page.size) {
          return;
        }
        if completed {
          nextPos := Position(page.no, 1);
          registered := nextPos;
          tailSentSize := None;
          sent := sent + [page.no];
          delivered := delivered + [page];
        } else {
          nextPos := Position(page.no, 0);
          tailSentSize := Some(page.size);
          delivered := delivered + [page];
          return;
        }
        i := i + 1;
      }
    }
  }

  /** Reading a segment that is gone by now is an exception, and the poll returns nothing. */
  ghost function ReadPageOf(s: State): Phase
    requires s.phase.Reading? && s.phase.names != []
  {
    var n := s.phase.names[0];
    if n !in s.sizes then Sending([])
    else
      var pages := if Wanted(s.sizes, n, s.next) then [Page(n, s.sizes[n])] else [];
      Reading(s.phase.names[1..], s.phase.pages + pages, s.phase.hi)
  }

  ghost function Apply(s: State, step: Step): State
    requires Enabled(s, step)
  {
    match step
    case Grow(bytes) => if s.active in s.sizes then s.(sizes := s.sizes[s.active := s.sizes[s.active] + bytes]) else s
    case Roll =>
      var padded := if s.active in s.sizes then s.sizes[s.active := WAL_PAGE] else s.sizes;
      s.(sizes := padded[s.active + 1 := 0], active := s.active + 1)
    case List(names) => s.(phase := Reading(names, [], if names == [] then 0 else names[|names| - 1] + 1))
    case ReadNext => s.(phase := ReadPageOf(s))
    case Collect => s.(phase := Sending(s.phase.pages))
    case Send => SendPage(s)
    case Rest => s.(phase := Ready)
    case CleanStart(retain) => s.(retain := Some(retain))
    case CleanRemove(no) => s.(sizes := s.sizes - {no})
  }

  // ----- what every step keeps; `gone` are the segments that were missing at the start

  /** Everything before this segment has been sent or was missing from the start. */
  function Due(s: State): nat { if s.next.page == 0 then s.next.segment else s.next.segment + 1 }

  ghost predicate StreamOk(s: State, from: nat, gone: set<nat>) {
    && s.next.page <= 1 && from <= Due(s) && FileNames.Ascending(s.sent)
    && (forall n :: n in s.sent <==> from <= n < Due(s) && n !in gone)
    && s.needed.segment <= Due(s) && (s.retain.Some? ==> s.retain.value <= s.needed.segment)
  }

  /** Only the segment being written may be short: no segment is left from an earlier life. */
  ghost predicate OneLife(sizes: map<nat, nat>, active: nat) {
    forall n :: n in sizes ==> n <= active && sizes[n] <= WAL_PAGE && (n < active ==> sizes[n] == WAL_PAGE)
  }

  /** Nothing from the needed segment on goes missing. */
  ghost predicate LeaderOk(s: State, gone: set<nat>) {
    && OneLife(s.sizes, s.active)
    && (forall n :: s.needed.segment <= n <= s.active && n !in gone ==> n in s.sizes)
    && (forall n :: n in gone ==> n <= s.active && n !in s.sizes)
  }

  ghost predicate PagesOk(pages: seq<Page>, due: nat, gone: set<nat>) {
    && (forall i, j :: 0 <= i < j < |pages| ==> pages[i].no < pages[j].no)
    && (forall i :: 0 <= i < |pages| ==> pages[i].no >= due && pages[i].no !in gone && 0 < pages[i].size <= WAL_PAGE)
  }

  ghost predicate ReadingOk(s: State, names: seq<nat>, pages: seq<Page>, hi: nat, gone: set<nat>) {
    && hi <= s.active + 1 && FileNames.Ascending(names) && (forall n :: n in names ==> n < hi)
    && PagesOk(pages, Due(s), gone)
    && (forall i :: 0 <= i < |pages| ==> pages[i].no < hi && (pages[i].size < WAL_PAGE ==> pages[i].no == hi - 1))
    && (forall i, n :: 0 <= i < |pages| && n in names ==> pages[i].no < n)
    && (forall n :: Due(s) <= n < hi - 1 && n !in gone ==> n in names || Lists(pages, n))
  }

  ghost predicate SendingOk(s: State, batch: seq<Page>, gone: set<nat>) {
    && PagesOk(batch, Due(s), gone)
    && (forall i :: 0 <= i < |batch| - 1 ==> batch[i].size == WAL_PAGE)
    && (batch != [] ==> forall n :: Due(s) <= n <= batch[|batch| - 1].no && n !in gone ==> Lists(batch, n))
  }

  ghost predicate PhaseOk(s: State, gone: set<nat>) {
    match s.phase
    case Ready => true
    case Reading(names, pages, hi) => ReadingOk(s, names, pages, hi, gone)
    case Sending(batch) => SendingOk(s, batch, gone)
  }

  ghost predicate Inv(s: State, from: nat, gone: set<nat>) { StreamOk(s, from, gone) && LeaderOk(s, gone) && PhaseOk(s, gone) }

  lemma ListKeeps(s: State, from: nat, gone: set<nat>, names: seq<nat>)
    requires Inv(s, from, gone) && Enabled(s, List(names)) && s.active < 10000
    ensures Inv(Apply(s, List(names)), from, gone)
  {
    hide FileName, Less;
    ListingAscends(names, (set n | n in names), WAL_SUFFIX);
    if names != [] {
      var last := names[|names| - 1];
      assert last in names;
      forall n | n in names ensures n < last + 1 {
        var i :| 0 <= i < |names| && names[i] == n;
      }
    }
  }

  lemma ReadCovers(s: State, gone: set<nat>)
    requires Enabled(s, ReadNext) && PhaseOk(s, gone) && s.phase.names[0] in s.sizes && LeaderOk(s, gone)
    ensures var t := ReadPageOf(s);
            forall m :: Due(s) <= m < s.phase.hi - 1 && m !in gone ==> m in t.names || Lists(t.pages, m)
  {
    hide PagesOk, FileNames.Ascending;
    var Reading(names, pages, hi) := s.phase;
    var n, more := names[0], ReadPageOf(s).pages;
    forall m | Due(s) <= m < hi - 1 && m !in gone ensures m in names[1..] || Lists(more, m) {
      if Lists(pages, m) {
        var i :| 0 <= i < |pages| && pages[i].no == m;
        assert more[i].no == m;
      } else if m == n {
        assert s.sizes[n] == WAL_PAGE;
        assert more[|pages|].no == n;
      } else {
        assert m in names;
      }
    }
  }

  lemma ReadOrders(s: State, gone: set<nat>)
    requires Enabled(s, ReadNext) && PhaseOk(s, gone) && s.phase.names[0] in s.sizes && LeaderOk(s, gone)
    requires s.next.page <= 1
    ensures var t := ReadPageOf(s);
            && FileNames.Ascending(t.names) && (forall n :: n in t.names ==> n in s.phase.names && s.phase.names[0] < n)
            && PagesOk(t.pages, Due(s), gone)
            && (forall i :: 0 <= i < |t.pages| ==> t.pages[i] in s.phase.pages || t.pages[i].no == s.phase.names[0])
            && (forall i :: 0 <= i < |t.pages| ==>
                  t.pages[i].no < t.hi && (t.pages[i].size < WAL_PAGE ==> t.pages[i].no == t.hi - 1))
  {
    hide Lists;
    var names, n := s.phase.names, s.phase.names[0];
    assert n in names;
    forall m | m in names[1..] ensures m in names && n < m {
      var i :| 0 <= i < |names[1..]| && names[1..][i] == m;
      assert names[i + 1] == m;
    }
  }

  lemma ReadKeeps(s: State, from: nat, gone: set<nat>)
    requires Inv(s, from, gone) && Enabled(s, ReadNext)
    ensures Inv(Apply(s, ReadNext), from, gone)
    ensures var n, pages := s.phase.names[0], s.phase.pages;
            if n !in s.sizes then Apply(s, ReadNext).phase == Sending([])
            else if s.sizes[n] > 0 && (n > s.next.segment || (n == s.next.segment && s.next.page == 0)) then
              Apply(s, ReadNext).phase.pages == pages + [Page(n, s.sizes[n])]
            else Apply(s, ReadNext).phase.pages == pages
  {
    hide PagesOk, FileNames.Ascending, Lists, OneLife, Wanted;
    if s.phase.names[0] in s.sizes {
      WantedExactly(s.sizes, s.phase.names[0], s.next);
      ReadCovers(s, gone);
      ReadOrders(s, gone);
      var t := ReadPageOf(s);
      assert s.phase.names[0] in s.phase.names;
      forall i, m | 0 <= i < |t.pages| && m in t.names ensures t.pages[i].no < m {
        if t.pages[i] in s.phase.pages { var k :| 0 <= k < |s.phase.pages| && s.phase.pages[k] == t.pages[i]; }
      }
      assert ReadingOk(s.(phase := t), t.names, t.pages, t.hi, gone);
    } else {
      NothingToSend(s.(phase := Sending([])), gone);
    }
  }

  lemma NothingToSend(s: State, gone: set<nat>)
    ensures SendingOk(s, [], gone)
  {}

  lemma CollectKeeps(s: State, from: nat, gone: set<nat>)
    requires Inv(s, from, gone) && Enabled(s, Collect)
    ensures Inv(Apply(s, Collect), from, gone)
  {
    var pages, hi := s.phase.pages, s.phase.hi;
    forall i | 0 <= i < |pages| - 1 ensures pages[i].size == WAL_PAGE {
      assert pages[i].no < pages[|pages| - 1].no;
    }
    if pages != [] {
      var last := pages[|pages| - 1].no;
      forall n | Due(s) <= n <= last && n !in gone ensures Lists(pages, n) {
        if n == last { assert pages[|pages| - 1].no == n; }
      }
    }
  }

  lemma SendKeeps(s: State, from: nat, gone: set<nat>)
    requires Inv(s, from, gone) && Enabled(s, Send)
    ensures Inv(SendPage(s), from, gone)
  {
    var batch := s.phase.batch;
    var p, rest, t := batch[0], batch[1..], SendPage(s);
    SkippedWereGone(s, gone);
    AscendingSnoc(s.sent, p.no);
    if p.size == WAL_PAGE {
      assert forall i :: 0 <= i < |rest| ==> rest[i] == batch[i + 1];
      if rest != [] {
        forall n | p.no + 1 <= n <= rest[|rest| - 1].no && n !in gone ensures Lists(rest, n) {
          assert Lists(batch, n);
          var i :| 0 <= i < |batch| && batch[i].no == n;
          assert rest[i - 1].no == n;
        }
      }
    }
  }

  /** Between what is due and the next page of the batch nothing was there to send. */
  lemma SkippedWereGone(s: State, gone: set<nat>)
    requires s.phase.Sending? && s.phase.batch != [] && SendingOk(s, s.phase.batch, gone)
    ensures forall n :: Due(s) <= n < s.phase.batch[0].no ==> n in gone
  {
    var batch := s.phase.batch;
    assert batch[0].no <= batch[|batch| - 1].no;
    forall n | Due(s) <= n < batch[0].no ensures n in gone || Lists(batch, n) {}
  }

  lemma StepKeeps(s: State, from: nat, gone: set<nat>, step: Step)
    requires Inv(s, from, gone) && Enabled(s, step) && s.active < 10000
    ensures Inv(Apply(s, step), from, gone)
  {
    match step
    case List(names) => ListKeeps(s, from, gone, names);
    case ReadNext => ReadKeeps(s, from, gone);
    case Collect => CollectKeeps(s, from, gone);
    case Send => SendKeeps(s, from, gone);
    case _ => OtherKeeps(s, from, gone, step);
  }

  lemma OtherKeeps(s: State, from: nat, gone: set<nat>, step: Step)
    requires Inv(s, from, gone) && Enabled(s, step)
    requires !step.List? && !step.ReadNext? && !step.Collect? && !step.Send?
    ensures Inv(Apply(s, step), from, gone)
  {
    hide PagesOk, Lists, FileNames.Ascending;
  }

  ghost predicate Run(s: State, steps: seq<Step>, end: State)
    decreases |steps|
  {
    if steps == [] then s == end else Enabled(s, steps[0]) && Run(Apply(s, steps[0]), steps[1..], end)
  }

  lemma {:induction false} ActiveGrows(s: State, steps: seq<Step>, end: State)
    requires Run(s, steps, end)
    ensures s.active <= end.active
    decreases |steps|
  {
    hide Enabled;
    if steps != [] { ActiveGrows(Apply(s, steps[0]), steps[1..], end); }
  }

  lemma {:induction false} RunKeeps(s: State, from: nat, gone: set<nat>, steps: seq<Step>, end: State)
    requires Inv(s, from, gone) && Run(s, steps, end) && end.active < 10000
    ensures Inv(end, from, gone)
    decreases |steps|
  {
    ActiveGrows(s, steps, end);
    hide Inv, Apply, Enabled;
    if steps != [] {
      StepKeeps(s, from, gone, steps[0]);
      RunKeeps(Apply(s, steps[0]), from, gone, steps[1..], end);
    }
  }

  /** A follower attaches, whatever the cleaner has removed before. */
  function Attach(sizes: map<nat, nat>, active: nat, from: nat): State {
    State(sizes, active, Position(from, 0), None, Ready, [], [], Position(from, 0), None)
  }

  /** The segments that the follower still wants and that are missing when it attaches. */
  function Gone(sizes: map<nat, nat>, active: nat, from: nat): (gone: set<nat>)
    ensures forall n :: n in gone <==> from <= n <= active && n !in sizes
  {
    set n | from <= n <= active && n !in sizes
  }

  lemma AttachOk(sizes: map<nat, nat>, active: nat, from: nat)
    requires OneLife(sizes, active)
    ensures Inv(Attach(sizes, active, from), from, Gone(sizes, active, from))
  {}

  /** On one leader life, with any segments missing at the start: the complete segments sent
      ascend, each is sent once, none that was there or was written later is skipped, and every
      one not yet sent is still in the directory whatever the cleaner does. */
  lemma EveryStream(sizes: map<nat, nat>, active: nat, from: nat, steps: seq<Step>, end: State)
    requires OneLife(sizes, active) && Run(Attach(sizes, active, from), steps, end) && end.active < 10000
    ensures FileNames.Ascending(end.sent) && forall n :: n in end.sent ==> n >= from
    ensures forall n, m :: m in end.sent && from <= n < m ==> (n in end.sent <==> n !in Gone(sizes, active, from))
    ensures forall n :: from <= n <= end.active && n !in end.sent && n !in Gone(sizes, active, from) ==> n in end.sizes
  {
    hide Run, PhaseOk;
    AttachOk(sizes, active, from);
    RunKeeps(Attach(sizes, active, from), from, Gone(sizes, active, from), steps, end);
  }

  // ----- what is delivered

  /** The complete segments among the pages. */
  function Complete(pages: seq<Page>): seq<nat> {
    if pages == [] then []
    else
      var front, p := Complete(pages[..|pages| - 1]), pages[|pages| - 1];
      if p.size == WAL_PAGE then front + [p.no] else front
  }

  lemma CompleteSnoc(pages: seq<Page>, p: Page)
    ensures Complete(pages + [p]) == Complete(pages) + if p.size == WAL_PAGE then [p.no] else []
  {
    assert (pages + [p])[..|pages|] == pages;
  }

  lemma {:induction false} DeliveredKeeps(s: State, steps: seq<Step>, end: State)
    requires s.sent == Complete(s.delivered) && Run(s, steps, end)
    ensures end.sent == Complete(end.delivered)
    decreases |steps|
  {
    hide Complete;
    if steps != [] {
      if steps[0].Send? { CompleteSnoc(s.delivered, s.phase.batch[0]); }
      DeliveredKeeps(Apply(s, steps[0]), steps[1..], end);
    }
  }

  /** The tail that counts as sent is the last page delivered. */
  lemma {:induction false} TailKeeps(s: State, steps: seq<Step>, end: State)
    requires TailDelivered(s.next, s.tailSent, s.delivered) && Run(s, steps, end)
    ensures TailDelivered(end.next, end.tailSent, end.delivered)
    decreases |steps|
  {
    if steps != [] { TailKeeps(Apply(s, steps[0]), steps[1..], end); }
  }

  /** A poll whose last page is still growing ends with that page delivered. */
  lemma BatchEndsInTail(s: State, gone: set<nat>)
    requires s.phase.Sending? && SendingOk(s, s.phase.batch, gone) && TailDelivered(s.next, s.tailSent, s.delivered)
    requires var batch := s.phase.batch; batch != [] && batch[|batch| - 1].size < WAL_PAGE
    ensures var last, done := s.phase.batch[|s.phase.batch| - 1], SendBatch(s).delivered;
            done != [] && done[|done| - 1] == last
  {
    hide SendBatch;
    BatchSends(s);
    assert FirstShort(s.phase.batch) == |s.phase.batch| - 1;
  }

  /** In every run on one leader life: a tail that counts as sent is the last page delivered, and
      once a poll with a growing last page is sent, that page is. */
  lemma EveryTail(sizes: map<nat, nat>, active: nat, from: nat, steps: seq<Step>, end: State)
    requires OneLife(sizes, active) && Run(Attach(sizes, active, from), steps, end) && end.active < 10000
    ensures end.tailSent.Some? ==>
              end.delivered != [] && end.delivered[|end.delivered| - 1] == Page(end.next.segment, end.tailSent.value)
    ensures end.phase.Sending? && end.phase.batch != [] && end.phase.batch[|end.phase.batch| - 1].size < WAL_PAGE ==>
              var done := SendBatch(end).delivered;
              done != [] && done[|done| - 1] == end.phase.batch[|end.phase.batch| - 1]
  {
    hide Run, SendingOk, SendBatch;
    AttachOk(sizes, active, from);
    RunKeeps(Attach(sizes, active, from), from, Gone(sizes, active, from), steps, end);
    TailKeeps(Attach(sizes, active, from), steps, end);
    if end.phase.Sending? && end.phase.batch != [] && end.phase.batch[|end.phase.batch| - 1].size < WAL_PAGE {
      BatchEndsInTail(end, Gone(sizes, active, from));
    }
  }

  // ----- when the stream is consecutive

  lemma {:induction false} RunConcat(s: State, a: seq<Step>, mid: State, b: seq<Step>, end: State)
    requires Run(s, a, mid) && Run(mid, b, end)
    ensures Run(s, a + b, end)
    decreases |a|
  {
    hide Enabled, Apply;
    if a == [] {
      assert a + b == b;
    } else {
      assert (a + b)[0] == a[0] && (a + b)[1..] == a[1..] + b;
      RunConcat(Apply(s, a[0]), a[1..], mid, b, end);
    }
  }

  lemma OneStep(s: State, step: Step)
    requires Enabled(s, step)
    ensures Run(s, [step], Apply(s, step))
  {
    assert [step][1..] == [];
  }

  /** Reading without interruption returns the pages of the listed segments. */
  lemma {:induction false} ReadAll(s: State) returns (steps: seq<Step>, end: State)
    requires s.phase.Reading? && forall n :: n in s.phase.names ==> n in s.sizes
    ensures Run(s, steps, end)
    ensures end == s.(phase := Sending(s.phase.pages + PagesOf(s.sizes, s.phase.names, s.next)))
    decreases |s.phase.names|
  {
    hide Run, Wanted;
    if s.phase.names == [] {
      OneStep(s, Collect);
      steps, end := [Collect], Apply(s, Collect);
      assert s.phase.pages + [] == s.phase.pages;
    } else {
      var t := Apply(s, ReadNext);
      var rest;
      rest, end := ReadAll(t);
      OneStep(s, ReadNext);
      RunConcat(s, [ReadNext], t, rest, end);
      steps := [ReadNext] + rest;
      var n := s.phase.names[0];
      var first := if Wanted(s.sizes, n, s.next) then [Page(n, s.sizes[n])] else [];
      assert (s.phase.pages + first) + PagesOf(s.sizes, s.phase.names[1..], s.next)
          == s.phase.pages + (first + PagesOf(s.sizes, s.phase.names[1..], s.next));
    }
  }

  /** A batch of complete pages is sent to its end. */
  lemma {:induction false} SendAll(s: State) returns (steps: seq<Step>, end: State)
    requires s.phase.Sending? && forall p :: p in s.phase.batch ==> p.size == WAL_PAGE
    ensures Run(s, steps, end) && end.active == s.active
    ensures forall n :: n in s.sent || Lists(s.phase.batch, n) ==> n in end.sent
    decreases |s.phase.batch|
  {
    if s.phase.batch == [] {
      steps, end := [], s;
    } else {
      var batch, t := s.phase.batch, Apply(s, Send);
      var rest;
      assert batch[0] in batch && t.sent == s.sent + [batch[0].no];
      rest, end := SendAll(t);
      OneStep(s, Send);
      RunConcat(s, [Send], t, rest, end);
      steps := [Send] + rest;
      forall n | Lists(batch, n) ensures n in end.sent {
        var i :| 0 <= i < |batch| && batch[i].no == n;
        if i > 0 { assert t.phase.batch[i - 1].no == n; } else { assert n in t.sent; }
      }
    }
  }

  /** The directory after the leader has filled its segment and one more. */
  function Filled(s: State): State {
    var padded := if s.active in s.sizes then s.sizes[s.active := WAL_PAGE] else s.sizes;
    s.(sizes := padded[s.active + 1 := WAL_PAGE][s.active + 2 := 0], active := s.active + 2)
  }

  /** The leader writes something and then fills its segment. */
  lemma FillOne(s: State) returns (steps: seq<Step>, end: State)
    ensures Run(s, steps, end) && end.active == s.active + 1
    ensures var padded := if s.active in s.sizes then s.sizes[s.active := WAL_PAGE] else s.sizes;
            end == s.(sizes := padded[s.active + 1 := 0], active := s.active + 1)
  {
    hide Run;
    if s.active in s.sizes && s.sizes[s.active] == 0 {
      var t := Apply(s, Grow(1));
      end := Apply(t, Roll);
      assert t.sizes[t.active := WAL_PAGE] == s.sizes[s.active := WAL_PAGE];
      OneStep(s, Grow(1));
      OneStep(t, Roll);
      RunConcat(s, [Grow(1)], t, [Roll], end);
      steps := [Grow(1)] + [Roll];
    } else {
      OneStep(s, Roll);
      steps, end := [Roll], Apply(s, Roll);
    }
  }

  lemma FillTwo(s: State) returns (steps: seq<Step>)
    ensures Run(s, steps, Filled(s))
  {
    hide Run;
    var a, t := FillOne(s);
    var b, u := FillOne(t);
    assert u.sizes == Filled(s).sizes;
    RunConcat(s, a, t, b, u);
    steps := a + b;
  }

  lemma ListExists(s: State) returns (names: seq<nat>)
    requires s.phase.Ready? && s.active < 10000 && forall n :: n in s.sizes ==> n <= s.active
    ensures Enabled(s, List(names))
  {
    hide FileName, Less;
    names := Below((set n | n in s.sizes && n >= s.next.segment), s.active + 1);
    AscendingLists(names, WAL_SUFFIX);
  }

  /** A run in which the segment after the active one is sent complete. */
  lemma SendsLater(sizes: map<nat, nat>, active: nat, from: nat) returns (steps: seq<Step>, end: State)
    requires OneLife(sizes, active) && from <= active && active + 2 < 10000
    ensures Run(Attach(sizes, active, from), steps, end) && end.active == active + 2 && active + 1 in end.sent
  {
    hide Run, InNameOrder, Wanted, Before;
    var s0 := Attach(sizes, active, from);
    var s1 := Filled(s0);
    var fills := FillTwo(s0);
    var names := ListExists(s1);
    var s2 := Apply(s1, List(names));
    OneStep(s1, List(names));
    RunConcat(s0, fills, s1, [List(names)], s2);
    var scan, s3 := ReadAll(s2);
    RunConcat(s0, fills + [List(names)], s2, scan, s3);
    var pages := PagesOf(s2.sizes, names, s2.next);
    assert s3.phase.batch == [] + pages == pages;
    CompletePages(s2.sizes, names, s2.next, active);
    var sends, s4 := SendAll(s3);
    RunConcat(s0, fills + [List(names)] + scan, s3, sends, s4);
    steps, end := fills + [List(names)] + scan + sends, s4;
  }

  lemma CompletePages(sizes: map<nat, nat>, names: seq<nat>, from: Position, active: nat)
    requires OneLife(sizes, active + 2) && active + 2 in sizes && sizes[active + 2] == 0
    requires active + 1 in names && (forall n :: n in names ==> n in sizes) && from.page == 0 && from.segment <= active
    ensures forall p :: p in PagesOf(sizes, names, from) ==> p.size == WAL_PAGE
    ensures Lists(PagesOf(sizes, names, from), active + 1)
  {
    PagesOfMembers(sizes, names, from);
    assert Page(active + 1, WAL_PAGE) in PagesOf(sizes, names, from);
    ListsMember(PagesOf(sizes, names, from), Page(active + 1, WAL_PAGE));
  }

  lemma ListsMember(pages: seq<Page>, p: Page)
    requires p in pages
    ensures Lists(pages, p.no)
  {
    var i :| 0 <= i < |pages| && pages[i] == p;
  }

  ghost predicate ConsecutiveIn(sizes: map<nat, nat>, active: nat, from: nat, steps: seq<Step>, end: State) {
    Run(Attach(sizes, active, from), steps, end) && end.active < 10000 ==> end.sent == Numbers(from, |end.sent|)
  }

  /** A segment missing when the follower attaches is skipped for good: some run sends a later one
      without it. */
  lemma HoleIsSkipped(sizes: map<nat, nat>, active: nat, from: nat, hole: nat) returns (steps: seq<Step>, end: State)
    requires OneLife(sizes, active) && active + 2 < 10000 && from <= hole <= active && hole !in sizes
    ensures Run(Attach(sizes, active, from), steps, end) && end.active < 10000
    ensures hole !in end.sent && active + 1 in end.sent && end.sent != Numbers(from, |end.sent|)
  {
    steps, end := SendsLater(sizes, active, from);
    EveryStream(sizes, active, from, steps, end);
    NumbersHaveNoHole(end.sent, from, hole, active + 1);
  }

  lemma NumbersHaveNoHole(s: seq<nat>, from: nat, n: nat, m: nat)
    requires from <= n <= m && m in s
    ensures s == Numbers(from, |s|) ==> n in s
  {
    if s == Numbers(from, |s|) {
      var i :| 0 <= i < |s| && s[i] == m;
      assert s[n - from] == n;
    }
  }

  ghost predicate Unbroken(sent: seq<nat>, from: nat) {
    && FileNames.Ascending(sent) && (forall n :: n in sent ==> n >= from)
    && forall n, m :: m in sent && from <= n < m ==> n in sent
  }

  lemma {:induction false} SentAt(sent: seq<nat>, from: nat, i: nat)
    requires Unbroken(sent, from) && i < |sent|
    ensures sent[i] == from + i
  {
    assert sent[i] in sent;
    if i > 0 { SentAt(sent, from, i - 1); }
    assert from + i < sent[i] ==> from + i in sent;
  }

  lemma SentIsConsecutive(sent: seq<nat>, from: nat)
    requires Unbroken(sent, from)
    ensures sent == Numbers(from, |sent|)
  {
    hide Unbroken;
    forall i | 0 <= i < |sent| ensures sent[i] == from + i { SentAt(sent, from, i); }
  }

  /** Every run of a stream sends consecutive segments if and only if no segment from the follower's
      position to the active one is missing when it attaches. */
  lemma ConsecutiveExactly(sizes: map<nat, nat>, active: nat, from: nat)
    requires OneLife(sizes, active) && active + 2 < 10000
    ensures (forall steps, end :: ConsecutiveIn(sizes, active, from, steps, end))
            <==> (forall n :: from <= n <= active ==> n in sizes)
  {
    if hole :| from <= hole <= active && hole !in sizes {
      var steps, end := HoleIsSkipped(sizes, active, from, hole);
      assert !ConsecutiveIn(sizes, active, from, steps, end);
    } else {
      forall steps, end ensures ConsecutiveIn(sizes, active, from, steps, end) {
        if Run(Attach(sizes, active, from), steps, end) && end.active < 10000 {
          EveryStream(sizes, active, from, steps, end);
          SentIsConsecutive(end.sent, from);
        }
      }
    }
  }

  /** Without holes the tail that counts as sent is that of the segment after the last one sent. */
  lemma TailFollows(sizes: map<nat, nat>, active: nat, from: nat, steps: seq<Step>, end: State)
    requires OneLife(sizes, active) && Run(Attach(sizes, active, from), steps, end) && end.active < 10000
    requires forall n :: from <= n <= active ==> n in sizes
    ensures end.sent == Numbers(from, |end.sent|)
    ensures end.tailSent.Some? ==> end.next == Position(from + |end.sent|, 0) && end.tailSent.value != WAL_PAGE
  {
    hide Run, PhaseOk;
    AttachOk(sizes, active, from);
    RunKeeps(Attach(sizes, active, from), from, Gone(sizes, active, from), steps, end);
    TailKeeps(Attach(sizes, active, from), steps, end);
    assert Gone(sizes, active, from) == {};
    SentIsConsecutive(end.sent, from);
    if end.tailSent.Some? {
      var due := end.next.segment;
      assert due > from ==> due - 1 in end.sent;
      assert |end.sent| > 0 ==> end.sent[|end.sent| - 1] in end.sent;
    }
  }

  // ----- a short segment in the middle of the log

  /** The pump at a segment that is short and will not grow: it is the first one left. */
  ghost predicate AtShort(s: State, no: nat, size: nat) {
    && no in s.sizes && s.sizes[no] == size && 0 < size < WAL_PAGE && s.active > no
    && (forall n :: n in s.sizes ==> n <= s.active)
    && s.next == Position(no, 0) && s.needed.segment <= no
    && (s.retain.Some? ==> s.retain.value <= s.needed.segment)
    && (s.phase.Reading? ==>
          if s.phase.pages == [] then s.phase.names != [] && s.phase.names[0] == no else s.phase.pages[0] == Page(no, size))
    && (s.phase.Sending? && s.phase.batch != [] ==> s.phase.batch[0] == Page(no, size))
  }

  lemma ShortStep(s: State, no: nat, size: nat, step: Step)
    requires AtShort(s, no, size) && Enabled(s, step) && s.active < 10000
    ensures AtShort(Apply(s, step), no, size) && Apply(s, step).sent == s.sent
  {
    hide FileName, Less;
    if step.List? {
      ListingAscends(step.names, (set n | n in step.names), WAL_SUFFIX);
      assert no in step.names;
      var i :| 0 <= i < |step.names| && step.names[i] == no;
      assert step.names[0] in step.names;
    }
  }

  /** A restarted leader leaves its last segment short and writes on in the next one. A
      stream that reaches such a segment never sends another complete segment. */
  lemma {:induction false} ShortSegmentBlocks(s: State, no: nat, size: nat, steps: seq<Step>, end: State)
    requires AtShort(s, no, size) && Run(s, steps, end) && end.active < 10000
    ensures AtShort(end, no, size) && end.sent == s.sent
    decreases |steps|
  {
    ActiveGrows(s, steps, end);
    hide AtShort, Apply, Enabled;
    if steps != [] {
      ShortStep(s, no, size, steps[0]);
      ShortSegmentBlocks(Apply(s, steps[0]), no, size, steps[1..], end);
    }
  }

  // ----- resuming

  /** NextSegmentToFetch: the first segment that is missing or not complete. */
  method NextSegmentToFetch(sizes: map<nat, nat>) returns (no: nat)
    ensures forall n :: 0 <= n < no ==> n in sizes && sizes[n] >= WAL_PAGE
    ensures no !in sizes || sizes[no] < WAL_PAGE
  {
    no := 0;
    ghost var left := sizes.Keys;
    while no in sizes && sizes[no] >= WAL_PAGE
      invariant forall n :: 0 <= n < no ==> n in sizes && sizes[n] >= WAL_PAGE
      invariant left <= sizes.Keys && forall n :: n in sizes && n >= no ==> n in left
      decreases left
    {
      left := left - {no};
      no := no + 1;
    }
  }
}
