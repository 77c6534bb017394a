/** A follower fed by the leader's stream: how much of the leader's log it has replayed. */
module Following {
  import opened ByteStrings
  import opened Buffers
  import opened Sequences
  import opened WalEvents
  import opened WalFiles
  import opened Recovery
  import opened Replication
  import Streaming

  /** The bytes of a page of a segment with these events: all of them, padded, or those written
      when the page was read. */
  ghost predicate PageOf(page: Streaming.Page, data: Bytes, events: seq<Event>)
    requires |EventsBytes(events)| <= WAL_PAGE
  {
    && |data| == page.size
    && if page.size == WAL_PAGE then data == ClosedSegment(events) else exists es :: es <= events && data == EventsBytes(es)
  }

  /** The pages that arrived are the pages delivered, with the leader's bytes. */
  ghost predicate Arrived(delivered: seq<Streaming.Page>, pages: seq<(nat, Bytes)>, segments: seq<seq<Event>>) {
    && |pages| == |delivered| && (forall n :: 0 <= n < |segments| ==> |EventsBytes(segments[n])| <= WAL_PAGE)
    && forall i :: 0 <= i < |pages| ==>
         && pages[i].0 == delivered[i].no < |segments|
         && PageOf(delivered[i], pages[i].1, segments[delivered[i].no])
  }

  lemma PageReads(page: Streaming.Page, data: Bytes, events: seq<Event>)
    requires |EventsBytes(events)| <= WAL_PAGE && PageOf(page, data, events)
    ensures ReadPage(data).events <= events && (page.size == WAL_PAGE ==> ReadPage(data).events == events)
  {
    hide EventsBytes, ReadPage;
    if page.size == WAL_PAGE {
      PageReadsBack(events, WAL_PAGE - |EventsBytes(events)|);
    } else {
      var es :| es <= events && data == EventsBytes(es);
      ShorterBytes(es, events);
      PageReadsBack(es, 0);
      assert EventsBytes(es) + Zeros(0) == EventsBytes(es);
    }
  }

  lemma ShorterBytes(es: seq<Event>, events: seq<Event>)
    requires es <= events
    ensures |EventsBytes(es)| <= |EventsBytes(events)|
    decreases |events|
  {
    hide EventBytes;
    if |es| < |events| {
      var front := events[..|events| - 1];
      ShorterBytes(es, front);
      assert events == front + [events[|events| - 1]];
      EventsBytesAppend(front, events[|events| - 1]);
    } else {
      assert es == events;
    }
  }

  // ----- leaving out

  lemma {:induction false} WithinMore(a: seq<Event>, x: seq<Event>, y: seq<Event>)
    requires Within(a, y)
    ensures Within(a, x + y)
    decreases |x|
  {
    if x == [] {
      assert x + y == y;
    } else {
      WithinMore(a, x[1..], y);
      assert (x + y)[1..] == x[1..] + y;
    }
  }

  lemma {:induction false} WithinConcat(a: seq<Event>, b: seq<Event>, x: seq<Event>, y: seq<Event>)
    requires Within(a, x) && Within(b, y)
    ensures Within(a + b, x + y)
    decreases |x|
  {
    if a == [] {
      assert a + b == b;
      WithinMore(b, x, y);
    } else {
      assert (x + y)[0] == x[0] && (x + y)[1..] == x[1..] + y;
      if Within(a, x[1..]) {
        WithinConcat(a, b, x[1..], y);
      } else {
        WithinConcat(a[1..], b, x[1..], y);
        assert (a + b)[0] == a[0] && (a + b)[1..] == a[1..] + b;
      }
    }
  }

  lemma {:induction false} WithinItself(a: seq<Event>)
    ensures Within(a, a)
  {
    if a != [] { WithinItself(a[1..]); }
  }

  /** The events of the listed segments. */
  function EventsOf(segments: seq<seq<Event>>, numbers: seq<nat>): seq<Event>
    requires forall i :: 0 <= i < |numbers| ==> numbers[i] < |segments|
  {
    if numbers == [] then [] else EventsOf(segments, numbers[..|numbers| - 1]) + segments[numbers[|numbers| - 1]]
  }

  lemma {:induction false} CompleteIsDelivered(delivered: seq<Streaming.Page>, n: nat)
    requires n in Streaming.Complete(delivered)
    ensures exists i :: 0 <= i < |delivered| && delivered[i].no == n
  {
    var front := delivered[..|delivered| - 1];
    if n in Streaming.Complete(front) {
      CompleteIsDelivered(front, n);
      var i :| 0 <= i < |front| && front[i].no == n;
      assert delivered[i].no == n;
    } else {
      assert delivered[|delivered| - 1].no == n;
    }
  }

  /** What arrives holds the events of the complete segments, in order. */
  lemma {:induction false} CompleteArrives(delivered: seq<Streaming.Page>, pages: seq<(nat, Bytes)>, segments: seq<seq<Event>>)
    requires Arrived(delivered, pages, segments)
    ensures forall i :: 0 <= i < |Streaming.Complete(delivered)| ==> Streaming.Complete(delivered)[i] < |segments|
    ensures Within(EventsOf(segments, Streaming.Complete(delivered)), PageEvents(pages))
  {
    hide ReadPage, Within, EventsBytes, PageOf;
    forall i | 0 <= i < |Streaming.Complete(delivered)| ensures Streaming.Complete(delivered)[i] < |segments| {
      CompleteIsDelivered(delivered, Streaming.Complete(delivered)[i]);
    }
    if pages == [] {
      NothingWithin([]);
    } else {
      var k := |pages| - 1;
      var page, data, older := delivered[k], pages[k].1, Streaming.Complete(delivered[..k]);
      assert Arrived(delivered[..k], pages[..k], segments);
      CompleteArrives(delivered[..k], pages[..k], segments);
      PageReads(page, data, segments[page.no]);
      if page.size == WAL_PAGE {
        WithinItself(segments[page.no]);
        WithinConcat(EventsOf(segments, older), segments[page.no], PageEvents(pages[..k]), ReadPage(data).events);
        assert (older + [page.no])[..|older|] == older;
      } else {
        NothingWithin(ReadPage(data).events);
        WithinConcat(EventsOf(segments, older), [], PageEvents(pages[..k]), ReadPage(data).events);
        assert EventsOf(segments, older) + [] == EventsOf(segments, older);
      }
    }
  }

  lemma NothingWithin(events: seq<Event>)
    ensures Within([], events)
  {}

  // ----- genuine

  lemma {:induction false} ArrivedGenuine(
    delivered: seq<Streaming.Page>, pages: seq<(nat, Bytes)>, segments: seq<seq<Event>>, id: Bytes, leader: seq<Entry>, i: nat)
    requires Arrived(delivered, pages, segments) && i < |pages|
    requires forall n :: 0 <= n < |segments| ==> AllGenuine(id, leader, segments[n])
    ensures AllGenuine(id, leader, ReadPage(pages[i].1).events)
  {
    hide ReadPage, Genuine, EventsBytes, PageOf;
    var no := delivered[i].no;
    PageReads(delivered[i], pages[i].1, segments[no]);
    forall e | e in ReadPage(pages[i].1).events ensures e in segments[no] {}
  }

  lemma {:induction false} PagesGenuine(pages: seq<(nat, Bytes)>, id: Bytes, leader: seq<Entry>)
    requires forall p :: p in pages ==> AllGenuine(id, leader, ReadPage(p.1).events)
    ensures AllGenuine(id, leader, PageEvents(pages))
  {
    hide ReadPage, Genuine;
    if pages != [] { PagesGenuine(pages[..|pages| - 1], id, leader); }
  }

  lemma {:induction false} SegmentsGenuine(segments: seq<seq<Event>>, numbers: seq<nat>, id: Bytes, leader: seq<Entry>)
    requires forall i :: 0 <= i < |numbers| ==> numbers[i] < |segments|
    requires forall n :: 0 <= n < |segments| ==> AllGenuine(id, leader, segments[n])
    ensures AllGenuine(id, leader, EventsOf(segments, numbers))
  {
    hide Genuine;
    if numbers != [] { SegmentsGenuine(segments, numbers[..|numbers| - 1], id, leader); }
  }

  lemma {:induction false} EventsOfNumbers(segments: seq<seq<Event>>, from: nat, count: nat)
    requires from + count <= |segments|
    ensures EventsOf(segments, Numbers(from, count)) == Flatten(segments[from..from + count])
  {
    if count > 0 {
      EventsOfNumbers(segments, from, count - 1);
      assert Numbers(from, count)[..count - 1] == Numbers(from, count - 1);
      assert segments[from..from + count][..count - 1] == segments[from..from + count - 1];
    }
  }

  // ----- the follower

  /** Every storage has what the events make of it, and nothing that is not the leader's. */
  ghost predicate HasReplayed(events: seq<Event>, storages: map<Bytes, seq<Entry>>, leader: map<Bytes, seq<Entry>>) {
    forall id :: Replay(id, [], events) <= StorageAt(storages, id) <= StorageAt(leader, id)
  }

  lemma CompleteCount(segments: seq<seq<Event>>, from: nat, sent: seq<nat>)
    requires from <= |segments| && sent == Numbers(from, |sent|) && forall i :: 0 <= i < |sent| ==> sent[i] < |segments|
    ensures from + |sent| <= |segments|
  {
    if sent != [] { assert sent[|sent| - 1] < |segments|; }
  }

  /** The events of the tail page that arrived last, if one counts as sent. */
  function TailEvents(tailSent: Option<nat>, pages: seq<(nat, Bytes)>): seq<Event> {
    if tailSent.Some? && pages != [] then ReadPage(pages[|pages| - 1].1).events else []
  }

  /** What arrives holds the complete segments and then the tail. */
  lemma TailArrives(delivered: seq<Streaming.Page>, pages: seq<(nat, Bytes)>, segments: seq<seq<Event>>, tailSent: Option<nat>)
    requires Arrived(delivered, pages, segments)
    requires tailSent.Some? ==> delivered != [] && delivered[|delivered| - 1].size == tailSent.value != WAL_PAGE
    ensures forall i :: 0 <= i < |Streaming.Complete(delivered)| ==> Streaming.Complete(delivered)[i] < |segments|
    ensures Within(EventsOf(segments, Streaming.Complete(delivered)) + TailEvents(tailSent, pages), PageEvents(pages))
    ensures tailSent.Some? ==> TailEvents(tailSent, pages) <= segments[delivered[|delivered| - 1].no]
  {
    hide ReadPage, Within, EventsBytes, PageOf, EventsOf;
    CompleteArrives(delivered, pages, segments);
    var complete := Streaming.Complete(delivered);
    if tailSent.Some? {
      var k := |pages| - 1;
      assert Arrived(delivered[..k], pages[..k], segments);
      CompleteArrives(delivered[..k], pages[..k], segments);
      PageReads(delivered[k], pages[k].1, segments[delivered[k].no]);
      WithinItself(TailEvents(tailSent, pages));
      WithinConcat(EventsOf(segments, complete), TailEvents(tailSent, pages), PageEvents(pages[..k]), TailEvents(tailSent, pages));
    } else {
      assert EventsOf(segments, complete) + [] == EventsOf(segments, complete);
    }
  }

  lemma CatchesUp(id: Bytes, had: seq<Event>, more: seq<Event>, events: seq<Event>, was: seq<Entry>, leader: seq<Entry>)
    requires Within(more, events) && Replay(id, [], had) <= was <= leader
    requires AllGenuine(id, leader, events) && AllGenuine(id, leader, more)
    ensures Replay(id, [], had + more) <= Replay(id, was, events)
  {
    hide Replay, Within, AllGenuine;
    ReplayConcat(id, [], had, more);
    MoreIsAhead(id, leader, Replay(id, [], had), was, more, events);
  }

  lemma SplitLog(segments: seq<seq<Event>>, from: nat, count: nat, tail: seq<Event>)
    requires from + count <= |segments|
    ensures Flatten(segments[..from]) + (Flatten(segments[from..from + count]) + tail) == Flatten(segments[..from + count]) + tail
  {
    hide Flatten;
    var front, more := segments[..from], segments[from..from + count];
    assert segments[..from + count] == front + more;
    FlattenConcat(front, more);
    assert Flatten(front) + (Flatten(more) + tail) == Flatten(front) + Flatten(more) + tail;
  }

  /** A follower that has replayed the log before the segment it asks for, fed by a stream of one
      leader life without holes, has replayed the leader's log up to the last complete segment
      sent and the tail delivered of the next one, and nothing that is not the leader's. */
  method Follow(
    follower: Follower, pages: seq<(nat, Bytes)>, ghost leader: map<Bytes, seq<Entry>>, ghost segments: seq<seq<Event>>,
    ghost sizes: map<nat, nat>, ghost active: nat, ghost from: nat, ghost steps: seq<Streaming.Step>, ghost end: Streaming.State)
    returns (ghost done: nat, ghost tail: seq<Event>)
    requires Streaming.OneLife(sizes, active) && forall n :: from <= n <= active ==> n in sizes
    requires Streaming.Run(Streaming.Attach(sizes, active, from), steps, end) && end.active < 10000
    requires Arrived(end.delivered, pages, segments) && from <= |segments|
    requires forall id, n :: 0 <= n < |segments| ==> AllGenuine(id, StorageAt(leader, id), segments[n])
    requires HasReplayed(Flatten(segments[..from]), follower.storages, leader)
    modifies follower
    ensures done == from + |end.sent| <= |segments| && end.sent == Numbers(from, |end.sent|)
    ensures end.tailSent.Some? ==>
              && pages != [] && pages[|pages| - 1].0 == done < |segments| && |pages[|pages| - 1].1| == end.tailSent.value
              && tail == ReadPage(pages[|pages| - 1].1).events <= segments[done]
    ensures HasReplayed(Flatten(segments[..done]) + tail, follower.storages, leader)
  {
    hide Replay, AllGenuine, Streaming.Run, Streaming.OneLife, Flatten, ReadPage, Within, EventsOf, PageEvents, EventsBytes;
    Streaming.EveryTail(sizes, active, from, steps, end);
    Streaming.TailFollows(sizes, active, from, steps, end);
    Streaming.DeliveredKeeps(Streaming.Attach(sizes, active, from), steps, end);
    TailArrives(end.delivered, pages, segments, end.tailSent);
    CompleteCount(segments, from, end.sent);
    done, tail := from + |end.sent|, TailEvents(end.tailSent, pages);
    EventsOfNumbers(segments, from, |end.sent|);
    SplitLog(segments, from, |end.sent|, tail);
    ghost var more := Flatten(segments[from..done]) + tail;
    forall p, id | p in pages ensures AllGenuine(id, StorageAt(leader, id), ReadPage(p.1).events) {
      var i :| 0 <= i < |pages| && pages[i] == p;
      ArrivedGenuine(end.delivered, pages, segments, id, StorageAt(leader, id), i);
    }
    ghost var was := follower.storages;
    follower.ProcessPages(pages, leader);
    forall id ensures Replay(id, [], Flatten(segments[..done]) + tail) <= StorageAt(follower.storages, id) {
      PagesGenuine(pages, id, StorageAt(leader, id));
      SegmentsGenuine(segments, end.sent, id, StorageAt(leader, id));
      TailGenuine(Flatten(segments[from..done]), pages, end.tailSent, id, StorageAt(leader, id));
      CatchesUp(id, Flatten(segments[..from]), more, PageEvents(pages), StorageAt(was, id), StorageAt(leader, id));
    }
  }

  lemma TailGenuine(events: seq<Event>, pages: seq<(nat, Bytes)>, tailSent: Option<nat>, id: Bytes, leader: seq<Entry>)
    requires AllGenuine(id, leader, events) && forall p :: p in pages ==> AllGenuine(id, leader, ReadPage(p.1).events)
    ensures AllGenuine(id, leader, events + TailEvents(tailSent, pages))
  {
    hide ReadPage, Genuine;
    if pages != [] { assert pages[|pages| - 1] in pages; }
  }
}
