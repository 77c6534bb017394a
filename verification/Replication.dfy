/** A follower mirrors the leader's pages and applies their events. Delivery may lose,
    repeat and reorder; a growing tail page is delivered again and again. */
module Replication {
  import opened ByteStrings
  import opened Buffers
  import opened WalEvents
  import opened WalFiles
  import opened Recovery

  /** All upserts of the storage in `events` are entries of the leader's storage. */
  ghost predicate AllGenuine(id: Bytes, leader: seq<Entry>, events: seq<Event>) {
    forall e :: e in events && e.Upsert? && e.storage == id ==> Genuine(e, id, leader)
  }

  /** Whatever arrives, a follower's storage stays a prefix of the leader's and never shrinks. */
  lemma {:induction false} PrefixSafety(id: Bytes, leader: seq<Entry>, follower: seq<Entry>, events: seq<Event>)
    requires follower <= leader && AllGenuine(id, leader, events)
    ensures follower <= Replay(id, follower, events) <= leader
    decreases |events|
  {
    if events != [] {
      var e := events[0];
      assert e in events;
      var next := ApplyEvent(id, follower, e);
      PrefixSafety(id, leader, next, events[1..]);
    }
  }

  lemma {:induction false} ReplayConcat(id: Bytes, entries: seq<Entry>, a: seq<Event>, b: seq<Event>)
    ensures Replay(id, entries, a + b) == Replay(id, Replay(id, entries, a), b)
    decreases |a|
  {
    if a == [] {
      assert a + b == b;
    } else {
      var e := a[0];
      var next := ApplyEvent(id, entries, e);
      assert (a + b)[0] == e && (a + b)[1..] == a[1..] + b;
      ReplayConcat(id, next, a[1..], b);
    }
  }

  predicate IsFor(id: Bytes, e: Event) { e.Upsert? && e.storage == id }

  lemma {:induction false} Grows(id: Bytes, entries: seq<Entry>, events: seq<Event>)
    ensures |Replay(id, entries, events)| >= |entries|
    decreases |events|
  {
    if events != [] {
      var h := events[0];
      var next := ApplyEvent(id, entries, h);
      Grows(id, next, events[1..]);
    }
  }

  /** A storage that grew applied the event with its last number. */
  lemma {:induction false} LastApplied(id: Bytes, entries: seq<Entry>, events: seq<Event>) returns (j: nat)
    requires |Replay(id, entries, events)| > |entries|
    ensures j < |events| && IsFor(id, events[j]) && events[j].seqNo == |Replay(id, entries, events)|
    decreases |events|
  {
    var next := ApplyEvent(id, entries, events[0]);
    if |Replay(id, next, events[1..])| > |next| {
      j := LastApplied(id, next, events[1..]);
      j := j + 1;
    } else {
      Grows(id, next, events[1..]);
      j := 0;
    }
  }

  lemma SplitAt(id: Bytes, entries: seq<Entry>, events: seq<Event>, i: nat)
    requires i < |events|
    ensures var mid := ApplyEvent(id, Replay(id, entries, events[..i]), events[i]);
            Replay(id, entries, events) == Replay(id, mid, events[i + 1..])
  {
    assert events == events[..i] + events[i..];
    ReplayConcat(id, entries, events[..i], events[i..]);
    assert events[i..][1..] == events[i + 1..];
  }

  /** Somewhere the upsert of a number stands right before, not after, that of the number below. */
  ghost predicate Inverted(id: Bytes, events: seq<Event>) {
    exists i, j :: 0 <= i < j < |events| && IsFor(id, events[i]) && IsFor(id, events[j])
                   && events[i].seqNo == events[j].seqNo + 1
  }

  /** Each number of the storage occurs once, and numbers start at 1. */
  ghost predicate NumberedOnce(id: Bytes, events: seq<Event>) {
    && (forall i :: 0 <= i < |events| && IsFor(id, events[i]) ==> events[i].seqNo >= 1)
    && (forall i, j :: 0 <= i < j < |events| && IsFor(id, events[i]) && IsFor(id, events[j]) ==>
          events[i].seqNo != events[j].seqNo)
  }

  /** After a pass over a page without inversions, none of its events is the next one. */
  lemma PageIsUsedUp(id: Bytes, entries: seq<Entry>, page: seq<Event>, i: nat)
    requires !Inverted(id, page) && i < |page| && IsFor(id, page[i])
    ensures page[i].seqNo != |Replay(id, entries, page)| + 1
  {
    hide Replay;
    var mid := Replay(id, entries, page[..i]);
    var next, rest := ApplyEvent(id, mid, page[i]), page[i + 1..];
    SplitAt(id, entries, page, i);
    Grows(id, next, rest);
    if page[i].seqNo == |Replay(id, entries, page)| + 1 {
      var j := LastApplied(id, next, rest);
      assert false;
    }
  }

  ghost predicate Reapplies(id: Bytes, entries: seq<Entry>, page: seq<Event>, more: seq<Event>) {
    Replay(id, Replay(id, entries, page), page + more) == Replay(id, entries, page + more)
  }

  /** Without inversions, applying a page and then the grown page equals applying the grown
      page once. */
  lemma GrownPageReapplies(id: Bytes, entries: seq<Entry>, page: seq<Event>, more: seq<Event>)
    requires !Inverted(id, page)
    ensures Reapplies(id, entries, page, more)
  {
    var once := Replay(id, entries, page);
    forall e | e in page && e.Upsert? && e.storage == id ensures e.seqNo != |once| + 1 {
      var i :| 0 <= i < |page| && page[i] == e;
      PageIsUsedUp(id, entries, page, i);
    }
    GapBlocksReplay(id, once, page);
    ReplayConcat(id, once, page, more);
    ReplayConcat(id, entries, page, more);
  }

  /** A storage just short of event `j`, whose successor is nowhere behind it, takes that event only. */
  lemma TakesOne(id: Bytes, entries: seq<Entry>, events: seq<Event>, j: nat)
    requires NumberedOnce(id, events) && j < |events| && IsFor(id, events[j]) && events[j].seqNo == |entries| + 1
    requires forall k :: j < k < |events| && IsFor(id, events[k]) ==> events[k].seqNo != |entries| + 2
    ensures |Replay(id, entries, events)| == |entries| + 1
  {
    var front, rest := events[..j], events[j + 1..];
    forall e | e in front && e.Upsert? && e.storage == id ensures e.seqNo != |entries| + 1 {
      var k :| 0 <= k < |front| && front[k] == e;
      assert IsFor(id, events[k]);
    }
    GapBlocksReplay(id, entries, front);
    SplitAt(id, entries, events, j);
    forall e | e in rest && e.Upsert? && e.storage == id ensures e.seqNo != |entries| + 2 {
      var k :| 0 <= k < |rest| && rest[k] == e;
      assert IsFor(id, events[j + 1 + k]);
    }
    GapBlocksReplay(id, ApplyEvent(id, entries, events[j]), rest);
  }

  /** A storage just short of an event applies it, or is past it by then. */
  lemma TakesAtLeast(id: Bytes, entries: seq<Entry>, events: seq<Event>, i: nat)
    requires i < |events| && IsFor(id, events[i]) && events[i].seqNo == |entries| + 1
    ensures |Replay(id, entries, events)| >= |entries| + 1
  {
    hide Replay;
    SplitAt(id, entries, events, i);
    Grows(id, entries, events[..i]);
    Grows(id, ApplyEvent(id, Replay(id, entries, events[..i]), events[i]), events[i + 1..]);
  }

  lemma InversionShows(id: Bytes, page: seq<Event>, more: seq<Event>) returns (entries: seq<Entry>)
    requires NumberedOnce(id, page + more) && Inverted(id, page)
    ensures !Reapplies(id, entries, page, more)
  {
    hide Replay;
    var i, j :| 0 <= i < j < |page| && IsFor(id, page[i]) && IsFor(id, page[j]) && page[i].seqNo == page[j].seqNo + 1;
    var all := page + more;
    assert forall k :: 0 <= k < |page| ==> all[k] == page[k];
    assert IsFor(id, all[i]) && IsFor(id, all[j]);
    entries := seq(page[j].seqNo - 1, _ => Entry([], []));
    TakesOne(id, entries, all, j);
    TakesOne(id, entries, page, j);
    TakesAtLeast(id, Replay(id, entries, page), all, i);
  }

  /** Re-applying a grown page is harmless to every storage if and only if the page never lists
      a number right above another before it, however the page grows. */
  lemma ReappliesExactly(id: Bytes, page: seq<Event>, more: seq<Event>)
    requires NumberedOnce(id, page + more)
    ensures (forall entries :: Reapplies(id, entries, page, more)) <==> !Inverted(id, page)
  {
    hide Reapplies, Inverted, NumberedOnce;
    if Inverted(id, page) {
      var entries := InversionShows(id, page, more);
      assert !Reapplies(id, entries, page, more);
    } else {
      forall entries ensures Reapplies(id, entries, page, more) { GrownPageReapplies(id, entries, page, more); }
    }
  }

  /** In particular, applying a page twice equals applying it once exactly then. */
  lemma TwiceIsOnceExactly(id: Bytes, page: seq<Event>)
    requires NumberedOnce(id, page)
    ensures (forall entries :: Replay(id, Replay(id, entries, page), page) == Replay(id, entries, page))
            <==> !Inverted(id, page)
  {
    hide Replay, Inverted, NumberedOnce;
    assert page + [] == page;
    ReappliesExactly(id, page, []);
    if Inverted(id, page) {
      var entries :| !Reapplies(id, entries, page, []);
      assert Replay(id, Replay(id, entries, page), page) != Replay(id, entries, page);
    } else {
      forall entries ensures Replay(id, Replay(id, entries, page), page) == Replay(id, entries, page) {
        assert Reapplies(id, entries, page, []);
      }
    }
  }

  // ----- convergence

  /** `log` can be read off `events` by leaving some out. */
  ghost predicate Within(log: seq<Event>, events: seq<Event>)
    decreases |events|
  {
    log == [] || (events != [] && (Within(log, events[1..]) || (log[0] == events[0] && Within(log[1..], events[1..]))))
  }

  /** Whoever is ahead stays ahead, and extra genuine events only help. */
  lemma {:induction false} MoreIsAhead(
    id: Bytes, leader: seq<Entry>, a: seq<Entry>, b: seq<Entry>, log: seq<Event>, events: seq<Event>)
    requires a <= b <= leader && Within(log, events) && AllGenuine(id, leader, events) && AllGenuine(id, leader, log)
    ensures Replay(id, a, log) <= Replay(id, b, events)
    decreases |events|
  {
    if events == [] {
      assert log == [];
    } else if log == [] {
      PrefixSafety(id, leader, b, events);
    } else {
      assert events[0] in events;
      var c := ApplyEvent(id, b, events[0]);
      assert b <= c <= leader;
      if Within(log, events[1..]) {
        MoreIsAhead(id, leader, a, c, log, events[1..]);
      } else {
        assert log[0] in log;
        var d := ApplyEvent(id, a, log[0]);
        assert d <= c;
        MoreIsAhead(id, leader, d, c, log[1..], events[1..]);
      }
    }
  }

  /** A follower ends equal to its leader once the leader's whole log has passed in order,
      whatever arrived in between or again. */
  lemma FollowerConverges(id: Bytes, leader: seq<Entry>, follower: seq<Entry>, log: seq<Event>, events: seq<Event>)
    requires follower <= leader && LogsFrom(Pending(id, 0, log), id, leader, 0)
    requires Within(log, events) && AllGenuine(id, leader, events) && AllGenuine(id, leader, log)
    ensures Replay(id, follower, events) == leader
  {
    hide Within, Pending, Replay;
    ReplayRebuilds(id, leader, 0, 0, log);
    assert leader[..0] == [];
    MoreIsAhead(id, leader, [], follower, log, events);
    PrefixSafety(id, leader, follower, events);
  }

  /** The order is needed: a page with number 3 before number 2 changes a storage that has
      already applied it. */
  lemma ReorderedPageDiffers(id: Bytes, a: Entry, b: Entry, c: Entry)
    ensures var page := [Upsert(id, 3, c.key, c.value), Upsert(id, 2, b.key, b.value)];
            Replay(id, [a], page) == [a, b] && Replay(id, Replay(id, [a], page), page) == [a, b, c]
  {
    var x, y := Upsert(id, 3, c.key, c.value), Upsert(id, 2, b.key, b.value);
    assert [a, b] + [c] == [a, b, c] && [a] + [b] == [a, b];
    assert [x, y][1..] == [y] && [y][1..] == [];
    assert Replay(id, [a], [y]) == Replay(id, [a, b], []);
    assert Replay(id, [a, b], [x, y]) == Replay(id, [a, b, c], [y]) == Replay(id, [a, b, c], []);
  }

  /** The zero padding of a page, or its end, stops the follower; events before it apply. */
  class Follower {
    var files: map<nat, Bytes>                 // the mirrored log
    var storages: map<Bytes, seq<Entry>>

    constructor ()
      ensures files == map[] && storages == map[]
    {
      files, storages := map[], map[];
    }

    /** ProcessPage: mirror first, then apply. A storage appears with its first event. */
    method ProcessPage(segmentNo: nat, data: Bytes)
      modifies this
      ensures files == old(files)[segmentNo := data]
      ensures forall id :: StorageAt(storages, id) == Replay(id, StorageAt(old(storages), id), ReadPage(data).events)
    {
      hide GetEvent, ReadPage;
      files := files[segmentNo := data];
      var page := OnPage(data);
      var i := 0;
      assert page.events[0..] == page.events;
      while i < |page.events|
        invariant 0 <= i <= |page.events| && files == old(files)[segmentNo := data]
        invariant forall id ::
                    Replay(id, StorageAt(storages, id), page.events[i..]) == Replay(id, StorageAt(old(storages), id), page.events)
      {
        var e := page.events[i];
        assert page.events[i..][0] == e && page.events[i..][1..] == page.events[i + 1..];
        ghost var before := storages;
        if e.Upsert? {
          var was := StorageAt(storages, e.storage);
          storages := storages[e.storage := PutEntry(was, e.seqNo, Entry(e.key, e.value))];
        }
        forall id ensures Replay(id, StorageAt(storages, id), page.events[i + 1..])
                       == Replay(id, StorageAt(before, id), page.events[i..])
        {
          assert StorageAt(storages, id) == ApplyEvent(id, StorageAt(before, id), e);
        }
        i := i + 1;
      }
    }

    /** A stream of pages replays their events; with genuine ones every storage stays a prefix
        of the leader's. */
    method ProcessPages(pages: seq<(nat, Bytes)>, ghost leader: map<Bytes, seq<Entry>>)
      requires forall id :: StorageAt(storages, id) <= StorageAt(leader, id)
      requires forall p, id :: p in pages ==> AllGenuine(id, StorageAt(leader, id), ReadPage(p.1).events)
      modifies this
      ensures forall id :: StorageAt(old(storages), id) <= StorageAt(storages, id) <= StorageAt(leader, id)
      ensures forall id :: StorageAt(storages, id) == Replay(id, StorageAt(old(storages), id), PageEvents(pages))
    {
      hide ReadPage, AllGenuine, Replay;
      var i := 0;
      forall id ensures StorageAt(storages, id) == Replay(id, StorageAt(storages, id), []) { ReplayNothing(id, StorageAt(storages, id)); }
      while i < |pages|
        invariant 0 <= i <= |pages|
        invariant forall id :: StorageAt(old(storages), id) <= StorageAt(storages, id) <= StorageAt(leader, id)
        invariant forall id :: StorageAt(storages, id) == Replay(id, StorageAt(old(storages), id), PageEvents(pages[..i]))
      {
        ghost var before := storages;
        ProcessPage(pages[i].0, pages[i].1);
        forall id ensures StorageAt(before, id) <= StorageAt(storages, id) <= StorageAt(leader, id)
                  ensures StorageAt(storages, id) == Replay(id, StorageAt(old(storages), id), PageEvents(pages[..i + 1]))
        {
          assert pages[i] in pages && pages[..i + 1][..i] == pages[..i];
          PrefixSafety(id, StorageAt(leader, id), StorageAt(before, id), ReadPage(pages[i].1).events);
          ReplayConcat(id, StorageAt(old(storages), id), PageEvents(pages[..i]), ReadPage(pages[i].1).events);
        }
        i := i + 1;
      }
      assert pages[..i] == pages;
    }
  }

  lemma ReplayNothing(id: Bytes, entries: seq<Entry>)
    ensures Replay(id, entries, []) == entries
  {}

  /** The events of the pages, in the order they arrived. */
  function PageEvents(pages: seq<(nat, Bytes)>): seq<Event> {
    if pages == [] then [] else PageEvents(pages[..|pages| - 1]) + ReadPage(pages[|pages| - 1].1).events
  }

  function StorageAt(storages: map<Bytes, seq<Entry>>, id: Bytes): seq<Entry> {
    if id in storages then storages[id] else []
  }
}
