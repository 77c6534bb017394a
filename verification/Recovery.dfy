/** Crash recovery and log cleaning over any number of storages that share one log.
    A storage is the list of entries put into it; entry `i` has sequence number `i + 1`,
    and the first `persisted` entries are in table files. */
module Recovery {
  import opened ByteStrings
  import opened Sequences
  import opened WalEvents

  datatype Entry = Entry(key: Bytes, value: Bytes)

  datatype Storage = Storage(entries: seq<Entry>, persisted: nat)

  datatype Segment = Segment(no: nat, events: seq<Event>)

  /** Segments in number order. The writer appends to the file it opened as number
      `active`, which may have been removed from the directory since. */
  datatype Database = Database(storages: map<Bytes, Storage>, wal: seq<Segment>, active: nat)

  // ----- replay

  /** Put with a sequence number: applied only when it is the next one. */
  function PutEntry(entries: seq<Entry>, seqNo: int, e: Entry): seq<Entry> {
    if seqNo == |entries| + 1 then entries + [e] else entries
  }

  /** What one event does to the storage `id`. */
  function ApplyEvent(id: Bytes, entries: seq<Entry>, e: Event): seq<Entry> {
    if e.Upsert? && e.storage == id then PutEntry(entries, e.seqNo, Entry(e.key, e.value)) else entries
  }

  /** What replaying a log does to one storage. */
  function Replay(id: Bytes, entries: seq<Entry>, events: seq<Event>): seq<Entry>
    decreases |events|
  {
    if events == [] then entries
    else Replay(id, ApplyEvent(id, entries, events[0]), events[1..])
  }

  /** The upserts of a storage with a number above `p`, in log order. */
  function Pending(id: Bytes, p: int, events: seq<Event>): seq<Event> {
    if events == [] then []
    else
      var front, e := Pending(id, p, events[..|events| - 1]), events[|events| - 1];
      if e.Upsert? && e.storage == id && e.seqNo > p then front + [e] else front
  }

  lemma {:induction false} PendingConcat(id: Bytes, p: int, a: seq<Event>, b: seq<Event>)
    ensures Pending(id, p, a + b) == Pending(id, p, a) + Pending(id, p, b)
  {
    if b == [] {
      assert a + b == a;
    } else {
      assert (a + b)[..|a + b| - 1] == a + b[..|b| - 1];
      PendingConcat(id, p, a, b[..|b| - 1]);
    }
  }

  lemma PendingFirst(id: Bytes, p: int, events: seq<Event>)
    requires events != []
    ensures var e := events[0];
            Pending(id, p, events) ==
            (if e.Upsert? && e.storage == id && e.seqNo > p then [e] else []) + Pending(id, p, events[1..])
  {
    assert events == [events[0]] + events[1..];
    PendingConcat(id, p, [events[0]], events[1..]);
    assert [events[0]][..0] == [];
  }

  /** Event number `i + 1` of a storage. */
  predicate Logs(e: Event, id: Bytes, entries: seq<Entry>, i: nat) {
    i < |entries| && e.Upsert? && e.storage == id && e.seqNo == i + 1 && Entry(e.key, e.value) == entries[i]
  }

  predicate Genuine(e: Event, id: Bytes, entries: seq<Entry>) {
    e.Upsert? && e.seqNo >= 1 && Logs(e, id, entries, e.seqNo - 1)
  }

  /** `events` are exactly the upserts of the entries from `from` on. */
  ghost predicate LogsFrom(events: seq<Event>, id: Bytes, entries: seq<Entry>, from: nat) {
    && |events| + from == |entries|
    && forall i :: 0 <= i < |events| ==> Logs(events[i], id, entries, from + i)
  }

  /** Replay rebuilds a storage from its persisted entries and the log of the rest,
      whatever else the log holds and however old its other events are. */
  lemma {:induction false} ReplayRebuilds(id: Bytes, entries: seq<Entry>, p: nat, m: nat, events: seq<Event>)
    requires p <= m <= |entries| && LogsFrom(Pending(id, p, events), id, entries, m)
    ensures Replay(id, entries[..m], events) == entries
    decreases |events|
  {
    if events == [] {
      assert entries[..m] == entries;
    } else {
      PendingFirst(id, p, events);
      var e, rest := events[0], Pending(id, p, events[1..]);
      if e.Upsert? && e.storage == id && e.seqNo > p {
        assert ([e] + rest)[0] == e && Logs(e, id, entries, m);
        assert entries[..m + 1] == entries[..m] + [entries[m]];
        assert forall i :: 0 <= i < |rest| ==> rest[i] == ([e] + rest)[i + 1];
        ReplayRebuilds(id, entries, p, m + 1, events[1..]);
      } else {
        assert [] + rest == rest;
        ReplayRebuilds(id, entries, p, m, events[1..]);
      }
    }
  }

  /** Every application takes one pending event. */
  lemma {:induction false} ReplayIsBounded(id: Bytes, p: nat, entries: seq<Entry>, events: seq<Event>)
    requires p <= |entries|
    ensures |Replay(id, entries, events)| <= |entries| + |Pending(id, p, events)|
    decreases |events|
  {
    if events != [] {
      PendingFirst(id, p, events);
      var e := events[0];
      var next := ApplyEvent(id, entries, e);
      ReplayIsBounded(id, p, next, events[1..]);
    }
  }

  /** With one log event for each entry that no table has, replay rebuilds the storage if
      and only if the log lists those events in the order of their numbers. Two upserts
      whose log writes overtake each other break it. */
  lemma {:induction false} ReplayRebuildsExactly(id: Bytes, entries: seq<Entry>, p: nat, m: nat, events: seq<Event>)
    requires p <= m <= |entries| && |Pending(id, p, events)| == |entries| - m
    requires forall e :: e in Pending(id, p, events) ==> Genuine(e, id, entries)
    ensures Replay(id, entries[..m], events) == entries <==> LogsFrom(Pending(id, p, events), id, entries, m)
    decreases |events|
  {
    if LogsFrom(Pending(id, p, events), id, entries, m) {
      ReplayRebuilds(id, entries, p, m, events);
    } else if events != [] {
      PendingFirst(id, p, events);
      var e, rest := events[0], Pending(id, p, events[1..]);
      if e.Upsert? && e.storage == id && e.seqNo > p {
        assert ([e] + rest)[0] == e && e in Pending(id, p, events);
        if e.seqNo == m + 1 {
          assert entries[..m + 1] == entries[..m] + [entries[m]];
          ReplayRebuildsExactly(id, entries, p, m + 1, events[1..]);
          assert !LogsFrom(rest, id, entries, m + 1) by { LogsFromTail(e, rest, id, entries, m); }
        } else {
          ReplayIsBounded(id, p, entries[..m], events[1..]);
        }
      } else {
        assert [] + rest == rest;
        ReplayRebuildsExactly(id, entries, p, m, events[1..]);
      }
    }
  }

  lemma LogsFromTail(e: Event, rest: seq<Event>, id: Bytes, entries: seq<Entry>, m: nat)
    requires Logs(e, id, entries, m)
    ensures LogsFrom(rest, id, entries, m + 1) ==> LogsFrom([e] + rest, id, entries, m)
  {
    if LogsFrom(rest, id, entries, m + 1) {
      forall i | 0 <= i < |rest| + 1 ensures Logs(([e] + rest)[i], id, entries, m + i) {
        if i > 0 { assert Logs(rest[i - 1], id, entries, m + 1 + (i - 1)); }
      }
    }
  }

  // ----- the log as one list

  function SegmentEvents(wal: seq<Segment>): (r: seq<seq<Event>>)
    ensures |r| == |wal| && forall i :: 0 <= i < |r| ==> r[i] == wal[i].events
  {
    seq(|wal|, i requires 0 <= i < |wal| => wal[i].events)
  }

  function Events(wal: seq<Segment>): seq<Event> { Flatten(SegmentEvents(wal)) }

  lemma EventsAppend(wal: seq<Segment>, s: Segment)
    ensures Events(wal + [s]) == Events(wal) + s.events
  {
    assert SegmentEvents(wal + [s]) == SegmentEvents(wal) + [s.events];
    FlattenAppend(SegmentEvents(wal), s.events);
  }

  // ----- steps

  datatype Step =
    | DoUpsert(id: Bytes, entry: Entry, newSegment: bool)   // the writer may have to start a segment first
    | DoCommit(tx: Int64, newSegment: bool)
    | Flush(id: Bytes, upTo: nat)                         // tables now hold the first `upTo` entries
    | Clean(retainFrom: Option<nat>)
    | Restart

  function StorageOf(d: Database, id: Bytes): Storage {
    if id in d.storages then d.storages[id] else Storage([], 0)
  }

  predicate Linked(d: Database) { d.wal != [] && d.wal[|d.wal| - 1].no == d.active }

  /** wal::Writer::Write. Opening a segment creates its file; appending reaches the
      directory only while the active file is still there. */
  function Append(wal: seq<Segment>, active: nat, newSegment: bool, e: Event): (seq<Segment>, nat) {
    if newSegment then (wal + [Segment(active + 1, [e])], active + 1)
    else if wal != [] && wal[|wal| - 1].no == active then
      (wal[..|wal| - 1] + [Segment(active, wal[|wal| - 1].events + [e])], active)
    else (wal, active)
  }

  predicate IsPersistent(d: Database, e: Event) {
    match e
    case Upsert(id, seqNo, _, _) => id in d.storages && seqNo <= d.storages[id].persisted
    case Commit(_) => true
  }

  /** CleanerStrategy: a segment is obsolete when it has events and all are persistent. */
  ghost predicate Obsolete(d: Database, s: Segment, retainFrom: Option<nat>) {
    && s.events != [] && (forall e :: e in s.events ==> IsPersistent(d, e))
    && (retainFrom.Some? ==> s.no < retainFrom.value)
  }

  ghost function Keep(d: Database, wal: seq<Segment>, retainFrom: Option<nat>): seq<Segment> {
    if wal == [] then []
    else
      var front, s := Keep(d, wal[..|wal| - 1], retainFrom), wal[|wal| - 1];
      if Obsolete(d, s, retainFrom) then front else front + [s]
  }

  /** Init, then Recover: every storage starts from its tables and replays the whole log. */
  function Recover(d: Database): map<Bytes, Storage> {
    map id | id in d.storages ::
      Storage(Replay(id, Persisted(d.storages[id]), Events(d.wal)), d.storages[id].persisted)
  }

  function Persisted(s: Storage): seq<Entry> {
    if s.persisted <= |s.entries| then s.entries[..s.persisted] else s.entries
  }

  function NextSegment(wal: seq<Segment>): nat {
    if wal == [] then 0 else wal[|wal| - 1].no + 1
  }

  ghost predicate Enabled(d: Database, s: Step) {
    match s
    case Flush(id, upTo) => id in d.storages && d.storages[id].persisted <= upTo <= |d.storages[id].entries|
    case DoUpsert(id, _, _) => |StorageOf(d, id).entries| < MAX_INT64
    case _ => true
  }

  ghost function Apply(d: Database, s: Step): Database
    requires Enabled(d, s)
  {
    match s
    case DoUpsert(id, entry, newSegment) =>
      var was := StorageOf(d, id);
      var (wal, active) := Append(d.wal, d.active, newSegment, Upsert(id, |was.entries| + 1, entry.key, entry.value));
      Database(d.storages[id := Storage(was.entries + [entry], was.persisted)], wal, active)
    case DoCommit(tx, newSegment) =>
      var (wal, active) := Append(d.wal, d.active, newSegment, Commit(tx));
      Database(d.storages, wal, active)
    case Flush(id, upTo) => d.(storages := d.storages[id := d.storages[id].(persisted := upTo)])
    case Clean(retainFrom) => d.(wal := Keep(d, d.wal, retainFrom))
    case Restart =>
      var no := NextSegment(d.wal);
      Database(Recover(d), d.wal + [Segment(no, [])], no)
  }

  // ----- what recovery needs

  /** The log still holds, in order, exactly the entries that no table has. */
  ghost predicate Recoverable(id: Bytes, s: Storage, events: seq<Event>) {
    s.persisted <= |s.entries| && LogsFrom(Pending(id, s.persisted, events), id, s.entries, s.persisted)
  }

  ghost predicate Inv(d: Database) {
    && (forall id :: id in d.storages ==> Recoverable(id, d.storages[id], Events(d.wal)))
    && (forall e :: e in Events(d.wal) && e.Upsert? ==> e.storage in d.storages)
    && Numbered(d.wal, d.active)
  }

  ghost predicate Numbered(wal: seq<Segment>, active: nat) {
    && (forall i, j :: 0 <= i < j < |wal| ==> wal[i].no < wal[j].no)
    && (forall s :: s in wal ==> s.no <= active)
  }

  /** Crash recovery is exact: a restart brings back every entry of every storage, each
      once and in order, so the next sequence number is one past the last. */
  lemma RecoveryIsExact(d: Database)
    requires Inv(d)
    ensures Recover(d) == d.storages
  {
    forall id | id in d.storages ensures Recover(d)[id] == d.storages[id] {
      var s := d.storages[id];
      assert Recoverable(id, s, Events(d.wal));
      ReplayRebuilds(id, s.entries, s.persisted, s.persisted, Events(d.wal));
    }
  }

  lemma AppendEvents(d: Database, newSegment: bool, e: Event)
    requires newSegment || Linked(d)
    ensures Events(Append(d.wal, d.active, newSegment, e).0) == Events(d.wal) + [e]
  {
    hide Flatten;
    if newSegment {
      EventsAppend(d.wal, Segment(d.active + 1, [e]));
    } else {
      var front, last := d.wal[..|d.wal| - 1], d.wal[|d.wal| - 1];
      assert d.wal == front + [last];
      EventsAppend(front, last);
      EventsAppend(front, Segment(d.active, last.events + [e]));
      assert Events(front) + (last.events + [e]) == Events(front) + last.events + [e];
    }
  }

  lemma PendingAppend(id: Bytes, p: int, events: seq<Event>, e: Event)
    ensures Pending(id, p, events + [e])
         == if e.Upsert? && e.storage == id && e.seqNo > p then Pending(id, p, events) + [e] else Pending(id, p, events)
  {
    assert (events + [e])[..|events|] == events;
  }

  lemma {:induction false} NothingPending(id: Bytes, p: int, events: seq<Event>)
    requires forall e :: e in events && e.Upsert? && e.storage == id ==> e.seqNo <= p
    ensures Pending(id, p, events) == []
  {
    if events != [] { NothingPending(id, p, events[..|events| - 1]); }
  }

  lemma UpsertKeeps(d: Database, id: Bytes, entry: Entry, newSegment: bool)
    requires Inv(d) && Enabled(d, DoUpsert(id, entry, newSegment)) && (newSegment || Linked(d))
    ensures Inv(Apply(d, DoUpsert(id, entry, newSegment)))
  {
    hide Flatten, Pending, Events;
    var t := Apply(d, DoUpsert(id, entry, newSegment));
    var was := StorageOf(d, id);
    var e := Upsert(id, |was.entries| + 1, entry.key, entry.value);
    AppendEvents(d, newSegment, e);
    assert Recoverable(id, was, Events(d.wal)) by {
      if id !in d.storages { NothingPending(id, 0, Events(d.wal)); }
    }
    forall i | i in t.storages ensures Recoverable(i, t.storages[i], Events(t.wal)) {
      PendingAppend(i, t.storages[i].persisted, Events(d.wal), e);
      if i == id { LogsSnoc(Pending(id, was.persisted, Events(d.wal)), e, id, was.entries, entry, was.persisted); }
    }
    NumbersKeep(d, newSegment, e);
  }

  lemma LogsSnoc(events: seq<Event>, e: Event, id: Bytes, entries: seq<Entry>, entry: Entry, from: nat)
    requires LogsFrom(events, id, entries, from) && Logs(e, id, entries + [entry], |entries|)
    ensures LogsFrom(events + [e], id, entries + [entry], from)
  {
    forall i | 0 <= i < |events| + 1 ensures Logs((events + [e])[i], id, entries + [entry], from + i) {
      if i < |events| { assert Logs(events[i], id, entries, from + i); }
    }
  }

  lemma NumbersKeep(d: Database, newSegment: bool, e: Event)
    requires Inv(d)
    ensures var (wal, active) := Append(d.wal, d.active, newSegment, e);
            Numbered(wal, active)
  {
    if Linked(d) { assert d.wal[|d.wal| - 1] in d.wal; }
  }

  lemma CommitKeeps(d: Database, tx: Int64, newSegment: bool)
    requires Inv(d) && (newSegment || Linked(d))
    ensures Inv(Apply(d, DoCommit(tx, newSegment)))
  {
    hide Flatten, Pending, Events;
    var e := Commit(tx);
    AppendEvents(d, newSegment, e);
    forall i | i in d.storages ensures Recoverable(i, d.storages[i], Events(d.wal) + [e]) {
      PendingAppend(i, d.storages[i].persisted, Events(d.wal), e);
    }
    NumbersKeep(d, newSegment, e);
  }

  /** A larger persisted part needs a shorter log. */
  lemma {:induction false} PendingAbove(id: Bytes, p: nat, q: nat, entries: seq<Entry>, events: seq<Event>)
    requires p <= q <= |entries| && LogsFrom(Pending(id, p, events), id, entries, p)
    ensures LogsFrom(Pending(id, q, events), id, entries, q)
  {
    hide Pending;
    PendingTwice(id, p, q, events);
    var all := Pending(id, p, events);
    var low, high := all[..q - p], all[q - p..];
    assert all == low + high;
    PendingConcat(id, q, low, high);
    forall e | e in low && e.Upsert? && e.storage == id ensures e.seqNo <= q {
      var i :| 0 <= i < |low| && low[i] == e;
      assert Logs(all[i], id, entries, p + i);
    }
    NothingPending(id, q, low);
    forall i | 0 <= i < |high| ensures Logs(high[i], id, entries, q + i) {
      assert high[i] == all[q - p + i];
    }
    AllPending(id, q, high);
  }

  lemma {:induction false} AllPending(id: Bytes, q: int, events: seq<Event>)
    requires forall i :: 0 <= i < |events| ==> events[i].Upsert? && events[i].storage == id && events[i].seqNo > q
    ensures Pending(id, q, events) == events
  {
    if events != [] { AllPending(id, q, events[..|events| - 1]); }
  }

  lemma {:induction false} PendingTwice(id: Bytes, p: int, q: int, events: seq<Event>)
    requires p <= q
    ensures Pending(id, q, Pending(id, p, events)) == Pending(id, q, events)
  {
    if events != [] {
      var front, e := events[..|events| - 1], events[|events| - 1];
      PendingTwice(id, p, q, front);
      PendingAppend(id, q, Pending(id, p, front), e);
    }
  }

  lemma FlushKeeps(d: Database, id: Bytes, upTo: nat)
    requires Inv(d) && Enabled(d, Flush(id, upTo))
    ensures Inv(Apply(d, Flush(id, upTo)))
  {
    hide Flatten, Pending, Events;
    assert Recoverable(id, d.storages[id], Events(d.wal));
    PendingAbove(id, d.storages[id].persisted, upTo, d.storages[id].entries, Events(d.wal));
  }

  /** Cleaning removes no event that recovery still needs. */
  lemma {:induction false} KeepPending(d: Database, wal: seq<Segment>, retainFrom: Option<nat>, id: Bytes)
    requires id in d.storages
    ensures var p := d.storages[id].persisted;
            Pending(id, p, Events(Keep(d, wal, retainFrom))) == Pending(id, p, Events(wal))
  {
    hide Flatten, Pending, Events;
    if wal != [] {
      var front, s, p := wal[..|wal| - 1], wal[|wal| - 1], d.storages[id].persisted;
      KeepPending(d, front, retainFrom, id);
      assert wal == front + [s];
      EventsAppend(front, s);
      PendingConcat(id, p, Events(front), s.events);
      if Obsolete(d, s, retainFrom) {
        forall e | e in s.events && e.Upsert? && e.storage == id ensures e.seqNo <= p { assert IsPersistent(d, e); }
        NothingPending(id, p, s.events);
      } else {
        EventsAppend(Keep(d, front, retainFrom), s);
        PendingConcat(id, p, Events(Keep(d, front, retainFrom)), s.events);
      }
    }
  }

  lemma NumberedSnoc(front: seq<Segment>, s: Segment, active: nat)
    ensures Numbered(front + [s], active) <==>
            Numbered(front, active) && s.no <= active && forall x :: x in front ==> x.no < s.no
  {
    var wal := front + [s];
    assert forall i :: 0 <= i < |front| ==> wal[i] == front[i];
    assert wal[|front|] == s && s in wal;
    if Numbered(wal, active) {
      forall x | x in front ensures x.no < s.no && x in wal {
        var i :| 0 <= i < |front| && front[i] == x;
        assert wal[i].no < wal[|front|].no;
      }
    }
  }

  lemma {:induction false} KeepNumbers(d: Database, wal: seq<Segment>, retainFrom: Option<nat>, active: nat)
    requires Numbered(wal, active)
    ensures Numbered(Keep(d, wal, retainFrom), active)
    ensures forall s :: s in Keep(d, wal, retainFrom) ==> s in wal
  {
    hide Obsolete, Numbered;
    if wal != [] {
      var front, s := wal[..|wal| - 1], wal[|wal| - 1];
      assert wal == front + [s];
      NumberedSnoc(front, s, active);
      KeepNumbers(d, front, retainFrom, active);
      NumberedSnoc(Keep(d, front, retainFrom), s, active);
    }
  }

  lemma {:induction false} KeepEvents(d: Database, wal: seq<Segment>, retainFrom: Option<nat>)
    ensures forall e :: e in Events(Keep(d, wal, retainFrom)) ==> e in Events(wal)
  {
    hide Flatten, Events, Obsolete;
    if wal != [] {
      var front, s := wal[..|wal| - 1], wal[|wal| - 1];
      KeepEvents(d, front, retainFrom);
      assert wal == front + [s];
      EventsAppend(front, s);
      EventsAppend(Keep(d, front, retainFrom), s);
    }
  }

  /** Cleaning never changes what a recovery rebuilds. */
  lemma CleanKeeps(d: Database, retainFrom: Option<nat>)
    requires Inv(d)
    ensures Inv(Apply(d, Clean(retainFrom)))
    ensures Recover(Apply(d, Clean(retainFrom))) == Recover(d)
  {
    hide Flatten, Pending, Events, Keep, Recover;
    var t := Apply(d, Clean(retainFrom));
    KeepNumbers(d, d.wal, retainFrom, d.active);
    KeepEvents(d, d.wal, retainFrom);
    forall id | id in d.storages ensures Recoverable(id, d.storages[id], Events(t.wal)) {
      KeepPending(d, d.wal, retainFrom, id);
      assert Recoverable(id, d.storages[id], Events(d.wal));
    }
    RecoveryIsExact(d);
    RecoveryIsExact(t);
  }

  lemma RestartKeeps(d: Database)
    requires Inv(d)
    ensures Inv(Apply(d, Restart)) && Linked(Apply(d, Restart)) && Apply(d, Restart).storages == d.storages
  {
    hide Flatten, Pending, Events, Recover;
    RecoveryIsExact(d);
    EventsAppend(d.wal, Segment(NextSegment(d.wal), []));
    assert Events(d.wal) + [] == Events(d.wal);
  }

  // ----- whole histories

  /** The writer must still have its file: the cleaner does not spare the active segment. */
  ghost predicate Durable(d: Database, s: Step) {
    match s
    case DoUpsert(_, _, newSegment) => newSegment || Linked(d)
    case DoCommit(_, newSegment) => newSegment || Linked(d)
    case _ => true
  }

  ghost predicate Run(d: Database, steps: seq<Step>, end: Database)
    decreases |steps|
  {
    if steps == [] then d == end
    else Enabled(d, steps[0]) && Durable(d, steps[0]) && Run(Apply(d, steps[0]), steps[1..], end)
  }

  lemma StepKeeps(d: Database, s: Step)
    requires Inv(d) && Enabled(d, s) && Durable(d, s)
    ensures Inv(Apply(d, s))
  {
    hide Inv, Apply;
    match s
    case DoUpsert(id, entry, newSegment) => UpsertKeeps(d, id, entry, newSegment);
    case DoCommit(tx, newSegment) => CommitKeeps(d, tx, newSegment);
    case Flush(id, upTo) => FlushKeeps(d, id, upTo);
    case Clean(retainFrom) => CleanKeeps(d, retainFrom);
    case Restart => RestartKeeps(d);
  }

  /** After any history of upserts, commits, flushes, cleanings and restarts in which the writer
      had its file whenever it logged, a restart rebuilds every storage exactly. */
  lemma {:induction false} EveryHistoryRecovers(d: Database, steps: seq<Step>, end: Database)
    requires Inv(d) && Run(d, steps, end)
    ensures Inv(end) && Recover(end) == end.storages
    decreases |steps|
  {
    hide Inv, Apply, Enabled, Durable, Recover;
    if steps == [] {
      RecoveryIsExact(d);
    } else {
      StepKeeps(d, steps[0]);
      EveryHistoryRecovers(Apply(d, steps[0]), steps[1..], end);
    }
  }

  lemma FreshDatabase()
    ensures Inv(Database(map[], [Segment(0, [])], 0)) && Linked(Database(map[], [Segment(0, [])], 0))
  {
    EventsAppend([], Segment(0, []));
    assert Events([]) == [] && [] + [Segment(0, [])] == [Segment(0, [])];
  }

  // ----- where the code loses data

  /** An upsert survives a restart exactly when the writer's file is still in the directory
      (or the writer starts a new one). */
  lemma UpsertSurvivesExactly(d: Database, id: Bytes, entry: Entry, newSegment: bool)
    requires Inv(d) && Enabled(d, DoUpsert(id, entry, newSegment))
    ensures var t := Apply(d, DoUpsert(id, entry, newSegment));
            Recover(t) == t.storages <==> newSegment || Linked(d)
  {
    hide Flatten, Pending, Events;
    var t := Apply(d, DoUpsert(id, entry, newSegment));
    if newSegment || Linked(d) {
      UpsertKeeps(d, id, entry, newSegment);
      RecoveryIsExact(t);
    } else {
      assert t.wal == d.wal;
      var was := StorageOf(d, id);
      assert Recoverable(id, was, Events(d.wal)) by {
        if id !in d.storages { NothingPending(id, 0, Events(d.wal)); }
      }
      ReplayRebuilds(id, was.entries, was.persisted, was.persisted, Events(d.wal));
      assert (was.entries + [entry])[..was.persisted] == was.entries[..was.persisted];
      assert Recover(t)[id].entries == was.entries;
    }
  }

  /** The cleaner unlinks the active segment exactly when that segment is obsolete. */
  lemma CleanUnlinksExactly(d: Database, retainFrom: Option<nat>)
    requires Inv(d) && Linked(d)
    ensures Linked(Apply(d, Clean(retainFrom))) <==> !Obsolete(d, d.wal[|d.wal| - 1], retainFrom)
  {
    hide Events, Recoverable, Obsolete, Numbered;
    var front, s := d.wal[..|d.wal| - 1], d.wal[|d.wal| - 1];
    assert d.wal == front + [s];
    NumberedSnoc(front, s, d.active);
    KeepNumbers(d, front, retainFrom, d.active);
    var k := Keep(d, front, retainFrom);
    if Obsolete(d, s, retainFrom) && k != [] {
      assert k[|k| - 1] in k;
    }
  }

  /** Any history, with or without the writer's file. */
  ghost predicate Happens(d: Database, steps: seq<Step>, end: Database)
    decreases |steps|
  {
    if steps == [] then d == end
    else Enabled(d, steps[0]) && Happens(Apply(d, steps[0]), steps[1..], end)
  }

  const NEW_DATABASE := Database(map[], [Segment(0, [])], 0)

  /** The database after an upsert, its flush and a cleaning: the writer's file is gone. */
  function Unlinked(id: Bytes, first: Entry): Database { Database(map[id := Storage([first], 1)], [], 0) }

  lemma UpsertFlushClean(id: Bytes, first: Entry)
    ensures Happens(NEW_DATABASE, [DoUpsert(id, first, false), Flush(id, 1), Clean(None)], Unlinked(id, first))
  {
    var e := Upsert(id, 1, first.key, first.value);
    var d1 := Database(map[id := Storage([first], 0)], [Segment(0, [e])], 0);
    assert Apply(NEW_DATABASE, DoUpsert(id, first, false)) == d1 by { assert [] + [e] == [e] && [] + [first] == [first]; }
    var d2 := d1.(storages := map[id := Storage([first], 1)]);
    assert Apply(d1, Flush(id, 1)) == d2;
    KeepNone(d2, Segment(0, [e]));
    assert Apply(d2, Clean(None)) == Unlinked(id, first);
    hide Apply, Enabled;
    var steps := [DoUpsert(id, first, false), Flush(id, 1), Clean(None)];
    assert steps[1..][1..][1..] == [];
    assert Happens(d2, steps[1..][1..], Unlinked(id, first));
    assert Happens(d1, steps[1..], Unlinked(id, first));
  }

  /** Upsert, flush, clean, upsert, restart, from a new database: the second entry is lost. */
  lemma CleanedWriterLosesUpsert(id: Bytes, first: Entry, second: Entry)
    ensures var d := Unlinked(id, first);
            && Happens(NEW_DATABASE, [DoUpsert(id, first, false), Flush(id, 1), Clean(None)], d)
            && Enabled(d, DoUpsert(id, second, false))
            && Apply(d, DoUpsert(id, second, false)).storages == map[id := Storage([first, second], 1)]
            && Apply(Apply(d, DoUpsert(id, second, false)), Restart).storages == map[id := Storage([first], 1)]
  {
    hide Happens;
    UpsertFlushClean(id, first);
    var d := Unlinked(id, first);
    var before := Database(map[id := Storage([first, second], 1)], [], 0);
    assert Apply(d, DoUpsert(id, second, false)) == before by { assert [first] + [second] == [first, second]; }
    NoEvents();
    assert [first, second][..1] == [first];
    assert Recover(before) == map[id := Storage([first], 1)];
  }

  lemma KeepNone(d: Database, s: Segment)
    requires Obsolete(d, s, None)
    ensures Keep(d, [s], None) == []
  {
    assert [s][..0] == [] && Keep(d, [], None) == [];
  }

  /** A gap in the log stops a storage for good: if nothing in the log has the next number,
      replay applies nothing. A table file whose newest record was compacted away, with the
      segment of that record cleaned, is in this position. */
  lemma {:induction false} GapBlocksReplay(id: Bytes, entries: seq<Entry>, events: seq<Event>)
    requires forall e :: e in events && e.Upsert? && e.storage == id ==> e.seqNo != |entries| + 1
    ensures Replay(id, entries, events) == entries
    decreases |events|
  {
    if events != [] { GapBlocksReplay(id, entries, events[1..]); }
  }

  /** The transactions that recovery marks as committed. */
  predicate RecoveredCommit(d: Database, tx: Int64) { Commit(tx) in Events(d.wal) }

  lemma {:induction false} KeptEvent(d: Database, wal: seq<Segment>, retainFrom: Option<nat>, e: Event)
    ensures e in Events(Keep(d, wal, retainFrom)) <==>
            exists s :: s in wal && !Obsolete(d, s, retainFrom) && e in s.events
  {
    hide Flatten, Events, Obsolete;
    if wal == [] {
      NoEvents();
    } else {
      var front, last := wal[..|wal| - 1], wal[|wal| - 1];
      KeptEvent(d, front, retainFrom, e);
      assert wal == front + [last];
      EventsAppend(Keep(d, front, retainFrom), last);
      if s :| s in wal && !Obsolete(d, s, retainFrom) && e in s.events && s in front {}
    }
  }

  lemma NoEvents()
    ensures Events([]) == []
  {}

  /** A commit survives a cleaning exactly when some segment with its event is kept; commit
      events count as persistent, so cleaning can forget that a transaction committed. */
  lemma CommitSurvivesExactly(d: Database, retainFrom: Option<nat>, tx: Int64)
    ensures RecoveredCommit(Apply(d, Clean(retainFrom)), tx) <==>
            exists s :: s in d.wal && !Obsolete(d, s, retainFrom) && Commit(tx) in s.events
  {
    KeptEvent(d, d.wal, retainFrom, Commit(tx));
  }

  /** One flushed upsert and its commit: the entry survives the cleaning, the commit does not. */
  lemma CleanForgetsCommit(id: Bytes, entry: Entry, tx: Int64)
    ensures var d := Database(map[id := Storage([entry], 1)],
                              [Segment(0, [Upsert(id, 1, entry.key, entry.value), Commit(tx)])], 0);
            Inv(d) && RecoveredCommit(d, tx)
            && !RecoveredCommit(Apply(d, Clean(None)), tx) && Recover(Apply(d, Clean(None))) == d.storages
  {
    var events := [Upsert(id, 1, entry.key, entry.value), Commit(tx)];
    var d := Database(map[id := Storage([entry], 1)], [Segment(0, events)], 0);
    EventsAppend([], Segment(0, events));
    NoEvents();
    assert [] + [Segment(0, events)] == [Segment(0, events)] && [] + events == events;
    assert Events(d.wal) == events && events[1] == Commit(tx);
    NothingPending(id, 1, events);
    assert Obsolete(d, Segment(0, events), None);
    CommitSurvivesExactly(d, None, tx);
    CleanKeeps(d, None);
    RecoveryIsExact(d);
  }
}
