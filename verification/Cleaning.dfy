/** The log cleaner on files: it reads every segment, remembers which hold only persistent
    events and removes those files. */
module Cleaning {
  import opened ByteStrings
  import opened FileNames
  import opened WalEvents
  import opened WalFiles
  import opened Recovery

  ghost predicate AllPersistent(d: Database, events: seq<Event>) {
    forall e :: e in events ==> IsPersistent(d, e)
  }

  /** The segments of a directory, in the order of their names. */
  function Segments(files: map<nat, Bytes>, names: seq<nat>): (r: seq<Segment>)
    requires forall n :: n in names ==> n in files
    ensures |r| == |names|
    ensures forall i :: 0 <= i < |r| ==> r[i] == Segment(names[i], ReadSegment(files[names[i]]).events)
  {
    seq(|names|, i requires 0 <= i < |names| => Segment(names[i], ReadSegment(files[names[i]]).events))
  }

  class Cleaner {
    const db: Database
    var segmentPersistence: map<nat, bool>

    constructor (db: Database)
      ensures this.db == db && segmentPersistence == map[]
    {
      this.db, segmentPersistence := db, map[];
    }

    method AccumulatePersistence(segmentNo: nat, persistent: bool)
      modifies this
      ensures segmentPersistence == old(segmentPersistence)[segmentNo :=
                (segmentNo in old(segmentPersistence) ==> old(segmentPersistence)[segmentNo]) && persistent]
    {
      if segmentNo !in segmentPersistence {
        segmentPersistence := segmentPersistence[segmentNo := persistent];
        return;
      }
      segmentPersistence := segmentPersistence[segmentNo := segmentPersistence[segmentNo] && persistent];
    }

    /** The events of a segment not met before: marked if all are persistent, and not at all
        if there are none. */
    method OnEvents(segmentNo: nat, events: seq<Event>)
      requires segmentNo !in segmentPersistence
      modifies this
      ensures events == [] ==> segmentPersistence == old(segmentPersistence)
      ensures events != [] ==>
                segmentPersistence == old(segmentPersistence)[segmentNo := AllPersistent(db, events)]
    {
      hide IsPersistent;
      var i := 0;
      while i < |events|
        invariant 0 <= i <= |events|
        invariant i == 0 ==> segmentPersistence == old(segmentPersistence)
        invariant i > 0 ==>
                    segmentPersistence == old(segmentPersistence)[segmentNo := AllPersistent(db, events[..i])]
      {
        assert events[..i + 1] == events[..i] + [events[i]];
        AccumulatePersistence(segmentNo, IsPersistent(db, events[i]));
        i := i + 1;
      }
      assert events[..i] == events;
    }

    predicate Removes(segmentNo: nat, retainFrom: Option<nat>)
      reads this
    {
      && segmentNo in segmentPersistence && segmentPersistence[segmentNo]
      && !(retainFrom.Some? && segmentNo >= retainFrom.value)
    }

    method DeleteObsoleteSegments(files: map<nat, Bytes>, retainFrom: Option<nat>) returns (left: map<nat, Bytes>)
      ensures forall n :: n in left <==>
                n in files && ((n in segmentPersistence ==> !segmentPersistence[n])
                               || (retainFrom.Some? && n >= retainFrom.value))
      ensures forall n :: n in left ==> left[n] == files[n]
    {
      left := files;
      var todo := segmentPersistence.Keys;
      while todo != {}
        invariant todo <= segmentPersistence.Keys
        invariant left.Keys == set n | n in files && (n in todo || !Removes(n, retainFrom))
        invariant forall n :: n in left ==> left[n] == files[n]
        decreases todo
      {
        var n :| n in todo;
        if Removes(n, retainFrom) { left := left - {n}; }
        todo := todo - {n};
      }
    }
  }

  /** What the scan knows after reading a directory. */
  ghost predicate Scanned(cleaner: Cleaner, files: map<nat, Bytes>, names: set<nat>)
    requires names <= files.Keys
    reads cleaner
  {
    forall n :: n in cleaner.segmentPersistence <==> n in names && ReadSegment(files[n]).events != []
  }

  ghost predicate Judged(cleaner: Cleaner, files: map<nat, Bytes>, names: set<nat>)
    requires names <= files.Keys
    reads cleaner
  {
    forall n :: n in cleaner.segmentPersistence ==>
      n in names && cleaner.segmentPersistence[n] == AllPersistent(cleaner.db, ReadSegment(files[n]).events)
  }

  method ScanOne(cleaner: Cleaner, files: map<nat, Bytes>, ghost done: set<nat>, no: nat)
    requires done <= files.Keys && no in files && no !in done
    requires Scanned(cleaner, files, done) && Judged(cleaner, files, done)
    modifies cleaner
    ensures Scanned(cleaner, files, done + {no}) && Judged(cleaner, files, done + {no})
  {
    hide ReadSegment, AllPersistent;
    var r := ReadFile(files[no]);
    cleaner.OnEvents(no, r.events);
  }

  lemma NotYetListed(names: seq<nat>, i: nat)
    requires InNameOrder(names, WAL_SUFFIX) && i < |names|
    ensures names[i] !in names[..i]
  {
    LessIrreflexive(FileName(names[i], WAL_SUFFIX));
  }

  method ScanLog(cleaner: Cleaner, files: map<nat, Bytes>)
    requires cleaner.segmentPersistence == map[]
    modifies cleaner
    ensures Scanned(cleaner, files, files.Keys) && Judged(cleaner, files, files.Keys)
  {
    hide ReadSegment, AllPersistent, FileName, Less;
    var names := SortedNumbers(files.Keys, WAL_SUFFIX);
    var i := 0;
    ghost var done: set<nat> := {};
    while i < |names|
      invariant 0 <= i <= |names| && done <= files.Keys
      invariant forall n :: n in done <==> n in names[..i]
      invariant Scanned(cleaner, files, done) && Judged(cleaner, files, done)
    {
      var no := names[i];
      assert no in names && names[..i + 1] == names[..i] + [no];
      NotYetListed(names, i);
      ScanOne(cleaner, files, done, no);
      done := done + {no};
      i := i + 1;
    }
    assert names[..i] == names && done == files.Keys;
  }

  /** `left` is `files` without the obsolete segments among `names`. */
  ghost predicate Purged(
    d: Database, files: map<nat, Bytes>, left: map<nat, Bytes>, names: seq<nat>, retainFrom: Option<nat>)
    requires forall n :: n in names ==> n in files
  {
    forall n :: n in names ==>
      && (n in left <==> !Obsolete(d, Segment(n, ReadSegment(files[n]).events), retainFrom))
      && (n in left ==> left[n] == files[n])
  }

  lemma SegmentsAppend(files: map<nat, Bytes>, front: seq<nat>, last: nat)
    requires last in files && forall n :: n in front ==> n in files
    ensures Segments(files, front + [last]) == Segments(files, front) + [Segment(last, ReadSegment(files[last]).events)]
  {
    hide ReadSegment;
  }

  lemma KeepAppend(d: Database, front: seq<Segment>, s: Segment, retainFrom: Option<nat>)
    ensures Keep(d, front + [s], retainFrom)
         == Keep(d, front, retainFrom) + if Obsolete(d, s, retainFrom) then [] else [s]
  {
    assert (front + [s])[..|front|] == front;
  }

  lemma {:induction false} KeepIsFilter(
    d: Database, files: map<nat, Bytes>, left: map<nat, Bytes>, names: seq<nat>, retainFrom: Option<nat>)
    returns (kept: seq<nat>)
    requires InNameOrder(names, WAL_SUFFIX) && forall n :: n in names ==> n in files
    requires Purged(d, files, left, names, retainFrom)
    ensures InNameOrder(kept, WAL_SUFFIX) && (forall n :: n in kept <==> n in names && n in left)
    ensures Segments(left, kept) == Keep(d, Segments(files, names), retainFrom)
  {
    hide ReadSegment, Obsolete, Keep, Segments, FileName, Less;
    kept := [];
    if names == [] {
      NothingKept(d, files, left, retainFrom);
    } else {
      var front, last := names[..|names| - 1], names[|names| - 1];
      assert names == front + [last] && last in names;
      assert forall i :: 0 <= i < |front| ==> front[i] == names[i];
      var rest := KeepIsFilter(d, files, left, front, retainFrom);
      SegmentsAppend(files, front, last);
      KeepAppend(d, Segments(files, front), Segment(last, ReadSegment(files[last]).events), retainFrom);
      if last in left {
        SegmentsAppend(left, rest, last);
        kept := rest + [last];
        forall i | 0 <= i < |rest| ensures Less(FileName(kept[i], WAL_SUFFIX), FileName(last, WAL_SUFFIX)) {
          assert rest[i] in front;
          var k :| 0 <= k < |front| && front[k] == rest[i];
        }
      } else {
        kept := rest;
      }
    }
  }

  lemma NothingKept(d: Database, files: map<nat, Bytes>, left: map<nat, Bytes>, retainFrom: Option<nat>)
    ensures Segments(left, []) == Keep(d, Segments(files, []), retainFrom) == []
  {}

  /** An upsert of a storage that is unknown or has not written it to a table. */
  ghost predicate HoldsUnpersisted(d: Database, events: seq<Event>) {
    exists e :: e in events && e.Upsert? && (e.storage in d.storages ==> e.seqNo > d.storages[e.storage].persisted)
  }

  /** A segment goes exactly when it has events, no follower needs it, and each upsert in it is in
      a table of its storage. */
  lemma ObsoleteExactly(d: Database, s: Segment, retainFrom: Option<nat>)
    ensures Obsolete(d, s, retainFrom)
       <==> s.events != [] && !(retainFrom.Some? && s.no >= retainFrom.value) && !HoldsUnpersisted(d, s.events)
  {}

  /** Clean: exactly the obsolete segments are removed. The files left are the segments that the
      cleaning step keeps, so what a recovery rebuilds from the directory is what that step leaves. */
  method CleanFiles(d: Database, files: map<nat, Bytes>, retainFrom: Option<nat>)
    returns (left: map<nat, Bytes>, ghost names: seq<nat>, ghost kept: seq<nat>)
    ensures forall n :: n in left <==>
              n in files && !Obsolete(d, Segment(n, ReadSegment(files[n]).events), retainFrom)
    ensures forall n :: n in left <==>
              n in files && (ReadSegment(files[n]).events == [] || (retainFrom.Some? && n >= retainFrom.value)
                             || HoldsUnpersisted(d, ReadSegment(files[n]).events))
    ensures forall n :: n in left ==> left[n] == files[n]
    ensures Listing(names, files.Keys, WAL_SUFFIX) && Listing(kept, left.Keys, WAL_SUFFIX)
    ensures Segments(left, kept) == Keep(d, Segments(files, names), retainFrom)
  {
    hide ReadSegment, IsPersistent, Keep, FileName, Less;
    var cleaner := new Cleaner(d);
    ScanLog(cleaner, files);
    left := cleaner.DeleteObsoleteSegments(files, retainFrom);
    names := SortedNumbers(files.Keys, WAL_SUFFIX);
    kept := KeepIsFilter(d, files, left, names, retainFrom);
    forall n | n in files { ObsoleteExactly(d, Segment(n, ReadSegment(files[n]).events), retainFrom); }
  }
}
