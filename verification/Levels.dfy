/** The levels of a tree, oldest first, and what reading them newest first returns. */
module Levels {
  import opened ByteStrings
  import opened Sequences
  import opened Records

  // ----- the log: records in the order of their sequence numbers

  ghost predicate Chronological(log: seq<Record>) {
    forall i, j :: 0 <= i < j < |log| ==> log[i].seqNo < log[j].seqNo
  }

  ghost function InsertBySeq(log: seq<Record>, r: Record): (t: seq<Record>)
    ensures multiset(t) == multiset(log) + multiset{r}
  {
    if log == [] || r.seqNo >= log[|log| - 1].seqNo then log + [r]
    else
      assert log == log[..|log| - 1] + [log[|log| - 1]];
      InsertBySeq(log[..|log| - 1], r) + [log[|log| - 1]]
  }

  /** The records ordered by sequence number. */
  ghost function Chronicle(rs: seq<Record>): (t: seq<Record>)
    ensures multiset(t) == multiset(rs)
  {
    if rs == [] then []
    else
      assert rs == rs[..|rs| - 1] + [rs[|rs| - 1]];
      InsertBySeq(Chronicle(rs[..|rs| - 1]), rs[|rs| - 1])
  }

  ghost predicate Ascending(log: seq<Record>) {
    forall i, j :: 0 <= i < j < |log| ==> log[i].seqNo <= log[j].seqNo
  }

  lemma {:induction false} InsertAscends(log: seq<Record>, r: Record)
    requires Ascending(log)
    ensures Ascending(InsertBySeq(log, r))
  {
    if log != [] && r.seqNo < log[|log| - 1].seqNo {
      var front, last := log[..|log| - 1], log[|log| - 1];
      InsertAscends(front, r);
      forall x | x in InsertBySeq(front, r) ensures x.seqNo <= last.seqNo {
        assert x in multiset(InsertBySeq(front, r));
        assert x == r || x in front;
      }
    }
  }

  lemma {:induction false} ChronicleAscends(rs: seq<Record>)
    ensures Ascending(Chronicle(rs))
  {
    if rs != [] {
      ChronicleAscends(rs[..|rs| - 1]);
      InsertAscends(Chronicle(rs[..|rs| - 1]), rs[|rs| - 1]);
    }
  }

  lemma MultisetLast<T>(s: seq<T>)
    requires s != []
    ensures multiset(s[..|s| - 1]) == multiset(s) - multiset{s[|s| - 1]}
  {
    assert s == s[..|s| - 1] + [s[|s| - 1]];
  }

  lemma ChronologyLast(a: seq<Record>, b: seq<Record>)
    requires Chronological(a) && Ascending(b) && multiset(a) == multiset(b) && a != [] && b != []
    ensures a[|a| - 1] == b[|b| - 1]
  {
    var x, y := a[|a| - 1], b[|b| - 1];
    assert x in multiset(b) && y in multiset(a);
    var i :| 0 <= i < |a| && a[i] == y;
    var j :| 0 <= j < |b| && b[j] == x;
  }

  /** Only one arrangement of distinct sequence numbers ascends. */
  lemma {:induction false} ChronologyUnique(a: seq<Record>, b: seq<Record>)
    requires Chronological(a) && Ascending(b) && multiset(a) == multiset(b)
    ensures a == b
  {
    SameLength(a, b);
    if a != [] {
      ChronologyLast(a, b);
      MultisetLast(a);
      MultisetLast(b);
      ChronologyUnique(a[..|a| - 1], b[..|b| - 1]);
      assert a == a[..|a| - 1] + [a[|a| - 1]] && b == b[..|b| - 1] + [b[|b| - 1]];
    }
  }

  lemma SameLength<T>(a: seq<T>, b: seq<T>)
    requires multiset(a) == multiset(b)
    ensures |a| == |b|
  {
    assert |multiset(a)| == |a| && |multiset(b)| == |b|;
  }

  lemma ChronicleIs(rs: seq<Record>, log: seq<Record>)
    requires Chronological(log) && multiset(rs) == multiset(log)
    ensures Chronicle(rs) == log
  {
    ChronicleAscends(rs);
    ChronologyUnique(log, Chronicle(rs));
  }

  // ----- levels

  ghost predicate SeqsBelow(a: seq<Record>, b: seq<Record>) {
    forall x, y :: x in a && y in b ==> x.seqNo < y.seqNo
  }

  /** Each level is sorted, and a newer level has only larger sequence numbers. */
  ghost predicate Ordered(levels: seq<seq<Record>>) {
    && (forall i :: 0 <= i < |levels| ==> Sorted(levels[i]))
    && (forall i, j :: 0 <= i < j < |levels| ==> SeqsBelow(levels[i], levels[j]))
  }

  lemma OrderedFront(levels: seq<seq<Record>>)
    requires Ordered(levels) && levels != []
    ensures Ordered(levels[..|levels| - 1])
    ensures SeqsBelow(Flatten(levels[..|levels| - 1]), levels[|levels| - 1])
  {
    var front, last := levels[..|levels| - 1], levels[|levels| - 1];
    assert forall i :: 0 <= i < |front| ==> front[i] == levels[i];
    forall x, y | x in Flatten(front) && y in last ensures x.seqNo < y.seqNo {
      FlattenMember(front, x);
      var i :| 0 <= i < |front| && x in front[i];
      assert SeqsBelow(levels[i], levels[|levels| - 1]);
    }
  }

  lemma OrderedAppend(levels: seq<seq<Record>>, level: seq<Record>)
    requires Ordered(levels) && Sorted(level) && SeqsBelow(Flatten(levels), level)
    ensures Ordered(levels + [level])
  {
    var all := levels + [level];
    forall i, j | 0 <= i < j < |all| ensures SeqsBelow(all[i], all[j]) {
      if j == |levels| {
        forall x | x in levels[i] ensures x in Flatten(levels) { FlattenMember(levels, x); }
      }
    }
  }

  // ----- counting

  lemma {:induction false} SelectCounts(rs: seq<Record>, range: Range, x: Record)
    ensures multiset(Select(rs, range))[x] == if InRange(range, x.key) then multiset(rs)[x] else 0
  {
    if rs != [] {
      SelectCounts(rs[1..], range, x);
      MultisetFirst(rs);
    }
  }

  lemma SelectSame(a: seq<Record>, b: seq<Record>, range: Range)
    requires multiset(a) == multiset(b)
    ensures multiset(Select(a, range)) == multiset(Select(b, range))
  {
    forall x ensures multiset(Select(a, range))[x] == multiset(Select(b, range))[x] {
      SelectCounts(a, range, x);
      SelectCounts(b, range, x);
    }
  }

  /** Any two sorted arrangements of the same records scan alike. */
  lemma ScansAgree(a: seq<Record>, b: seq<Record>, range: Range)
    requires Sorted(a) && multiset(a) == multiset(Select(b, range)) && Sorted(b)
    ensures a == Select(b, range)
  {
    SelectSorted(b, range);
    SortedUnique(a, Select(b, range));
  }

  /** The part of every level that a range scan reads. */
  function SelectEach(levels: seq<seq<Record>>, range: Range): (r: seq<seq<Record>>)
    ensures |r| == |levels| && forall i :: 0 <= i < |r| ==> r[i] == Select(levels[i], range)
  {
    seq(|levels|, i requires 0 <= i < |levels| => Select(levels[i], range))
  }

  lemma {:induction false} FlattenSelectEach(levels: seq<seq<Record>>, range: Range)
    ensures Flatten(SelectEach(levels, range)) == Select(Flatten(levels), range)
  {
    if levels != [] {
      var front := levels[..|levels| - 1];
      FlattenSelectEach(front, range);
      assert SelectEach(levels, range)[..|front|] == SelectEach(front, range);
      SelectConcat(Flatten(front), levels[|levels| - 1], range);
    }
  }

  // ----- the newest-first walk for one key

  function KeyWalk(levels: seq<seq<Record>>, key: Bytes): seq<Record> {
    if levels == [] then []
    else Select(levels[|levels| - 1], KeyRange(key)) + KeyWalk(levels[..|levels| - 1], key)
  }

  lemma {:induction false} KeyWalkContents(levels: seq<seq<Record>>, key: Bytes)
    ensures multiset(KeyWalk(levels, key)) == multiset(Select(Flatten(levels), KeyRange(key)))
  {
    if levels != [] {
      var front := levels[..|levels| - 1];
      KeyWalkContents(front, key);
      SelectConcat(Flatten(front), levels[|levels| - 1], KeyRange(key));
    }
  }

  lemma SortedConcat(a: seq<Record>, b: seq<Record>)
    requires Sorted(a) && Sorted(b) && forall x, y :: x in a && y in b ==> !Before(y, x)
    ensures Sorted(a + b)
  {
    var s := a + b;
    forall i, j | 0 <= i < j < |s| ensures !Before(s[j], s[i]) {
      if i < |a| <= j { assert s[i] in a && s[j] in b; }
    }
  }

  lemma {:induction false} KeyWalkSorted(levels: seq<seq<Record>>, key: Bytes)
    requires Ordered(levels)
    ensures Sorted(KeyWalk(levels, key))
  {
    if levels != [] {
      var front, last := levels[..|levels| - 1], levels[|levels| - 1];
      OrderedFront(levels);
      KeyWalkSorted(front, key);
      SelectSorted(last, KeyRange(key));
      KeyWalkContents(front, key);
      var older := KeyWalk(front, key);
      forall x, y | x in Select(last, KeyRange(key)) && y in older ensures !Before(y, x) {
        assert y in multiset(older);
        assert y in Select(Flatten(front), KeyRange(key));
        InKeyRange(key, x.key);
        InKeyRange(key, y.key);
      }
      SortedConcat(Select(last, KeyRange(key)), older);
    }
  }

  /** The walk over the levels returns what a merge of all levels returns for that key. */
  lemma KeyWalkIsMerge(levels: seq<seq<Record>>, merged: seq<Record>, key: Bytes)
    requires Ordered(levels) && Sorted(merged) && multiset(merged) == multiset(Flatten(levels))
    ensures KeyWalk(levels, key) == Select(merged, KeyRange(key))
  {
    KeyWalkSorted(levels, key);
    KeyWalkContents(levels, key);
    SelectSame(merged, Flatten(levels), KeyRange(key));
    ScansAgree(KeyWalk(levels, key), merged, KeyRange(key));
  }

  /** Without ordered levels the walk can return an old version first. */
  lemma KeyWalkNeedsOrder()
    ensures exists levels, key ::
              && (forall i :: 0 <= i < |levels| ==> Sorted(levels[i])) && Flatten(levels) != []
              && !Sorted(KeyWalk(levels, key))
  {
    var older, newer := Record([], 1, []), Record([], 2, []);
    var levels := [[newer], [older]];
    assert levels[..1] == [[newer]];
    assert KeyWalk([[newer]], []) == Select([newer], KeyRange([])) + KeyWalk([[newer]][..0], []);
    assert Select([newer], KeyRange([])) == [newer] && Select([older], KeyRange([])) == [older];
    assert KeyWalk(levels, []) == [older] + ([newer] + []);
    assert Before(KeyWalk(levels, [])[1], KeyWalk(levels, [])[0]);
    assert Flatten(levels) == Flatten(levels[..1]) + [older];
  }

  // ----- the meaning of a tree: a map from keys to the value last put

  function LastValue(log: seq<Record>, key: Bytes): Option<Bytes> {
    if log == [] then None
    else if log[|log| - 1].key == key then Some(log[|log| - 1].value)
    else LastValue(log[..|log| - 1], key)
  }

  /** All versions of a key, newest first. */
  function Versions(log: seq<Record>, key: Bytes): seq<Record> {
    if log == [] then []
    else if log[|log| - 1].key == key then [log[|log| - 1]] + Versions(log[..|log| - 1], key)
    else Versions(log[..|log| - 1], key)
  }

  lemma {:induction false} VersionsContents(log: seq<Record>, key: Bytes)
    ensures multiset(Versions(log, key)) == multiset(Select(log, KeyRange(key)))
    ensures forall r :: r in Versions(log, key) ==> r in log && r.key == key
  {
    if log != [] {
      var front, last := log[..|log| - 1], log[|log| - 1];
      VersionsContents(front, key);
      assert log == front + [last];
      SelectConcat(front, [last], KeyRange(key));
      InKeyRange(key, last.key);
      assert [last][1..] == [];
    }
  }

  lemma {:induction false} VersionsNewestFirst(log: seq<Record>, key: Bytes)
    requires Chronological(log)
    ensures Sorted(Versions(log, key))
    ensures LastValue(log, key) == if Versions(log, key) == [] then None else Some(Versions(log, key)[0].value)
  {
    if log != [] {
      var front, last := log[..|log| - 1], log[|log| - 1];
      VersionsNewestFirst(front, key);
      VersionsContents(front, key);
      if last.key == key { SortedCons(last, Versions(front, key)); }
    }
  }

  /** Reading the levels newest first gives the versions of a key newest first; the
      first of them is the value last put. */
  lemma KeyWalkIsVersions(levels: seq<seq<Record>>, log: seq<Record>, key: Bytes)
    requires Ordered(levels) && Chronological(log) && multiset(log) == multiset(Flatten(levels))
    ensures KeyWalk(levels, key) == Versions(log, key)
    ensures LastValue(log, key) == if KeyWalk(levels, key) == [] then None else Some(KeyWalk(levels, key)[0].value)
  {
    VersionsNewestFirst(log, key);
    VersionsContents(log, key);
    KeyWalkSorted(levels, key);
    KeyWalkContents(levels, key);
    SelectSame(log, Flatten(levels), KeyRange(key));
    SortedUnique(KeyWalk(levels, key), Versions(log, key));
  }
}
