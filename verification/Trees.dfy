/** The log-structured merge tree as a value: what Put, Flush and Compact keep. */
module Trees {
  import opened ByteStrings
  import opened Sequences
  import opened Records
  import opened Levels
  import opened SSTables

  /** Tables and frozen mem tables are listed oldest first. */
  datatype Tree = Tree(
    tables: seq<seq<Record>>,
    frozen: seq<seq<Record>>,
    mem: seq<Record>,
    next: int,
    persisted: int)

  function AllLevels(t: Tree): seq<seq<Record>> { t.tables + t.frozen + [t.mem] }

  ghost function Contents(t: Tree): seq<Record> { Flatten(AllLevels(t)) }

  /** The records of the tree in the order they were put. */
  ghost function Log(t: Tree): seq<Record> { Chronicle(Contents(t)) }

  ghost predicate UniqueSeqs(rs: seq<Record>) { Chronological(Chronicle(rs)) }

  ghost predicate SeqsIn(rs: seq<Record>, lo: int, hi: int) {
    forall r :: r in rs ==> lo <= r.seqNo < hi
  }

  /** Levels ordered oldest to newest, each sequence number once, tables at most
      `persisted` and mem tables above it. */
  ghost predicate Ok(t: Tree, pageSize: nat) {
    && Ordered(AllLevels(t)) && UniqueSeqs(Contents(t)) && AllFit(Contents(t), pageSize)
    && 0 <= t.persisted < t.next <= MAX_INT64 + 1
    && SeqsIn(Flatten(t.tables), 1, t.persisted + 1)
    && SeqsIn(Flatten(t.frozen + [t.mem]), t.persisted + 1, t.next)
  }

  lemma ContentsSplit(t: Tree)
    ensures Contents(t) == Flatten(t.tables) + Flatten(t.frozen) + t.mem
    ensures Flatten(t.frozen + [t.mem]) == Flatten(t.frozen) + t.mem
    ensures Contents(t) == Flatten(t.tables) + Flatten(t.frozen + [t.mem])
  {
    hide Flatten;
    FlattenAppend(t.tables + t.frozen, t.mem);
    FlattenConcat(t.tables, t.frozen);
    FlattenAppend(t.frozen, t.mem);
  }

  lemma OkBounds(t: Tree, pageSize: nat)
    requires Ok(t, pageSize)
    ensures SeqsIn(Contents(t), 1, t.next) && SeqsIn(Log(t), 1, t.next)
    ensures Chronological(Log(t)) && multiset(Log(t)) == multiset(Contents(t))
  {
    ContentsSplit(t);
    forall r | r in Log(t) ensures r in Contents(t) {
      assert r in multiset(Log(t));
    }
  }

  /** Distinct sequence numbers bound the number of records. */
  lemma {:induction false} ChronologyIsShort(log: seq<Record>, hi: int)
    requires Chronological(log) && SeqsIn(log, 1, hi) && hi >= 1
    ensures |log| < hi
  {
    if log != [] {
      var front, last := log[..|log| - 1], log[|log| - 1];
      forall r | r in front ensures 1 <= r.seqNo < last.seqNo {
        var i :| 0 <= i < |front| && front[i] == r;
        assert log[i] in log;
      }
      ChronologyIsShort(front, last.seqNo);
    }
  }

  // ----- Put

  function PutTree(t: Tree, key: Bytes, value: Bytes, maxRecords: nat): Tree
    requires MIN_INT64 <= t.next <= MAX_INT64
  {
    var mem := Insert(t.mem, Record(key, t.next, value));
    if |mem| > maxRecords then Tree(t.tables, t.frozen + [mem], [], t.next + 1, t.persisted)
    else Tree(t.tables, t.frozen, mem, t.next + 1, t.persisted)
  }

  /** A put appends one record to the log and keeps every invariant, frozen or not. */
  lemma PutKeeps(t: Tree, key: Bytes, value: Bytes, maxRecords: nat, pageSize: nat)
    requires Ok(t, pageSize) && t.next <= MAX_INT64 && RecordFits(Record(key, t.next, value), pageSize)
    ensures Ok(PutTree(t, key, value, maxRecords), pageSize)
    ensures Log(PutTree(t, key, value, maxRecords)) == Log(t) + [Record(key, t.next, value)]
  {
    hide Insert, Select, Flatten, Chronicle;
    var r := Record(key, t.next, value);
    var u := t.(mem := Insert(t.mem, r), next := t.next + 1);
    PutIntoMem(t, r, pageSize);
    if |u.mem| > maxRecords {
      FreezeKeeps(u, pageSize);
    }
  }

  lemma PutIntoMem(t: Tree, r: Record, pageSize: nat)
    requires Ok(t, pageSize) && r.seqNo == t.next && RecordFits(r, pageSize)
    ensures Ok(t.(mem := Insert(t.mem, r), next := t.next + 1), pageSize)
    ensures Log(t.(mem := Insert(t.mem, r), next := t.next + 1)) == Log(t) + [r]
  {
    hide Insert, Flatten, Chronicle, AllLevels, RecordFits;
    var u := t.(mem := Insert(t.mem, r), next := t.next + 1);
    ContentsSplit(t);
    ContentsSplit(u);
    OkBounds(t, pageSize);
    assert multiset(Contents(u)) == multiset(Log(t) + [r]);
    ChronicleIs(Contents(u), Log(t) + [r]);
    InsertMembers(t.mem, r);
    forall x | x in Contents(u) ensures x == r || x in Contents(t) {}
    assert Ordered(AllLevels(u)) by { PutOrdered(t, r); }
  }

  lemma InsertMembers(s: seq<Record>, r: Record)
    ensures forall x :: x in Insert(s, r) ==> x == r || x in s
  {
    forall x | x in Insert(s, r) ensures x == r || x in s {
      assert x in multiset(Insert(s, r));
    }
  }

  lemma PutOrdered(t: Tree, r: Record)
    requires Ordered(AllLevels(t)) && SeqsIn(Contents(t), 1, r.seqNo)
    ensures Ordered(AllLevels(t.(mem := Insert(t.mem, r), next := t.next + 1)))
  {
    var older := t.tables + t.frozen;
    assert AllLevels(t)[..|older|] == older;
    OrderedFront(AllLevels(t));
    InsertSorted(t.mem, r);
    InsertMembers(t.mem, r);
    FlattenAppend(older, t.mem);
    forall x: Record, y: Record | x in Flatten(older) && y in Insert(t.mem, r) ensures x.seqNo < y.seqNo {
      assert x in Contents(t);
    }
    OrderedAppend(older, Insert(t.mem, r));
  }

  /** Freezing moves the active mem table to the end of the frozen ones. */
  lemma FreezeKeeps(t: Tree, pageSize: nat)
    requires Ok(t, pageSize)
    ensures Ok(t.(frozen := t.frozen + [t.mem], mem := []), pageSize)
    ensures Log(t.(frozen := t.frozen + [t.mem], mem := [])) == Log(t)
  {
    hide Flatten, Chronicle;
    var u := t.(frozen := t.frozen + [t.mem], mem := []);
    assert AllLevels(u) == AllLevels(t) + [[]];
    FlattenAppend(AllLevels(t), []);
    FlattenAppend(t.frozen + [t.mem], []);
    OrderedAppend(AllLevels(t), []);
    assert Contents(u) == Contents(t);
  }

  // ----- Flush

  /** One round of the flush loop: the oldest frozen mem table becomes the newest table. */
  function FlushOne(t: Tree): Tree
    requires t.frozen != []
  {
    var m := MaxSeq(t.frozen[0]);
    Tree(t.tables + [t.frozen[0]], t.frozen[1..], t.mem, t.next, if t.persisted < m then m else t.persisted)
  }

  /** The whole flush loop. */
  function FlushAll(t: Tree): Tree
    decreases |t.frozen|
  {
    if t.frozen == [] then t else FlushAll(FlushOne(t))
  }

  /** What stays in memory is newer than all of the level that is flushed. */
  lemma FlushedIsOlder(t: Tree, pageSize: nat, y: Record)
    requires Ok(t, pageSize) && t.frozen != [] && y in Flatten(t.frozen[1..] + [t.mem])
    ensures forall x :: x in t.frozen[0] ==> x.seqNo < y.seqNo
  {
    hide Flatten, Chronicle;
    var level, newer := t.frozen[0], t.frozen[1..] + [t.mem];
    FlattenMember(newer, y);
    var j :| 0 <= j < |newer| && y in newer[j];
    assert AllLevels(t)[|t.tables|] == level && AllLevels(t)[|t.tables| + 1 + j] == newer[j];
    assert SeqsBelow(level, newer[j]);
  }

  /** Flushing changes no level list and no record, only what counts as persisted. */
  lemma FlushKeeps(t: Tree, pageSize: nat)
    requires Ok(t, pageSize) && t.frozen != []
    ensures Ok(FlushOne(t), pageSize)
    ensures AllLevels(FlushOne(t)) == AllLevels(t) && Log(FlushOne(t)) == Log(t)
  {
    hide Flatten, Chronicle, MaxSeq, Ordered, AllFit, UniqueSeqs;
    var u, level := FlushOne(t), t.frozen[0];
    var newer := t.frozen[1..] + [t.mem];
    assert t.frozen == [level] + t.frozen[1..];
    assert t.frozen + [t.mem] == [level] + newer;
    FlattenCons(level, newer);
    FlattenAppend(t.tables, level);
    MaxSeqIsMax(level);
    assert AllLevels(u) == AllLevels(t);
    forall y: Record | y in Flatten(newer) ensures u.persisted + 1 <= y.seqNo < t.next {
      FlushedIsOlder(t, pageSize, y);
    }
  }

  // ----- Compact

  /** `out` keeps some of the records of `rs`, in order, with their key and sequence
      number; a compaction strategy may rewrite values. */
  ghost predicate Thins(rs: seq<Record>, out: seq<Record>) {
    || out == []
    || (rs != [] && (Thins(rs[1..], out)
                     || (rs[0].key == out[0].key && rs[0].seqNo == out[0].seqNo && Thins(rs[1..], out[1..]))))
  }

  function CompactTree(t: Tree, out: seq<Record>): Tree { t.(tables := [out]) }

  ghost predicate DistinctSeqs(rs: seq<Record>) {
    forall i, j :: 0 <= i < j < |rs| ==> rs[i].seqNo != rs[j].seqNo
  }

  lemma {:induction false} ThinsMember(rs: seq<Record>, out: seq<Record>, k: nat) returns (i: nat)
    requires Thins(rs, out) && k < |out|
    ensures i < |rs| && rs[i].key == out[k].key && rs[i].seqNo == out[k].seqNo
  {
    if Thins(rs[1..], out) {
      i := ThinsMember(rs[1..], out, k);
      i := i + 1;
    } else if k == 0 {
      i := 0;
    } else {
      i := ThinsMember(rs[1..], out[1..], k - 1);
      i := i + 1;
    }
  }

  lemma {:induction false} ThinsOrder(rs: seq<Record>, out: seq<Record>)
    requires Thins(rs, out) && Sorted(rs) && DistinctSeqs(rs)
    ensures Sorted(out) && DistinctSeqs(out)
  {
    if out != [] {
      SortedTail(rs);
      if Thins(rs[1..], out) {
        ThinsOrder(rs[1..], out);
      } else {
        ThinsOrder(rs[1..], out[1..]);
        ThinsHead(rs, out);
        SortedCons(out[0], out[1..]);
        assert out == [out[0]] + out[1..];
      }
    }
  }

  lemma ThinsHead(rs: seq<Record>, out: seq<Record>)
    requires rs != [] && out != [] && Thins(rs[1..], out[1..]) && Sorted(rs) && DistinctSeqs(rs)
    requires rs[0].key == out[0].key && rs[0].seqNo == out[0].seqNo
    ensures forall x :: x in out[1..] ==> !Before(x, out[0]) && x.seqNo != out[0].seqNo
  {
    forall x | x in out[1..] ensures !Before(x, out[0]) && x.seqNo != out[0].seqNo {
      var k :| 0 <= k < |out[1..]| && out[1..][k] == x;
      var i := ThinsMember(rs[1..], out[1..], k);
      assert rs[1..][i] == rs[i + 1] && !Before(rs[i + 1], rs[0]);
    }
  }

  lemma {:induction false} DistinctIsUnique(rs: seq<Record>)
    requires DistinctSeqs(rs)
    ensures UniqueSeqs(rs)
  {
    if rs != [] {
      var front, last := rs[..|rs| - 1], rs[|rs| - 1];
      DistinctIsUnique(front);
      ChronicleAscends(rs);
      var log := Chronicle(front);
      forall x | x in log ensures x.seqNo != last.seqNo {
        assert x in multiset(log);
        assert x in front;
      }
      InsertDistinct(log, last);
    }
  }

  lemma {:induction false} InsertDistinct(log: seq<Record>, r: Record)
    requires Chronological(log) && forall x :: x in log ==> x.seqNo != r.seqNo
    ensures Chronological(InsertBySeq(log, r))
  {
    if log != [] && r.seqNo < log[|log| - 1].seqNo {
      var front, last := log[..|log| - 1], log[|log| - 1];
      InsertDistinct(front, r);
      forall x | x in InsertBySeq(front, r) ensures x.seqNo < last.seqNo {
        assert x in multiset(InsertBySeq(front, r));
        assert x == r || x in front;
      }
    } else if log != [] {
      assert log[|log| - 1] in log;
    }
  }

  lemma {:induction false} CountInChronology(log: seq<Record>, x: Record)
    requires Chronological(log)
    ensures multiset(log)[x] <= 1
  {
    if log != [] {
      var front, last := log[..|log| - 1], log[|log| - 1];
      CountInChronology(front, x);
      MultisetLast(log);
    }
  }

  lemma UniqueIsDistinct(rs: seq<Record>)
    requires UniqueSeqs(rs)
    ensures DistinctSeqs(rs)
  {
    var log := Chronicle(rs);
    forall i, j | 0 <= i < j < |rs| ensures rs[i].seqNo != rs[j].seqNo {
      if rs[i] == rs[j] {
        CountInChronology(log, rs[i]);
        CountTwice(rs, i, j);
      } else {
        assert rs[i] in multiset(log) && rs[j] in multiset(log);
        var a :| 0 <= a < |log| && log[a] == rs[i];
        var b :| 0 <= b < |log| && log[b] == rs[j];
        assert a < b || b < a;
      }
    }
  }

  lemma CountTwice(rs: seq<Record>, i: nat, j: nat)
    requires i < j < |rs| && rs[i] == rs[j]
    ensures multiset(rs)[rs[i]] >= 2
  {
    assert rs == rs[..j] + [rs[j]] + rs[j + 1..];
    assert rs[i] == rs[..j][i];
  }

  /** Two chronological runs, the first below the second, form one log. */
  lemma ChronicleConcat(a: seq<Record>, b: seq<Record>)
    requires UniqueSeqs(a) && UniqueSeqs(b) && SeqsBelow(a, b)
    ensures Chronicle(a + b) == Chronicle(a) + Chronicle(b) && UniqueSeqs(a + b)
  {
    hide Chronicle;
    var x, y := Chronicle(a), Chronicle(b);
    forall i, j | 0 <= i < |x| && 0 <= j < |y| ensures x[i].seqNo < y[j].seqNo {
      assert x[i] in multiset(x) && y[j] in multiset(y);
      assert x[i] in a && y[j] in b;
    }
    ChronicleIs(a + b, x + y);
  }

  lemma UniqueParts(a: seq<Record>, b: seq<Record>)
    requires UniqueSeqs(a + b)
    ensures UniqueSeqs(a) && UniqueSeqs(b)
  {
    UniqueIsDistinct(a + b);
    forall i, j | 0 <= i < j < |a| ensures a[i].seqNo != a[j].seqNo {
      assert (a + b)[i] == a[i] && (a + b)[j] == a[j];
    }
    forall i, j | 0 <= i < j < |b| ensures b[i].seqNo != b[j].seqNo {
      assert (a + b)[|a| + i] == b[i] && (a + b)[|a| + j] == b[j];
    }
    DistinctIsUnique(a);
    DistinctIsUnique(b);
  }

  lemma CompactBelow(t: Tree, out: seq<Record>, pageSize: nat)
    requires Ok(t, pageSize) && SeqsIn(out, 1, t.persisted + 1)
    ensures SeqsBelow(out, Flatten(t.frozen + [t.mem]))
  {}

  lemma CompactOrdered(t: Tree, out: seq<Record>, pageSize: nat)
    requires Ok(t, pageSize) && Sorted(out) && SeqsIn(out, 1, t.persisted + 1)
    ensures Ordered(AllLevels(CompactTree(t, out)))
  {
    hide Flatten;
    var newer := t.frozen + [t.mem];
    var u := AllLevels(CompactTree(t, out));
    assert u == [out] + newer;
    assert AllLevels(t) == t.tables + newer;
    forall i | 0 <= i < |u| ensures Sorted(u[i]) {
      if i > 0 { assert u[i] == AllLevels(t)[|t.tables| + i - 1]; }
    }
    forall i, j | 0 <= i < j < |u| ensures SeqsBelow(u[i], u[j]) {
      assert u[j] == newer[j - 1] == AllLevels(t)[|t.tables| + j - 1];
      if i > 0 {
        assert u[i] == AllLevels(t)[|t.tables| + i - 1];
      } else {
        forall y | y in newer[j - 1] ensures y in Flatten(newer) { FlattenMember(newer, y); }
      }
    }
  }

  /** Replacing all tables by one that thins their sorted union keeps the invariants;
      a strategy that keeps everything keeps the log. */
  lemma CompactKeeps(t: Tree, merged: seq<Record>, out: seq<Record>, pageSize: nat)
    requires Ok(t, pageSize) && Sorted(merged) && multiset(merged) == multiset(Flatten(t.tables))
    requires Thins(merged, out) && AllFit(out, pageSize)
    ensures Ok(CompactTree(t, out), pageSize)
    ensures out == merged ==> Log(CompactTree(t, out)) == Log(t)
  {
    hide Flatten, Chronicle, Thins, Sorted;
    var u, newer := CompactTree(t, out), Flatten(t.frozen + [t.mem]);
    ContentsSplit(t);
    ContentsSplit(u);
    FlattenCons(out, []);
    FlattenNothing();
    assert Flatten([out]) == out by { assert [out] + [] == [out]; assert out + [] == out; }
    UniqueParts(Flatten(t.tables), newer);
    SameUnique(Flatten(t.tables), merged);
    UniqueIsDistinct(merged);
    ThinsOrder(merged, out);
    DistinctIsUnique(out);
    assert SeqsIn(out, 1, t.persisted + 1) by { ThinsSeqs(merged, out, Flatten(t.tables), 1, t.persisted + 1); }
    CompactBelow(t, out, pageSize);
    ChronicleConcat(out, newer);
    CompactOrdered(t, out, pageSize);
    assert AllFit(Contents(u), pageSize);
    if out == merged {
      assert multiset(Contents(u)) == multiset(Contents(t));
      ChronicleIs(Contents(u), Log(t));
    }
  }

  lemma FlattenNothing()
    ensures Flatten<Record>([]) == []
  {}

  lemma SameUnique(a: seq<Record>, b: seq<Record>)
    requires UniqueSeqs(a) && multiset(a) == multiset(b)
    ensures UniqueSeqs(b)
  {
    ChronicleIs(b, Chronicle(a));
  }

  lemma ThinsSeqs(merged: seq<Record>, out: seq<Record>, all: seq<Record>, lo: int, hi: int)
    requires Thins(merged, out) && multiset(merged) == multiset(all) && SeqsIn(all, lo, hi)
    ensures SeqsIn(out, lo, hi)
  {
    forall r | r in out ensures lo <= r.seqNo < hi {
      var k :| 0 <= k < |out| && out[k] == r;
      var i := ThinsMember(merged, out, k);
      assert merged[i] in multiset(all);
    }
  }
}
