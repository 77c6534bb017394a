/** A transactional table over the versions kept by the tree: what a transaction reads,
    what a scan lists, and what compaction does to both. */
module TxTables {
  import opened ByteStrings
  import opened Buffers
  import opened Records
  import opened Levels
  import opened Trees
  import opened SSTables
  import opened TxValues
  import opened FirstPerKey
  import opened TxStorage

  type Statuses = map<int, Status>

  predicate IsCommitted(status: Statuses, tx: int) { tx in status && status[tx] == Committed }

  predicate IsStarted(status: Statuses, tx: int) { tx in status && status[tx] == Started }

  // ----- Lookup

  predicate Visible(status: Statuses, reader: int, v: TxValue) {
    v.frozen || v.tx == reader || IsCommitted(status, v.tx)
  }

  function Sees(status: Statuses, reader: int): Record -> bool {
    (r: Record) => Visible(status, reader, Val(r))
  }

  /** The version a transaction reads: none, or its sequence number and value. */
  function Answer(rs: seq<Record>, status: Statuses, reader: int): Option<(Int64, Bytes)> {
    Live(First(rs, Sees(status, reader)))
  }

  function Live(seen: seq<Record>): Option<(Int64, Bytes)> {
    if seen == [] || Val(seen[0]).deleted then None else Some((seen[0].seqNo, Val(seen[0]).value))
  }

  function ValueOf(answer: Option<(Int64, Bytes)>): Option<Bytes> {
    match answer
    case None => None
    case Some(version) => Some(version.1)
  }

  function LookupIn(rs: seq<Record>, status: Statuses, reader: int): Option<Bytes> { ValueOf(Answer(rs, status, reader)) }

  /** The walk of a lookup that is suspended between versions: version `i` is judged by the
      statuses of that moment. */
  function AnswerOver(rs: seq<Record>, statuses: seq<Statuses>, reader: int): Option<(Int64, Bytes)>
    requires |statuses| == |rs|
  {
    if rs == [] then None
    else if Visible(statuses[0], reader, Val(rs[0])) then Live([rs[0]])
    else AnswerOver(rs[1..], statuses[1..], reader)
  }

  lemma {:induction false} OverIsAnswer(rs: seq<Record>, statuses: seq<Statuses>, status: Statuses, reader: int)
    requires |statuses| == |rs|
    requires forall i :: 0 <= i < |rs| ==> Visible(statuses[i], reader, Val(rs[i])) == Visible(status, reader, Val(rs[i]))
    ensures AnswerOver(rs, statuses, reader) == Answer(rs, status, reader)
  {
    hide Val, Visible;
    if rs != [] {
      var sees := Sees(status, reader);
      if sees(rs[0]) {
        assert FirstIndex(rs, sees) == 0;
      } else {
        FirstTail(rs, sees);
        OverIsAnswer(rs[1..], statuses[1..], status, reader);
      }
    }
  }

  /** Between `before` and `after` only transactions that were running have committed. */
  ghost predicate OnlyCommits(before: Statuses, after: Statuses) {
    forall tx :: (IsCommitted(before, tx) ==> IsCommitted(after, tx))
                 && (IsCommitted(after, tx) ==> IsCommitted(before, tx) || IsStarted(before, tx))
  }

  /** If only the newest version can belong to a transaction still running, commits during the walk
      make no difference: the lookup answers as of the moment it judged the newest version. */
  lemma LookupOfAnInstant(rs: seq<Record>, statuses: seq<Statuses>, reader: int)
    requires |statuses| == |rs| && rs != []
    requires forall i :: 0 <= i < |rs| ==> OnlyCommits(statuses[0], statuses[i])
    requires forall i :: 0 < i < |rs| ==> !IsStarted(statuses[0], Val(rs[i]).tx)
    ensures AnswerOver(rs, statuses, reader) == Answer(rs, statuses[0], reader)
  {
    hide Val, IsCommitted, IsStarted;
    forall i | 0 <= i < |rs|
      ensures Visible(statuses[i], reader, Val(rs[i])) == Visible(statuses[0], reader, Val(rs[i]))
    {
      assert OnlyCommits(statuses[0], statuses[i]);
      var tx := Val(rs[i]).tx;
      assert IsCommitted(statuses[0], tx) ==> IsCommitted(statuses[i], tx);
    }
    OverIsAnswer(rs, statuses, statuses[0], reader);
  }

  /** A lookup returns the newest version that is the reader's own, committed or frozen, and
      nothing if that version is a tombstone or there is none. */
  lemma AnswerIsNewest(rs: seq<Record>, key: Bytes, status: Statuses, reader: int, r: Record)
    requires Sorted(rs) && forall x :: x in rs ==> x.key == key
    requires r in rs && Visible(status, reader, Val(r))
    requires forall x :: x in rs && Visible(status, reader, Val(x)) && x != r ==> x.seqNo < r.seqNo
    ensures Answer(rs, status, reader) == if Val(r).deleted then None else Some((r.seqNo, Val(r).value))
  {
    FirstIsNewest(rs, key, Sees(status, reader));
    var n := FirstIndex(rs, Sees(status, reader));
    assert Sees(status, reader)(r);
    assert First(rs, Sees(status, reader)) == [rs[n]];
    assert rs[n] in rs && r.seqNo <= rs[n].seqNo;
  }

  // ----- Scan

  predicate Listed(status: Statuses, reader: int, v: TxValue) {
    (v.tx == reader || IsCommitted(status, v.tx)) && !v.deleted
  }

  function Lists(status: Statuses, reader: int): Record -> bool {
    (r: Record) => Listed(status, reader, Val(r))
  }

  function ScanIn(rs: seq<Record>, status: Statuses, reader: int): seq<Record> {
    OnePerKey(rs, Lists(status, reader), None)
  }

  ghost predicate FrozenAreCommitted(rs: seq<Record>, status: Statuses) {
    forall r :: r in rs && Val(r).frozen ==> IsCommitted(status, Val(r).tx)
  }

  /** The version on which Lookup decides is a tombstone, and an older one is still listed. */
  predicate HiddenByTombstone(rs: seq<Record>, status: Statuses, reader: int) {
    var n := FirstIndex(rs, Sees(status, reader));
    n < |rs| && Val(rs[n]).deleted && First(rs, Lists(status, reader)) != []
  }

  lemma FirstListed(rs: seq<Record>, status: Statuses, reader: int)
    requires FrozenAreCommitted(rs, status)
    ensures Live(First(rs, Lists(status, reader))) == Answer(rs, status, reader)
            <==> !HiddenByTombstone(rs, status, reader)
    ensures First(rs, Lists(status, reader)) != [] ==> !Val(First(rs, Lists(status, reader))[0]).deleted
  {
    var n, k := FirstIndex(rs, Sees(status, reader)), FirstIndex(rs, Lists(status, reader));
    if k < |rs| {
      assert rs[k] in rs && Sees(status, reader)(rs[k]);
      assert n <= k;
    }
    if n < |rs| && !Val(rs[n]).deleted {
      assert rs[n] in rs && Lists(status, reader)(rs[n]);
      assert k <= n;
    }
  }

  /** A scan lists each key once, in ascending order, and for a key it shows what Lookup returns
      unless Lookup stops at a tombstone above an older version that the scan still lists. */
  lemma ScanIsLookup(rs: seq<Record>, key: Bytes, status: Statuses, reader: int)
    requires Sorted(rs) && FrozenAreCommitted(rs, status)
    ensures KeysAscend(ScanIn(rs, status, reader))
    ensures var versions := Select(rs, KeyRange(key));
            Live(Select(ScanIn(rs, status, reader), KeyRange(key))) == Answer(versions, status, reader)
            <==> !HiddenByTombstone(versions, status, reader)
  {
    hide OnePerKey, First, Sorted, HiddenByTombstone, Live;
    OnePerKeyAscends(rs, Lists(status, reader), None);
    PassIsFirst(rs, key, Lists(status, reader));
    FirstListed(Select(rs, KeyRange(key)), status, reader);
  }

  // ----- CompactRows

  predicate Kept(status: Statuses, v: TxValue) {
    !v.deleted && (IsCommitted(status, v.tx) || IsStarted(status, v.tx))
  }

  function Keeps(status: Statuses): Record -> bool {
    (r: Record) => Kept(status, Val(r))
  }

  function Rewrite(status: Statuses, r: Record): (x: Record)
    ensures x.key == r.key && x.seqNo == r.seqNo
  {
    if Parse(r.value).Success? && IsCommitted(status, Val(r).tx) then Freeze(r) else r
  }

  function RewriteAll(status: Statuses, rs: seq<Record>): (out: seq<Record>)
    ensures |out| == |rs| && forall i :: 0 <= i < |rs| ==> out[i] == Rewrite(status, rs[i])
  {
    seq(|rs|, i requires 0 <= i < |rs| => Rewrite(status, rs[i]))
  }

  /** What the strategy writes to the new table. */
  function CompactIn(rs: seq<Record>, status: Statuses): seq<Record> {
    RewriteAll(status, OnePerKey(rs, Keeps(status), None))
  }

  lemma RewriteKeepsMeaning(status: Statuses, reader: int, r: Record)
    ensures Visible(status, reader, Val(Rewrite(status, r))) == Visible(status, reader, Val(r))
    ensures Val(Rewrite(status, r)).(frozen := false) == Val(r).(frozen := false)
    ensures Val(Rewrite(status, r)).frozen ==> Val(r).frozen || IsCommitted(status, Val(r).tx)
    ensures Parse(r.value).Success? ==> Parse(Rewrite(status, r).value).Success?
    ensures |RecordBytes(Rewrite(status, r))| <= |RecordBytes(r)|
  {
    hide Parse, Freeze;
    if Parse(r.value).Success? { FreezeSetsTheFlag(r); }
  }

  lemma {:induction false} SelectRewrites(status: Statuses, rs: seq<Record>, range: Range)
    ensures Select(RewriteAll(status, rs), range) == RewriteAll(status, Select(rs, range))
  {
    hide Rewrite;
    if rs != [] {
      SelectRewrites(status, rs[1..], range);
      assert RewriteAll(status, rs)[1..] == RewriteAll(status, rs[1..]);
      assert Select(rs, range) == (if InRange(range, rs[0].key) then [rs[0]] else []) + Select(rs[1..], range);
    }
  }

  /** A tombstone that decides the lookup is dropped and an older version comes back. */
  predicate Resurrects(rs: seq<Record>, status: Statuses, reader: int) {
    var n, k := FirstIndex(rs, Sees(status, reader)), FirstIndex(rs, Keeps(status));
    n < |rs| && Val(rs[n]).deleted && n < k < |rs| && Visible(status, reader, Val(rs[k]))
  }

  /** A version of a transaction still running takes the only place of the one that is read. */
  predicate Displaces(rs: seq<Record>, status: Statuses, reader: int) {
    var n := FirstIndex(rs, Sees(status, reader));
    n < |rs| && !Val(rs[n]).deleted
    && exists i :: 0 <= i < n && !Val(rs[i]).deleted && IsStarted(status, Val(rs[i]).tx)
  }

  /** The version that is read belongs to a transaction rolled back or unknown, and is dropped. */
  predicate Drops(rs: seq<Record>, status: Statuses, reader: int) {
    var n := FirstIndex(rs, Sees(status, reader));
    n < |rs| && !Val(rs[n]).deleted && !IsCommitted(status, Val(rs[n]).tx) && !IsStarted(status, Val(rs[n]).tx)
  }

  /** Compacting these versions changes nothing for this reader. */
  predicate Harmless(rs: seq<Record>, status: Statuses, reader: int) {
    !Resurrects(rs, status, reader) && !Displaces(rs, status, reader) && !Drops(rs, status, reader)
  }

  lemma AnswerOfOne(x: Record, status: Statuses, reader: int)
    ensures Answer([x], status, reader)
         == if Visible(status, reader, Val(x)) && !Val(x).deleted then Some((x.seqNo, Val(x).value)) else None
  {
    assert FirstIndex([x], Sees(status, reader)) == if Sees(status, reader)(x) then 0 else 1;
  }

  /** What a lookup finds of one key in the compacted table. */
  lemma AnswerAfter(rs: seq<Record>, status: Statuses, reader: int)
    requires WellFormed(rs)
    ensures var k := FirstIndex(rs, Keeps(status));
            var found := if k < |rs| && Visible(status, reader, Val(rs[k])) then Some((rs[k].seqNo, Val(rs[k]).value)) else None;
            Answer(RewriteAll(status, First(rs, Keeps(status))), status, reader) == found
  {
    hide Parse, Rewrite, Val, Visible, FirstIndex;
    var k := FirstIndex(rs, Keeps(status));
    if k < |rs| {
      RewriteKeepsMeaning(status, reader, rs[k]);
      var x := Rewrite(status, rs[k]);
      assert RewriteAll(status, [rs[k]]) == [x];
      AnswerOfOne(x, status, reader);
    }
  }

  lemma BeforeTheVisible(rs: seq<Record>, status: Statuses, reader: int)
    requires WellFormed(rs)
    ensures var n, k := FirstIndex(rs, Sees(status, reader)), FirstIndex(rs, Keeps(status));
            && (k < n <==> exists i :: 0 <= i < n && !Val(rs[i]).deleted && IsStarted(status, Val(rs[i]).tx))
            && (n < |rs| && !Val(rs[n]).deleted ==>
                  (k <= n <==> k < n || IsCommitted(status, Val(rs[n]).tx) || IsStarted(status, Val(rs[n]).tx)))
            && (k < n ==> !Visible(status, reader, Val(rs[k])))
            && (n < |rs| && k == n ==> !Val(rs[n]).deleted)
  {
    hide Parse;
    var n, k := FirstIndex(rs, Sees(status, reader)), FirstIndex(rs, Keeps(status));
    if k < n {
      assert !Sees(status, reader)(rs[k]) && Keeps(status)(rs[k]);
      assert !IsCommitted(status, Val(rs[k]).tx);
    }
    if i :| 0 <= i < n && !Val(rs[i]).deleted && IsStarted(status, Val(rs[i]).tx) {
      assert rs[i] in rs && Keeps(status)(rs[i]);
      assert k <= i;
    }
    if n < |rs| {
      assert rs[n] in rs;
      assert Keeps(status)(rs[n]) == Kept(status, Val(rs[n]));
      assert Keeps(status)(rs[n]) ==> k <= n;
    }
  }

  lemma SameNumber(rs: seq<Record>, i: nat, j: nat)
    requires DistinctSeqs(rs) && i < |rs| && j < |rs| && rs[i].seqNo == rs[j].seqNo
    ensures i == j
  {}

  /** Compacting the versions of one key leaves a transaction's answer as it was exactly when
      nothing is resurrected, displaced or dropped. */
  lemma CompactKeyExactly(rs: seq<Record>, status: Statuses, reader: int)
    requires WellFormed(rs) && DistinctSeqs(rs)
    ensures Answer(RewriteAll(status, First(rs, Keeps(status))), status, reader) == Answer(rs, status, reader)
            <==> Harmless(rs, status, reader)
  {
    hide Parse, RewriteAll, Val, DistinctSeqs, WellFormed;
    AnswerAfter(rs, status, reader);
    var n, k := FirstIndex(rs, Sees(status, reader)), FirstIndex(rs, Keeps(status));
    ByPosition(rs, status, reader);
    if k < |rs| && n < |rs| && rs[k].seqNo == rs[n].seqNo { SameNumber(rs, k, n); }
    if n == |rs| && k < |rs| { assert !Sees(status, reader)(rs[k]); }
  }

  /** The three families, by where the version that is read and the one that is kept stand. */
  lemma ByPosition(rs: seq<Record>, status: Statuses, reader: int)
    requires WellFormed(rs)
    ensures var n, k := FirstIndex(rs, Sees(status, reader)), FirstIndex(rs, Keeps(status));
            && (n == |rs| ==> Harmless(rs, status, reader))
            && (n < |rs| && !Val(rs[n]).deleted ==> (Harmless(rs, status, reader) <==> k == n))
            && (n < |rs| && Val(rs[n]).deleted ==>
                  (Harmless(rs, status, reader) <==> !(k < |rs| && Visible(status, reader, Val(rs[k])))))
  {
    hide Parse, Val, WellFormed, Visible, FirstIndex;
    BeforeTheVisible(rs, status, reader);
  }

  // ----- the strategy inside the tree

  lemma {:induction false} OnePerKeyThins(rs: seq<Record>, status: Statuses, keep: Record -> bool, last: Option<Bytes>)
    ensures Thins(rs, RewriteAll(status, OnePerKey(rs, keep, last)))
  {
    hide Rewrite;
    if rs != [] {
      var taken := keep(rs[0]) && last != Some(rs[0].key);
      var rest := OnePerKey(rs[1..], keep, if taken then Some(rs[0].key) else last);
      OnePerKeyThins(rs[1..], status, keep, if taken then Some(rs[0].key) else last);
      if taken {
        var out := RewriteAll(status, [rs[0]] + rest);
        assert out[1..] == RewriteAll(status, rest);
        assert out[0] == Rewrite(status, rs[0]);
      }
    }
  }

  lemma CompactFits(rs: seq<Record>, status: Statuses, pageSize: nat)
    requires AllFit(rs, pageSize)
    ensures AllFit(CompactIn(rs, status), pageSize)
  {
    hide Rewrite, OnePerKey;
    var kept := OnePerKey(rs, Keeps(status), None);
    OnePerKeyMember(rs, Keeps(status), None);
    forall x | x in CompactIn(rs, status) ensures RecordFits(x, pageSize) {
      var i :| 0 <= i < |kept| && CompactIn(rs, status)[i] == x;
      assert kept[i] in rs;
      RewriteKeepsMeaning(status, 0, kept[i]);
    }
  }

  /** The part of a key's versions that compaction does not touch, newest first. */
  function NewerVersions(t: Tree, key: Bytes): seq<Record> { KeyWalk(t.frozen + [t.mem], key) }

  lemma WalkStep(levels: seq<seq<Record>>, level: seq<Record>, key: Bytes)
    ensures KeyWalk(levels + [level], key) == Select(level, KeyRange(key)) + KeyWalk(levels, key)
  {
    assert (levels + [level])[..|levels|] == levels;
  }

  lemma {:induction false} KeyWalkConcat(a: seq<seq<Record>>, b: seq<seq<Record>>, key: Bytes)
    ensures KeyWalk(a + b, key) == KeyWalk(b, key) + KeyWalk(a, key)
  {
    if b == [] {
      assert a + b == a;
    } else {
      hide Select, KeyWalk;
      var front, last := b[..|b| - 1], b[|b| - 1];
      KeyWalkConcat(a, front, key);
      assert b == front + [last] && a + b == (a + front) + [last];
      WalkStep(a + front, last, key);
      WalkStep(front, last, key);
      assert Select(last, KeyRange(key)) + (KeyWalk(front, key) + KeyWalk(a, key))
          == Select(last, KeyRange(key)) + KeyWalk(front, key) + KeyWalk(a, key);
    }
  }

  lemma WalkSplits(t: Tree, key: Bytes)
    ensures KeyWalk(AllLevels(t), key) == NewerVersions(t, key) + KeyWalk(t.tables, key)
  {
    assert AllLevels(t) == t.tables + (t.frozen + [t.mem]);
    KeyWalkConcat(t.tables, t.frozen + [t.mem], key);
  }

  lemma OneLevelWalk(out: seq<Record>, key: Bytes)
    ensures KeyWalk([out], key) == Select(out, KeyRange(key))
  {
    assert [out][..0] == [];
  }

  lemma AnswerConcat(a: seq<Record>, b: seq<Record>, status: Statuses, reader: int)
    ensures Answer(a + b, status, reader)
         == if First(a, Sees(status, reader)) != [] then Answer(a, status, reader) else Answer(b, status, reader)
  {
    FirstConcat(a, b, Sees(status, reader));
  }

  lemma TablesOrdered(t: Tree)
    requires Ordered(AllLevels(t))
    ensures Ordered(t.tables)
  {
    forall i | 0 <= i < |t.tables| ensures t.tables[i] == AllLevels(t)[i] {}
  }

  lemma {:induction false} SelectDistinct(rs: seq<Record>, range: Range)
    requires DistinctSeqs(rs)
    ensures DistinctSeqs(Select(rs, range))
  {
    if rs != [] {
      SelectDistinct(rs[1..], range);
      var rest := Select(rs[1..], range);
      forall x | x in rest ensures x.seqNo != rs[0].seqNo {
        var i :| 0 <= i < |rs[1..]| && rs[1..][i] == x;
      }
    }
  }

  /** A version in memory decides, or compacting the versions in the tables is harmless. */
  predicate Undisturbed(t: Tree, merged: seq<Record>, status: Statuses, reader: int, key: Bytes) {
    First(NewerVersions(t, key), Sees(status, reader)) != [] || Harmless(Select(merged, KeyRange(key)), status, reader)
  }

  /** Compaction of a tree leaves the answer to a transaction unchanged for a key exactly when a
      version in memory decides it, or nothing in the tables is resurrected, displaced or dropped. */
  lemma CompactTreeExactly(
    t: Tree, merged: seq<Record>, status: Statuses, reader: int, key: Bytes, pageSize: nat)
    requires Ok(t, pageSize) && Sorted(merged) && multiset(merged) == multiset(Sequences.Flatten(t.tables))
    requires WellFormed(merged)
    ensures var u := CompactTree(t, CompactIn(merged, status));
            Answer(KeyWalk(AllLevels(u), key), status, reader) == Answer(KeyWalk(AllLevels(t), key), status, reader)
            <==> Undisturbed(t, merged, status, reader, key)
  {
    hide Sequences.Flatten, Answer, First, Harmless, Sorted, OnePerKey, RewriteAll, KeyWalk, Select;
    var out, versions := CompactIn(merged, status), Select(merged, KeyRange(key));
    MergedDistinct(t, merged, pageSize);
    SelectDistinct(merged, KeyRange(key));
    CompactKeyExactly(versions, status, reader);
    PassIsFirst(merged, key, Keeps(status));
    SelectRewrites(status, OnePerKey(merged, Keeps(status), None), KeyRange(key));
    TablesOrdered(t);
    KeyWalkIsMerge(t.tables, merged, key);
    OneLevelWalk(out, key);
    WalkSplits(t, key);
    WalkSplits(CompactTree(t, out), key);
    AnswerConcat(NewerVersions(t, key), versions, status, reader);
    AnswerConcat(NewerVersions(t, key), Select(out, KeyRange(key)), status, reader);
  }

  lemma MergedDistinct(t: Tree, merged: seq<Record>, pageSize: nat)
    requires Ok(t, pageSize) && multiset(merged) == multiset(Sequences.Flatten(t.tables))
    ensures DistinctSeqs(merged)
  {
    hide Sequences.Flatten, Chronicle;
    ContentsSplit(t);
    UniqueParts(Sequences.Flatten(t.tables), Sequences.Flatten(t.frozen + [t.mem]));
    SameUnique(Sequences.Flatten(t.tables), merged);
    UniqueIsDistinct(merged);
  }

  /** Every row is live, and either committed or of no interest to the reader. */
  ghost predicate Settled(rs: seq<Record>, status: Statuses, reader: int) {
    forall r :: r in rs ==>
      var v := Val(r);
      !v.deleted && (IsCommitted(status, v.tx) || (!v.frozen && !IsStarted(status, v.tx) && v.tx != reader))
  }

  /** Tables without tombstones, rows of running transactions or frozen rows of forgotten ones
      are compacted without any effect on the reader. */
  lemma SettledIsUndisturbed(t: Tree, merged: seq<Record>, status: Statuses, reader: int, key: Bytes)
    requires Settled(merged, status, reader)
    ensures Undisturbed(t, merged, status, reader, key)
  {
    hide Val, Parse, NewerVersions, FirstIndex;
    var versions := Select(merged, KeyRange(key));
    var n := FirstIndex(versions, Sees(status, reader));
    assert forall i :: 0 <= i < |versions| ==> versions[i] in merged;
    if n < |versions| { assert versions[n] in merged && Sees(status, reader)(versions[n]); }
  }

  /** The new table holds at most one version of a key, and every row in it has the key and the
      sequence number of a row that was there. */
  lemma OneVersionPerKey(merged: seq<Record>, status: Statuses)
    requires Sorted(merged)
    ensures KeysAscend(CompactIn(merged, status))
    ensures forall x :: x in CompactIn(merged, status) ==>
              exists r :: r in merged && x == Rewrite(status, r) && x.seqNo == r.seqNo && Kept(status, Val(r))
  {
    hide Rewrite, OnePerKey, Sorted;
    var kept, out := OnePerKey(merged, Keeps(status), None), CompactIn(merged, status);
    OnePerKeyAscends(merged, Keeps(status), None);
    OnePerKeyMember(merged, Keeps(status), None);
    forall x | x in out
      ensures exists r :: r in merged && x == Rewrite(status, r) && x.seqNo == r.seqNo && Kept(status, Val(r))
    {
      var i :| 0 <= i < |out| && out[i] == x;
      assert kept[i] in merged && Keeps(status)(kept[i]);
    }
  }

  /** On settled tables every lookup of the reader, of any key, is as before. */
  lemma CompactionKeepsLookups(t: Tree, merged: seq<Record>, status: Statuses, reader: int, key: Bytes, pageSize: nat)
    requires Ok(t, pageSize) && Sorted(merged) && multiset(merged) == multiset(Sequences.Flatten(t.tables))
    requires WellFormed(merged) && Settled(merged, status, reader)
    ensures LookupIn(KeyWalk(AllLevels(CompactTree(t, CompactIn(merged, status))), key), status, reader)
         == LookupIn(KeyWalk(AllLevels(t), key), status, reader)
  {
    hide Ok, Sorted, Answer, KeyWalk, CompactIn, Undisturbed;
    SettledIsUndisturbed(t, merged, status, reader, key);
    CompactTreeExactly(t, merged, status, reader, key, pageSize);
  }

  // ----- what goes wrong otherwise, one family each

  function RowOf(key: Bytes, seqNo: Int64, v: TxValue): Record { Record(key, seqNo, Encode(v)) }

  lemma RowHolds(key: Bytes, seqNo: Int64, v: TxValue)
    requires |v.value| <= MAX_INT64
    ensures Parse(RowOf(key, seqNo, v).value) == Success(v) && Val(RowOf(key, seqNo, v)) == v
  {
    ValueRoundTrip(v);
  }

  /** A value deleted and committed comes back once its tombstone is compacted away, and a scan
      lists it even before. */
  lemma DeletedValueComesBack(key: Bytes, value: Bytes, w: Int64, d: Int64, status: Statuses, reader: int)
    requires |value| <= MAX_INT64 && IsCommitted(status, w) && IsCommitted(status, d)
    ensures var rs := [RowOf(key, 2, TxValue(d, true, false, [])), RowOf(key, 1, TxValue(w, false, false, value))];
            && Answer(rs, status, reader) == None
            && Answer(CompactIn(rs, status), status, reader) == Some((1, value))
            && ScanIn(rs, status, reader) == [rs[1]]
  {
    hide Encode, Parse;
    var deletion, row := RowOf(key, 2, TxValue(d, true, false, [])), RowOf(key, 1, TxValue(w, false, false, value));
    var rs := [deletion, row];
    RowHolds(key, 2, TxValue(d, true, false, []));
    RowHolds(key, 1, TxValue(w, false, false, value));
    OnePerKeyOfTwo(deletion, row, Keeps(status), None);
    OnePerKeyOfTwo(deletion, row, Lists(status, reader), None);
    assert CompactIn(rs, status) == [Rewrite(status, row)];
    RewriteKeepsMeaning(status, reader, row);
    AnswerOfOne(Rewrite(status, row), status, reader);
  }

  /** While a transaction is still running its version pushes the committed one out of the table. */
  lemma RunningWriterHidesCommitted(key: Bytes, value: Bytes, w: Int64, s: Int64, mine: Bytes, status: Statuses, reader: int)
    requires |value| <= MAX_INT64 && |mine| <= MAX_INT64
    requires IsCommitted(status, w) && IsStarted(status, s) && reader != s
    ensures var rs := [RowOf(key, 2, TxValue(s, false, false, mine)), RowOf(key, 1, TxValue(w, false, false, value))];
            && Answer(rs, status, reader) == Some((1, value))
            && Answer(CompactIn(rs, status), status, reader) == None
  {
    hide Encode, Parse;
    var running, row := RowOf(key, 2, TxValue(s, false, false, mine)), RowOf(key, 1, TxValue(w, false, false, value));
    var rs := [running, row];
    RowHolds(key, 2, TxValue(s, false, false, mine));
    RowHolds(key, 1, TxValue(w, false, false, value));
    assert rs[1..] == [row];
    OnePerKeyOfTwo(running, row, Keeps(status), Some(key));
    assert CompactIn(rs, status) == [running];
    AnswerOfOne(running, status, reader);
    assert FirstIndex([row], Sees(status, reader)) == 0;
  }

  /** A frozen row whose transaction is no longer known, as after a restart, is read by Lookup,
      left out by Scan and dropped by the next compaction. */
  lemma FrozenRowIsForgotten(key: Bytes, value: Bytes, w: Int64, status: Statuses, reader: int)
    requires |value| <= MAX_INT64 && w !in status && reader != w
    ensures var rs := [RowOf(key, 1, TxValue(w, false, true, value))];
            && Answer(rs, status, reader) == Some((1, value))
            && ScanIn(rs, status, reader) == []
            && CompactIn(rs, status) == []
  {
    hide Encode, Parse;
    var row := RowOf(key, 1, TxValue(w, false, true, value));
    RowHolds(key, 1, TxValue(w, false, true, value));
    OnePerKeyOfTwo(row, row, Keeps(status), None);
    OnePerKeyOfTwo(row, row, Lists(status, reader), None);
    AnswerOfOne(row, status, reader);
  }

  /** A row left behind by a transaction that never committed is invisible after the restart,
      until its id is issued again and that transaction commits. */
  lemma LeftoverIsAdopted(key: Bytes, value: Bytes, w: Int64, commits: seq<int>, reader: int)
    requires |value| <= MAX_INT64 && w >= INITIAL_TX && reader != w && forall c :: c in commits ==> c < w
    ensures var rs, status := [RowOf(key, 1, TxValue(w, false, false, value))], map tx | tx in commits :: Committed;
            && NextAfter(INITIAL_TX, commits) <= w
            && Answer(rs, status, reader) == None
            && Answer(rs, status[(w as int) := Started], w) == Some((1, value))
            && Answer(rs, status[(w as int) := Committed], reader) == Some((1, value))
  {
    hide Encode, Parse;
    var row, status := RowOf(key, 1, TxValue(w, false, false, value)), map tx | tx in commits :: Committed;
    RowHolds(key, 1, TxValue(w, false, false, value));
    IssuedAgainExactly(commits, w);
    AnswerOfOne(row, status, reader);
    AnswerOfOne(row, status[(w as int) := Started], w);
    AnswerOfOne(row, status[(w as int) := Committed], reader);
  }
}
