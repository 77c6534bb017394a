/** Records, their order, key ranges and their byte form. */
module Records {
  import opened ByteStrings
  import opened Buffers

  datatype Record = Record(key: Bytes, seqNo: Int64, value: Bytes)

  /** Record::operator<: key ascending, then sequence number descending, then value. */
  predicate Before(a: Record, b: Record) {
    if a.key != b.key then Less(a.key, b.key)
    else if a.seqNo != b.seqNo then a.seqNo > b.seqNo
    else Less(a.value, b.value)
  }

  lemma BeforeIrreflexive(a: Record)
    ensures !Before(a, a)
  {
    LessIrreflexive(a.value);
  }

  lemma BeforeTotal(a: Record, b: Record)
    ensures a == b || Before(a, b) || Before(b, a)
  {
    LessTotal(a.key, b.key);
    LessTotal(a.value, b.value);
  }

  lemma BeforeTransitive(a: Record, b: Record, c: Record)
    requires Before(a, b) && Before(b, c)
    ensures Before(a, c)
  {
    if a.key == b.key == c.key {
      if a.seqNo == b.seqNo == c.seqNo { LessTransitive(a.value, b.value, c.value); }
    } else if a.key != b.key && b.key != c.key {
      LessTransitive(a.key, b.key, c.key);
      LessIrreflexive(c.key);
    }
  }

  lemma BeforeAsymmetric(a: Record, b: Record)
    requires Before(a, b)
    ensures !Before(b, a) && a != b
  {
    BeforeIrreflexive(a);
    if Before(b, a) { BeforeTransitive(a, b, a); }
  }

  /** The order of the tables: no record comes before an earlier one. */
  ghost predicate Sorted(s: seq<Record>) {
    forall i, j :: 0 <= i < j < |s| ==> !Before(s[j], s[i])
  }

  lemma NotAfterTransitive(a: Record, b: Record, c: Record)
    requires !Before(b, a) && !Before(c, b)
    ensures !Before(c, a)
  {
    if Before(c, a) {
      BeforeTotal(a, b);
      if a != b { BeforeTransitive(c, a, b); }
    }
  }

  lemma SortedTail(s: seq<Record>)
    requires Sorted(s) && s != []
    ensures Sorted(s[1..])
    ensures forall r :: r in s ==> !Before(r, s[0])
  {
    BeforeIrreflexive(s[0]);
  }

  /** Prepending something that no element precedes keeps a list sorted. */
  lemma SortedCons(r: Record, s: seq<Record>)
    requires Sorted(s) && forall x :: x in s ==> !Before(x, r)
    ensures Sorted([r] + s)
  {
    var t := [r] + s;
    forall i, j | 0 <= i < j < |t| ensures !Before(t[j], t[i]) {
      assert t[j] == s[j - 1];
      if i > 0 { assert t[i] == s[i - 1]; }
    }
  }

  lemma SortedKeys(s: seq<Record>, i: nat, j: nat)
    requires Sorted(s) && i < j < |s|
    ensures AtMost(s[i].key, s[j].key)
  {
    LessTotal(s[i].key, s[j].key);
  }

  lemma MultisetFirst(a: seq<Record>)
    requires a != []
    ensures multiset(a) == multiset{a[0]} + multiset(a[1..])
    ensures multiset(a[1..]) == multiset(a) - multiset{a[0]}
  {
    assert a == [a[0]] + a[1..];
  }

  lemma SortedHead(a: seq<Record>, b: seq<Record>)
    requires Sorted(a) && Sorted(b) && multiset(a) == multiset(b) && a != [] && b != []
    ensures a[0] == b[0]
  {
    assert a[0] in multiset(b) && b[0] in multiset(a);
    SortedTail(a);
    SortedTail(b);
    BeforeTotal(a[0], b[0]);
  }

  /** A multiset of records has one sorted arrangement. */
  lemma {:induction false} SortedUnique(a: seq<Record>, b: seq<Record>)
    requires Sorted(a) && Sorted(b) && multiset(a) == multiset(b)
    ensures a == b
  {
    assert |multiset(a)| == |a| && |multiset(b)| == |b|;
    if a != [] {
      SortedHead(a, b);
      MultisetFirst(a);
      MultisetFirst(b);
      SortedTail(a);
      SortedTail(b);
      SortedUnique(a[1..], b[1..]);
      assert a == [a[0]] + a[1..] && b == [b[0]] + b[1..];
    }
  }

  /** std::multiset::insert on the sorted contents of a mem table. */
  function Insert(s: seq<Record>, r: Record): (t: seq<Record>)
    ensures multiset(t) == multiset(s) + multiset{r} && |t| == |s| + 1
  {
    if s == [] then [r]
    else if Before(r, s[0]) then [r] + s
    else
      assert s == [s[0]] + s[1..];
      [s[0]] + Insert(s[1..], r)
  }

  lemma {:induction false} InsertSorted(s: seq<Record>, r: Record)
    requires Sorted(s)
    ensures Sorted(Insert(s, r))
  {
    if s == [] {
    } else {
      SortedTail(s);
      if Before(r, s[0]) {
        BeforeAsymmetric(r, s[0]);
        forall x | x in s ensures !Before(x, r) { NotAfterTransitive(r, s[0], x); }
        SortedCons(r, s);
      } else {
        InsertSorted(s[1..], r);
        forall x | x in Insert(s[1..], r) ensures !Before(x, s[0]) {
          assert x in multiset(Insert(s[1..], r));
          assert x == r || x in s[1..];
        }
        SortedCons(s[0], Insert(s[1..], r));
      }
    }
  }

  datatype Range = Range(lower: Option<Bytes>, upper: Option<Bytes>)

  const FULL_SCAN := Range(None, None)

  function KeyRange(key: Bytes): Range { Range(Some(key), Some(key)) }

  predicate AboveLower(range: Range, key: Bytes) {
    range.lower.Some? ==> AtMost(range.lower.value, key)
  }

  predicate BelowUpper(range: Range, key: Bytes) {
    range.upper.Some? ==> AtMost(key, range.upper.value)
  }

  predicate InRange(range: Range, key: Bytes) {
    AboveLower(range, key) && BelowUpper(range, key)
  }

  /** The bounds written out: both are inclusive, and a missing one excludes nothing. */
  lemma InRangeExactly(range: Range, key: Bytes)
    ensures InRange(range, key)
       <==> (range.lower.None? || !Less(key, range.lower.value)) && (range.upper.None? || !Less(range.upper.value, key))
  {
    hide Less;
    if range.lower.Some? { AtMostIsNotLess(range.lower.value, key); }
    if range.upper.Some? { AtMostIsNotLess(key, range.upper.value); }
  }

  lemma InKeyRange(key: Bytes, k: Bytes)
    ensures InRange(KeyRange(key), k) <==> k == key
  {
    if InRange(KeyRange(key), k) && k != key { LessAsymmetric(k, key); }
  }

  /** The records of a range, in their order: what a scan must return. */
  function Select(rs: seq<Record>, range: Range): (r: seq<Record>)
    ensures forall x :: x in r <==> x in rs && InRange(range, x.key)
  {
    if rs == [] then []
    else if InRange(range, rs[0].key) then [rs[0]] + Select(rs[1..], range)
    else Select(rs[1..], range)
  }

  lemma {:induction false} SelectConcat(a: seq<Record>, b: seq<Record>, range: Range)
    ensures Select(a + b, range) == Select(a, range) + Select(b, range)
  {
    if a == [] {
      assert a + b == b;
    } else {
      assert (a + b)[1..] == a[1..] + b;
      SelectConcat(a[1..], b, range);
    }
  }

  lemma {:induction false} SelectSorted(rs: seq<Record>, range: Range)
    requires Sorted(rs)
    ensures Sorted(Select(rs, range))
  {
    if rs != [] {
      SortedTail(rs);
      SelectSorted(rs[1..], range);
      if InRange(range, rs[0].key) { SortedCons(rs[0], Select(rs[1..], range)); }
    }
  }

  lemma {:induction false} SelectAll(rs: seq<Record>)
    ensures Select(rs, FULL_SCAN) == rs
  {
    if rs != [] { SelectAll(rs[1..]); }
  }

  /** A sorted list past the upper bound has nothing left to return. */
  lemma {:induction false} SelectStops(rs: seq<Record>, range: Range)
    requires Sorted(rs) && rs != [] && !BelowUpper(range, rs[0].key)
    ensures Select(rs, range) == []
  {
    if Select(rs, range) != [] {
      var x := Select(rs, range)[0];
      var j :| 0 <= j < |rs| && rs[j] == x;
      if j > 0 {
        SortedKeys(rs, 0, j);
        AtMostTransitive(rs[0].key, x.key, range.upper.value);
      }
    }
  }

  /** Records below the lower bound can be skipped. */
  lemma {:induction false} SelectSkips(rs: seq<Record>, range: Range, n: nat)
    requires n <= |rs| && forall i :: 0 <= i < n ==> !AboveLower(range, rs[i].key)
    ensures Select(rs, range) == Select(rs[n..], range)
  {
    if n == 0 {
      assert rs[0..] == rs;
    } else {
      SelectSkips(rs[1..], range, n - 1);
      assert rs[1..][n - 1..] == rs[n..];
    }
  }

  // ----- byte form

  function RecordBytes(r: Record): (b: Bytes)
    ensures |b| == 24 + |r.key| + |r.value|
  {
    StringBytes(r.key) + IntBytes(r.seqNo) + StringBytes(r.value)
  }

  function GetRecord(b: Bytes): Result<(Record, Bytes)> {
    var (key, b1) :- GetString(b);
    var (seqNo, b2) :- GetInt(b1);
    var (value, b3) :- GetString(b2);
    Success((Record(key, seqNo, value), b3))
  }

  lemma RecordRoundTrip(r: Record, rest: Bytes)
    requires |RecordBytes(r)| <= MAX_INT64
    ensures GetRecord(RecordBytes(r) + rest) == Success((r, rest))
  {
    var b2 := StringBytes(r.value) + rest;
    var b1 := IntBytes(r.seqNo) + b2;
    assert RecordBytes(r) + rest == StringBytes(r.key) + b1;
    StringRoundTrip(r.key, b1);
    IntRoundTrip(r.seqNo, b2);
    StringRoundTrip(r.value, rest);
  }

  method WriteRecord(writer: BufferWriter, r: Record)
    requires |RecordBytes(r)| <= MAX_INT64
    modifies writer
    ensures writer.data == old(writer.data) + RecordBytes(r)
  {
    writer.WriteString(r.key);
    writer.WriteInt(r.seqNo);
    writer.WriteString(r.value);
    assert writer.data == old(writer.data) + (StringBytes(r.key) + IntBytes(r.seqNo) + StringBytes(r.value));
  }

  method ReadRecord(reader: BufferReader) returns (r: Result<Record>)
    modifies reader
    ensures GetRecord(old(reader.rest)) == (if r.Success? then Success((r.value, reader.rest)) else Failure(r.fault))
  {
    var key :- reader.ReadString();
    var seqNo :- reader.ReadInt();
    var value :- reader.ReadString();
    r := Success(Record(key, seqNo, value));
  }
}
