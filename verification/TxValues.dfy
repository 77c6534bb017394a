/** The value a transactional table stores for a row: the writing transaction, a tombstone
    flag, a frozen flag and the user's value. */
module TxValues {
  import opened ByteStrings
  import opened Buffers
  import opened Records

  datatype TxValue = TxValue(tx: Int64, deleted: bool, frozen: bool, value: Bytes)

  function Encode(v: TxValue): (b: Bytes)
    ensures |b| == 18 + |v.value|
  {
    IntBytes(v.tx) + (BoolBytes(v.deleted) + (BoolBytes(v.frozen) + StringBytes(v.value)))
  }

  /** ParseTransactionalValue */
  function Parse(b: Bytes): Result<TxValue> {
    var (tx, b1) :- GetInt(b);
    var (deleted, b2) :- GetBool(b1);
    var (frozen, b3) :- GetBool(b2);
    var (value, _) :- GetString(b3);
    Success(TxValue(tx, deleted, frozen, value))
  }

  lemma ValueRoundTrip(v: TxValue)
    requires |v.value| <= MAX_INT64
    ensures Parse(Encode(v)) == Success(v)
  {
    hide GetInt, GetBool, GetString, IntBytes, BoolBytes, StringBytes;
    var b3 := StringBytes(v.value);
    var b2 := BoolBytes(v.frozen) + b3;
    var b1 := BoolBytes(v.deleted) + b2;
    IntRoundTrip(v.tx, b1);
    BoolRoundTrip(v.deleted, b2);
    BoolRoundTrip(v.frozen, b3);
    StringRoundTrip(v.value, []);
    assert b3 + [] == b3;
  }

  lemma ParsedBounds(b: Bytes)
    requires Parse(b).Success?
    ensures |Encode(Parse(b).value)| <= |b| && |Parse(b).value.value| <= MAX_INT64
  {}

  /** Every row of a transactional table holds a value that parses. */
  predicate WellFormed(rs: seq<Record>) {
    forall r :: r in rs ==> Parse(r.value).Success?
  }

  /** The value of a row; a row that does not parse counts as a tombstone of transaction 0. */
  function Val(r: Record): TxValue {
    var v := Parse(r.value);
    if v.Success? then v.value else TxValue(0, true, false, [])
  }

  /** The same row marked frozen. */
  function Freeze(r: Record): Record
    requires Parse(r.value).Success?
  {
    if Val(r).frozen then r else r.(value := Encode(Val(r).(frozen := true)))
  }

  lemma FreezeSetsTheFlag(r: Record)
    requires Parse(r.value).Success?
    ensures Parse(Freeze(r).value) == Success(Val(r).(frozen := true))
    ensures |RecordBytes(Freeze(r))| <= |RecordBytes(r)|
  {
    hide Parse, Encode;
    ParsedBounds(r.value);
    ValueRoundTrip(Val(r).(frozen := true));
    SameSize(Val(r));
  }

  lemma SameSize(v: TxValue)
    ensures |Encode(v.(frozen := true))| == |Encode(v)|
  {}
}
