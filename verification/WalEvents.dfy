/** Events of the write-ahead log and their byte form. The fields of an upsert event are
    read in the order they are written. */
module WalEvents {
  import opened ByteStrings
  import opened Buffers

  datatype Event =
    | Upsert(storage: Bytes, seqNo: Int64, key: Bytes, value: Bytes)
    | Commit(tx: Int64)

  const UPSERT_TAG := 1
  const COMMIT_TAG := 2

  function EventBytes(e: Event): (b: Bytes)
    ensures |b| >= 16
  {
    match e
    case Upsert(storage, seqNo, key, value) =>
      IntBytes(UPSERT_TAG) + (StringBytes(storage) + (IntBytes(seqNo) + (StringBytes(key) + StringBytes(value))))
    case Commit(tx) => IntBytes(COMMIT_TAG) + IntBytes(tx)
  }

  function GetUpsert(b: Bytes): Result<(Event, Bytes)> {
    var (storage, b1) :- GetString(b);
    var (seqNo, b2) :- GetInt(b1);
    var (key, b3) :- GetString(b2);
    var (value, b4) :- GetString(b3);
    Success((Upsert(storage, seqNo, key, value), b4))
  }

  /** ParseEvent: the tag selects the parser, any other tag throws. */
  function GetEvent(b: Bytes): (r: Result<(Event, Bytes)>)
    ensures r.Success? ==> |r.value.1| < |b|
  {
    var (tag, b1) :- GetInt(b);
    if tag == UPSERT_TAG then GetUpsert(b1)
    else if tag == COMMIT_TAG then
      var (tx, b2) :- GetInt(b1);
      Success((Commit(tx), b2))
    else Failure(UnknownTag)
  }

  lemma UpsertRoundTrip(e: Event, rest: Bytes)
    requires e.Upsert? && |EventBytes(e)| <= MAX_INT64
    ensures GetEvent(EventBytes(e) + rest) == Success((e, rest))
  {
    hide GetInt, GetString, IntBytes, StringBytes;
    var b4 := StringBytes(e.value) + rest;
    var b3 := StringBytes(e.key) + b4;
    var b2 := IntBytes(e.seqNo) + b3;
    var b1 := StringBytes(e.storage) + b2;
    assert EventBytes(e) + rest == IntBytes(UPSERT_TAG) + b1;
    IntRoundTrip(UPSERT_TAG, b1);
    StringRoundTrip(e.storage, b2);
    IntRoundTrip(e.seqNo, b3);
    StringRoundTrip(e.key, b4);
    StringRoundTrip(e.value, rest);
  }

  lemma EventRoundTrip(e: Event, rest: Bytes)
    requires |EventBytes(e)| <= MAX_INT64
    ensures GetEvent(EventBytes(e) + rest) == Success((e, rest))
  {
    hide GetInt, IntBytes;
    if e.Upsert? {
      UpsertRoundTrip(e, rest);
    } else {
      assert EventBytes(e) + rest == IntBytes(COMMIT_TAG) + (IntBytes(e.tx) + rest);
      IntRoundTrip(COMMIT_TAG, IntBytes(e.tx) + rest);
      IntRoundTrip(e.tx, rest);
    }
  }

  method FlushEvent(writer: BufferWriter, e: Event)
    requires |EventBytes(e)| <= MAX_INT64
    modifies writer
    ensures writer.data == old(writer.data) + EventBytes(e)
  {
    hide IntBytes, StringBytes;
    match e
    case Upsert(storage, seqNo, key, value) =>
      writer.WriteInt(UPSERT_TAG);
      writer.WriteString(storage);
      writer.WriteInt(seqNo);
      writer.WriteString(key);
      writer.WriteString(value);
      AppendFive(old(writer.data), IntBytes(UPSERT_TAG), StringBytes(storage), IntBytes(seqNo), StringBytes(key), StringBytes(value));
    case Commit(tx) =>
      writer.WriteInt(COMMIT_TAG);
      writer.WriteInt(tx);
      assert writer.data == old(writer.data) + (IntBytes(COMMIT_TAG) + IntBytes(tx));
  }

  lemma AppendFive(w: Bytes, a: Bytes, b: Bytes, c: Bytes, d: Bytes, e: Bytes)
    ensures w + a + b + c + d + e == w + (a + (b + (c + (d + e))))
  {
    assert d + e == d + e;
    assert c + d + e == c + (d + e);
    assert b + c + d + e == b + (c + (d + e));
    assert a + b + c + d + e == a + (b + (c + (d + e)));
  }

  method ParseEvent(reader: BufferReader) returns (r: Result<Event>)
    modifies reader
    ensures GetEvent(old(reader.rest)) == (if r.Success? then Success((r.value, reader.rest)) else Failure(r.fault))
  {
    hide GetInt, GetString;
    var tag :- reader.ReadInt();
    if tag == UPSERT_TAG {
      var storage :- reader.ReadString();
      var seqNo :- reader.ReadInt();
      var key :- reader.ReadString();
      var value :- reader.ReadString();
      return Success(Upsert(storage, seqNo, key, value));
    }
    if tag == COMMIT_TAG {
      var tx :- reader.ReadInt();
      return Success(Commit(tx));
    }
    return Failure(UnknownTag);
  }
}
