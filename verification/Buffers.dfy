/** The `sdb` buffer writer and reader: integers are eight little-endian bytes,
    strings are length-prefixed. The reader of the source has no bounds check, so
    a read that would run past the buffer is the explicit fault `PastEnd`. */
module Buffers {
  import opened ByteStrings

  datatype Fault =
    | PastEnd             // the source reads memory outside the buffer
    | NegativeLength      // std::string::resize throws
    | UnknownTag          // kParsers.at throws
    | ChecksumMismatch    // Page::Load throws

  datatype Result<+T> = Success(value: T) | Failure(fault: Fault) {
    predicate IsFailure() { Failure? }
    function PropagateFailure<U>(): Result<U> requires Failure? { Failure(fault) }
    function Extract(): T requires Success? { value }
  }

  const TWO_64: int := 0x1_0000_0000_0000_0000

  function Pow256(n: nat): (r: nat)
    ensures r > 0
  {
    if n == 0 then 1 else 256 * Pow256(n - 1)
  }

  function LittleEndian(u: nat, n: nat): (b: Bytes)
    ensures |b| == n
  {
    if n == 0 then [] else [(u % 256) as byte] + LittleEndian(u / 256, n - 1)
  }

  function FromLittleEndian(b: Bytes): (u: nat)
    ensures u < Pow256(|b|)
  {
    if b == [] then 0 else b[0] as int + 256 * FromLittleEndian(b[1..])
  }

  lemma {:induction false} LittleEndianRoundTrip(u: nat, n: nat)
    requires u < Pow256(n)
    ensures FromLittleEndian(LittleEndian(u, n)) == u
  {
    if n > 0 {
      LittleEndianRoundTrip(u / 256, n - 1);
      assert LittleEndian(u, n)[1..] == LittleEndian(u / 256, n - 1);
    }
  }

  lemma QuotientIs(u: nat, d: nat, q: nat)
    requires d > 0 && d * q <= u < d * (q + 1)
    ensures u / d == q
  {
    var p := u / d;
    Scaled(d, p + 1, q);
    Scaled(d, q + 1, p);
    assert d * p <= u < d * (p + 1);
  }

  lemma Scaled(d: nat, a: nat, b: nat)
    ensures a <= b ==> d * a <= d * b
  {}

  lemma DivideTwice(u: nat, b: nat)
    requires b > 0
    ensures u / 256 / b == u / (256 * b)
  {
    var h := u / 256;
    var q := h / b;
    var low, high := b * q, b * (q + 1);
    assert low <= h < high;
    assert 256 * low <= u < 256 * high;
    assert (256 * b) * q == 256 * low && (256 * b) * (q + 1) == 256 * high;
    QuotientIs(u, 256 * b, q);
  }

  /** The least significant byte comes first. */
  lemma {:induction false} LittleEndianAt(u: nat, n: nat, i: nat)
    requires i < n
    ensures LittleEndian(u, n)[i] as int == u / Pow256(i) % 256
  {
    if i > 0 {
      LittleEndianAt(u / 256, n - 1, i - 1);
      DivideTwice(u, Pow256(i - 1));
    }
  }

  lemma Pow256Of8()
    ensures Pow256(8) == TWO_64
  {
    assert Pow256(2) == 0x1_0000;
    assert Pow256(4) == 0x1_0000_0000;
    assert Pow256(6) == 0x1_0000_0000_0000;
  }

  /** Two's complement, least significant byte first; `v` is truncated to 64 bits. */
  function IntBytes(v: int): (b: Bytes)
    ensures |b| == 8
  {
    LittleEndian(v % TWO_64, 8)
  }

  function BytesInt(b: Bytes): Int64
    requires |b| == 8
  {
    Pow256Of8();
    var u := FromLittleEndian(b);
    if u <= MAX_INT64 then u else u - TWO_64
  }

  function StringBytes(s: Bytes): (b: Bytes)
    ensures |b| == 8 + |s|
  {
    IntBytes(|s|) + s
  }

  function BoolBytes(v: bool): (b: Bytes)
    ensures |b| == 1
  {
    [if v then 1 else 0]
  }

  function GetInt(b: Bytes): Result<(Int64, Bytes)> {
    if |b| < 8 then Failure(PastEnd) else Success((BytesInt(b[..8]), b[8..]))
  }

  function GetBool(b: Bytes): Result<(bool, Bytes)> {
    if |b| < 1 then Failure(PastEnd) else Success((b[0] != 0, b[1..]))
  }

  function GetString(b: Bytes): Result<(Bytes, Bytes)> {
    var (n, b1) :- GetInt(b);
    if n < 0 then Failure(NegativeLength)
    else if n > |b1| then Failure(PastEnd)
    else Success((b1[..n], b1[n..]))
  }

  lemma IntRoundTrip(v: Int64, rest: Bytes)
    ensures GetInt(IntBytes(v) + rest) == Success((v, rest))
  {
    Pow256Of8();
    LittleEndianRoundTrip(v % TWO_64, 8);
    assert (IntBytes(v) + rest)[..8] == IntBytes(v);
    assert (IntBytes(v) + rest)[8..] == rest;
  }

  lemma {:induction false} FromLittleEndianRoundTrip(b: Bytes)
    ensures LittleEndian(FromLittleEndian(b), |b|) == b
  {
    if b != [] {
      FromLittleEndianRoundTrip(b[1..]);
      assert FromLittleEndian(b) % 256 == b[0] as int && FromLittleEndian(b) / 256 == FromLittleEndian(b[1..]);
      assert b == [b[0]] + b[1..];
    }
  }

  /** Eight bytes are read as a number exactly when they are its bytes. */
  lemma IntReadsExactly(b: Bytes, v: Int64, rest: Bytes)
    ensures GetInt(b) == Success((v, rest)) <==> b == IntBytes(v) + rest
  {
    if |b| >= 8 {
      Pow256Of8();
      FromLittleEndianRoundTrip(b[..8]);
      assert BytesInt(b[..8]) % TWO_64 == FromLittleEndian(b[..8]);
      assert b == b[..8] + b[8..];
    }
    IntRoundTrip(v, rest);
  }

  /** A string is read exactly where its length and its bytes stand; anything else is a fault. */
  lemma StringReadsExactly(b: Bytes, s: Bytes, rest: Bytes)
    ensures GetString(b) == Success((s, rest)) <==> |s| <= MAX_INT64 && b == StringBytes(s) + rest
  {
    hide IntBytes, BytesInt;
    if GetString(b) == Success((s, rest)) {
      var (n, b1) := GetInt(b).value;
      IntReadsExactly(b, n, b1);
      assert b1 == s + rest && n == |s|;
      assert IntBytes(n) + (s + rest) == StringBytes(s) + rest;
    }
    if |s| <= MAX_INT64 { StringRoundTrip(s, rest); }
  }

  lemma StringRoundTrip(s: Bytes, rest: Bytes)
    requires |s| <= MAX_INT64
    ensures GetString(StringBytes(s) + rest) == Success((s, rest))
  {
    assert StringBytes(s) + rest == IntBytes(|s|) + (s + rest);
    IntRoundTrip(|s|, s + rest);
    assert (s + rest)[..|s|] == s && (s + rest)[|s|..] == rest;
  }

  lemma BoolRoundTrip(v: bool, rest: Bytes)
    ensures GetBool(BoolBytes(v) + rest) == Success((v, rest))
  {
    assert (BoolBytes(v) + rest)[1..] == rest;
  }

  /** An all-zero prefix of at least eight bytes reads as the integer 0. */
  function Zeros(n: nat): (z: Bytes)
    ensures |z| == n
  {
    seq(n, _ => 0 as byte)
  }

  lemma {:induction false} ZerosReadAsZero(n: nat)
    ensures FromLittleEndian(Zeros(n)) == 0
  {
    if n > 0 {
      ZerosReadAsZero(n - 1);
      assert Zeros(n)[1..] == Zeros(n - 1);
    }
  }

  lemma ZeroTail(n: nat)
    ensures GetInt(Zeros(n)) == if n < 8 then Failure(PastEnd) else Success((0, Zeros(n - 8)))
  {
    if n >= 8 {
      ZerosReadAsZero(8);
      assert Zeros(n)[..8] == Zeros(8) && Zeros(n)[8..] == Zeros(n - 8);
    }
  }

  /** sdb::BufferWriter: a byte vector that grows on each write. */
  class BufferWriter {
    var data: Bytes

    constructor ()
      ensures data == []
    {
      data := [];
    }

    method WriteInt(v: Int64)
      modifies this
      ensures data == old(data) + IntBytes(v)
    {
      data := data + IntBytes(v);
    }

    method WriteBool(v: bool)
      modifies this
      ensures data == old(data) + BoolBytes(v)
    {
      data := data + BoolBytes(v);
    }

    method WriteString(s: Bytes)
      requires |s| <= MAX_INT64
      modifies this
      ensures data == old(data) + StringBytes(s)
    {
      WriteInt(|s|);
      data := data + s;
      assert data == old(data) + (IntBytes(|s|) + s);
    }

    method Extract() returns (b: Bytes)
      modifies this
      ensures b == old(data) && data == []
    {
      b := data;
      data := [];
    }
  }

  /** sdb::BufferReader: `rest` is the part of the buffer from the read position on. */
  class BufferReader {
    var rest: Bytes

    constructor (data: Bytes)
      ensures rest == data
    {
      rest := data;
    }

    predicate HasMore()
      reads this
    {
      rest != []
    }

    method ReadInt() returns (r: Result<Int64>)
      modifies this
      ensures GetInt(old(rest)) == (if r.Success? then Success((r.value, rest)) else Failure(r.fault))
      ensures r.Success? ==> old(rest) == IntBytes(r.value) + rest
    {
      if |rest| < 8 { return Failure(PastEnd); }
      r := Success(BytesInt(rest[..8]));
      rest := rest[8..];
      IntReadsExactly(old(rest), r.value, rest);
    }

    method ReadBool() returns (r: Result<bool>)
      modifies this
      ensures GetBool(old(rest)) == (if r.Success? then Success((r.value, rest)) else Failure(r.fault))
      ensures old(rest) == [] ==> r == Failure(PastEnd)
      ensures old(rest) != [] ==> r == Success(old(rest)[0] as int > 0) && rest == old(rest)[1..]
    {
      if rest == [] { return Failure(PastEnd); }
      r := Success(rest[0] != 0);
      rest := rest[1..];
    }

    method ReadString() returns (r: Result<Bytes>)
      modifies this
      ensures GetString(old(rest)) == (if r.Success? then Success((r.value, rest)) else Failure(r.fault))
      ensures r.Success? ==> |r.value| <= MAX_INT64 && old(rest) == StringBytes(r.value) + rest
    {
      var size :- ReadInt();
      if size < 0 { return Failure(NegativeLength); }
      if size > |rest| { return Failure(PastEnd); }
      r := Success(rest[..size]);
      rest := rest[size..];
      StringReadsExactly(old(rest), r.value, rest);
    }
  }
}
