/** File names of the form `{:04d}<suffix>`, which the tree and the log sort as strings. */
module FileNames {
  import opened ByteStrings

  function Digit(d: nat): byte
    requires d < 10
  {
    (48 + d) as byte
  }

  /** The last `width` decimal digits of `n`. */
  function FixedWidth(n: nat, width: nat): (b: Bytes)
    ensures |b| == width
  {
    if width == 0 then [] else FixedWidth(n / 10, width - 1) + [Digit(n % 10)]
  }

  function DecimalWidth(n: nat): nat { if n < 10 then 1 else 1 + DecimalWidth(n / 10) }

  function Ten(k: nat): nat { if k == 0 then 1 else 10 * Ten(k - 1) }

  /** std::format("{:04d}", n) + suffix */
  function FileName(n: nat, suffix: Bytes): Bytes {
    FixedWidth(n, if n < 10000 then 4 else DecimalWidth(n)) + suffix
  }

  /** std::stoll: the value of the leading digits. */
  function LeadingNumber(b: Bytes, acc: nat): nat
    decreases |b|
  {
    if b == [] || b[0] < 48 || b[0] > 57 then acc else LeadingNumber(b[1..], 10 * acc + (b[0] as int - 48))
  }

  /** The suffixes of the source start with a dot. */
  predicate StartsWithDot(suffix: Bytes) { suffix != [] && suffix[0] == 46 }

  predicate AllDigits(b: Bytes) { forall i :: 0 <= i < |b| ==> 48 <= b[i] <= 57 }

  lemma {:induction false} SnocDigit(b: Bytes, d: nat, suffix: Bytes, acc: nat)
    requires AllDigits(b) && d < 10 && StartsWithDot(suffix)
    ensures LeadingNumber(b + [Digit(d)] + suffix, acc) == 10 * LeadingNumber(b + suffix, acc) + d
    decreases |b|
  {
    var all := b + [Digit(d)] + suffix;
    if b == [] {
      assert b + suffix == suffix && all[1..] == suffix;
    } else {
      assert all[1..] == b[1..] + [Digit(d)] + suffix && (b + suffix)[1..] == b[1..] + suffix;
      SnocDigit(b[1..], d, suffix, 10 * acc + (b[0] as int - 48));
    }
  }

  lemma {:induction false} FixedWidthValue(n: nat, width: nat, suffix: Bytes)
    requires n < Ten(width) && StartsWithDot(suffix)
    ensures AllDigits(FixedWidth(n, width)) && LeadingNumber(FixedWidth(n, width) + suffix, 0) == n
  {
    if width == 0 {
      assert FixedWidth(n, 0) + suffix == suffix;
    } else {
      FixedWidthValue(n / 10, width - 1, suffix);
      SnocDigit(FixedWidth(n / 10, width - 1), n % 10, suffix, 0);
    }
  }

  lemma {:induction false} DecimalWidthFits(n: nat)
    ensures n < Ten(DecimalWidth(n))
  {
    if n >= 10 { DecimalWidthFits(n / 10); }
  }

  lemma TenTo4()
    ensures Ten(4) == 10000
  {
    assert Ten(2) == 100;
  }

  /** The number in a file name reads back, whatever its size. */
  lemma NumberReadsBack(n: nat, suffix: Bytes)
    requires StartsWithDot(suffix)
    ensures LeadingNumber(FileName(n, suffix), 0) == n
  {
    TenTo4();
    DecimalWidthFits(n);
    FixedWidthValue(n, if n < 10000 then 4 else DecimalWidth(n), suffix);
  }

  lemma {:induction false} LessOnPrefix(a: Bytes, b: Bytes, x: Bytes, y: Bytes)
    requires |a| == |b| && (Less(a, b) || (a == b && Less(x, y)))
    ensures Less(a + x, b + y)
    decreases |a|
  {
    if a == [] {
      assert a + x == x && b + y == y;
    } else if a[0] == b[0] {
      assert (a + x)[1..] == a[1..] + x && (b + y)[1..] == b[1..] + y;
      LessOnPrefix(a[1..], b[1..], x, y);
    }
  }

  lemma {:induction false} FixedWidthOrder(n: nat, m: nat, width: nat)
    requires n < m < Ten(width)
    ensures Less(FixedWidth(n, width), FixedWidth(m, width))
  {
    if width > 0 {
      if n / 10 < m / 10 { FixedWidthOrder(n / 10, m / 10, width - 1); }
      LessOnPrefix(FixedWidth(n / 10, width - 1), FixedWidth(m / 10, width - 1), [Digit(n % 10)], [Digit(m % 10)]);
    }
  }

  /** String order is number order for all file numbers up to `limit` exactly when
      `limit` has at most four digits: name 10000 sorts before name 9999. */
  lemma NamesSortExactly(limit: nat, suffix: Bytes)
    ensures (forall n, m :: 0 <= n < m <= limit ==> Less(FileName(n, suffix), FileName(m, suffix)))
       <==> limit < 10000
  {
    TenTo4();
    forall n, m | 0 <= n < m <= limit && limit < 10000 ensures Less(FileName(n, suffix), FileName(m, suffix)) {
      FixedWidthOrder(n, m, 4);
      LessOnPrefix(FixedWidth(n, 4), FixedWidth(m, 4), suffix, suffix);
    }
    if limit >= 10000 {
      TenThousandIsFirst(suffix);
      LessAsymmetric(FileName(10000, suffix), FileName(9999, suffix));
    }
  }

  /** Number 10000 sorts before number 9999. */
  lemma TenThousandIsFirst(suffix: Bytes)
    ensures Less(FileName(10000, suffix), FileName(9999, suffix))
  {
    assert FixedWidth(9999, 4) == FixedWidth(99, 2) + [57] + [57];
    assert FixedWidth(99, 2) == FixedWidth(9, 1) + [57];
    assert DecimalWidth(10000) == 3 + DecimalWidth(10) == 5;
    assert FixedWidth(10000, 5) == FixedWidth(100, 3) + [48] + [48];
    assert FixedWidth(100, 3) == FixedWidth(1, 1) + [48] + [48];
    assert FileName(9999, suffix)[0] == 57 && FileName(10000, suffix)[0] == 49;
  }

  lemma {:induction false} LeadingDigit(n: nat)
    requires n > 0
    ensures FixedWidth(n, DecimalWidth(n))[0] > 48
  {
    if n >= 10 {
      LeadingDigit(n / 10);
      assert DecimalWidth(n) == 1 + DecimalWidth(n / 10);
    }
  }

  /** No positive number sorts before number 1. */
  lemma OneIsBefore(n: nat, suffix: Bytes)
    requires n > 0
    ensures !Less(FileName(n, suffix), FileName(1, suffix))
  {
    if n == 1 {
      LessIrreflexive(FileName(1, suffix));
    } else if n < 10000 {
      NamesBelow(1, n, suffix);
      LessAsymmetric(FileName(1, suffix), FileName(n, suffix));
    } else {
      LeadingDigit(n);
      assert FixedWidth(1, 4) == FixedWidth(0, 2) + [48] + [49];
      assert FixedWidth(0, 2) == FixedWidth(0, 1) + [48];
      assert FileName(1, suffix)[0] == 48;
    }
  }

  // ----- listing a directory

  const WAL_SUFFIX: Bytes := [46, 119, 97, 108, 46, 115, 100, 98]   // .wal.sdb
  const SST_SUFFIX: Bytes := [46, 115, 115, 116, 46, 115, 100, 98]  // .sst.sdb

  ghost predicate Ascending(s: seq<nat>) {
    forall i, j :: 0 <= i < j < |s| ==> s[i] < s[j]
  }

  /** The order in which a sorted directory lists its files. */
  ghost predicate InNameOrder(s: seq<nat>, suffix: Bytes) {
    forall i, j :: 0 <= i < j < |s| ==> Less(FileName(s[i], suffix), FileName(s[j], suffix))
  }

  ghost predicate Listing(s: seq<nat>, numbers: set<nat>, suffix: Bytes) {
    InNameOrder(s, suffix) && forall n :: n in s <==> n in numbers
  }

  ghost predicate FourDigits(numbers: set<nat>) { forall n :: n in numbers ==> n < 10000 }

  lemma NamesBelow(n: nat, m: nat, suffix: Bytes)
    requires n < m < 10000
    ensures Less(FileName(n, suffix), FileName(m, suffix))
  {
    NamesSortExactly(9999, suffix);
  }

  /** With at most four digits the listing is in number order. */
  lemma ListingAscends(s: seq<nat>, numbers: set<nat>, suffix: Bytes)
    requires Listing(s, numbers, suffix) && FourDigits(numbers)
    ensures Ascending(s)
  {
    forall i, j | 0 <= i < j < |s| ensures s[i] < s[j] {
      assert s[i] in numbers && s[j] in numbers;
      LessAsymmetric(FileName(s[i], suffix), FileName(s[j], suffix));
      if s[j] < s[i] { NamesBelow(s[j], s[i], suffix); }
    }
  }

  lemma AscendingLists(s: seq<nat>, suffix: Bytes)
    requires Ascending(s) && forall n :: n in s ==> n < 10000
    ensures InNameOrder(s, suffix)
  {
    forall i, j | 0 <= i < j < |s| ensures Less(FileName(s[i], suffix), FileName(s[j], suffix)) {
      assert s[j] in s;
      NamesBelow(s[i], s[j], suffix);
    }
  }

  lemma AscendingSnoc(s: seq<nat>, last: nat)
    requires Ascending(s) && forall n :: n in s ==> n < last
    ensures Ascending(s + [last])
  {
    assert forall i :: 0 <= i < |s| ==> s[i] in s;
  }

  /** The numbers below `n` that are in a set, ascending. */
  ghost function Below(numbers: set<nat>, n: nat): (s: seq<nat>)
    ensures Ascending(s) && forall k :: k in s <==> k in numbers && k < n
  {
    if n == 0 then []
    else
      var front := Below(numbers, n - 1);
      AscendingSnoc(front, n - 1);
      if n - 1 in numbers then front + [n - 1] else front
  }

  /** Every directory of at most four digits has a listing. */
  lemma SomeListing(numbers: set<nat>, suffix: Bytes) returns (s: seq<nat>)
    requires FourDigits(numbers)
    ensures Listing(s, numbers, suffix)
  {
    s := Below(numbers, 10000);
    AscendingLists(s, suffix);
  }

  /** Files numbered 0, 1, 2, ... up to `limit` are listed in number order if and only if there
      is none above 9999. */
  lemma ListingAscendsExactly(s: seq<nat>, numbers: set<nat>, limit: nat, suffix: Bytes)
    requires Listing(s, numbers, suffix) && forall n: nat :: n in numbers <==> n <= limit
    ensures Ascending(s) <==> limit < 10000
  {
    hide FileName;
    if limit < 10000 {
      ListingAscends(s, numbers, suffix);
    } else if Ascending(s) {
      NamesSortExactly(limit, suffix);
      forall n, m | 0 <= n < m <= limit ensures Less(FileName(n, suffix), FileName(m, suffix)) {
        assert n in s && m in s;
        var i :| 0 <= i < |s| && s[i] == n;
        var j :| 0 <= j < |s| && s[j] == m;
        assert i < j;
      }
    }
  }

  /** With files 0 to 10000 the last name is that of 9999, so the number after it is taken. */
  lemma NextIsTaken(s: seq<nat>, numbers: set<nat>, suffix: Bytes)
    requires Listing(s, numbers, suffix) && forall n: nat :: n in numbers <==> n <= 10000
    ensures s != [] && s[|s| - 1] + 1 == 10000 && 10000 in numbers
  {
    hide FileName;
    assert 9999 in s;
    var i :| 0 <= i < |s| && s[i] == 9999;
    var last := s[|s| - 1];
    assert last in s && last in numbers;
    if i < |s| - 1 {
      LessAsymmetric(FileName(9999, suffix), FileName(last, suffix));
      if last < 9999 { NamesBelow(last, 9999, suffix); } else { TenThousandIsFirst(suffix); }
    }
  }

  /** std::ranges::sort on the names of a directory. */
  method SortNames(names: set<Bytes>) returns (s: seq<Bytes>)
    ensures forall i, j :: 0 <= i < j < |s| ==> Less(s[i], s[j])
    ensures forall x :: x in s <==> x in names
  {
    hide Less;
    s := [];
    var left := names;
    while left != {}
      invariant forall i, j :: 0 <= i < j < |s| ==> Less(s[i], s[j])
      invariant forall x :: x in names <==> x in s || x in left
      invariant forall x, y :: x in s && y in left ==> Less(x, y)
      decreases left
    {
      ghost var some := LeastName(left);
      var m :| m in left && forall y :: y in left ==> AtMost(m, y);
      forall i | 0 <= i < |s| ensures Less(s[i], m) { assert s[i] in s; }
      forall y | y in left && y != m ensures Less(m, y) { assert AtMost(m, y); }
      s := s + [m];
      left := left - {m};
    }
  }

  lemma {:induction false} LeastName(s: set<Bytes>) returns (m: Bytes)
    requires s != {}
    ensures m in s && forall y :: y in s ==> AtMost(m, y)
    decreases s
  {
    var x :| x in s;
    var rest := s - {x};
    assert s == rest + {x};
    m := x;
    if rest != {} {
      var k := LeastName(rest);
      LessTotal(k, x);
      if Less(k, x) {
        m := k;
      } else {
        forall y | y in s ensures AtMost(m, y) {
          if y != x { AtMostTransitive(x, k, y); }
        }
      }
    }
  }

  /** The numbers of the files of a directory, in the order of the sorted names. */
  method SortedNumbers(numbers: set<nat>, suffix: Bytes) returns (s: seq<nat>)
    requires StartsWithDot(suffix)
    ensures Listing(s, numbers, suffix)
    ensures FourDigits(numbers) ==> Ascending(s)
  {
    hide FileName, Less, LeadingNumber;
    var names := SortNames(set n | n in numbers :: FileName(n, suffix));
    s := [];
    var i := 0;
    while i < |names|
      invariant 0 <= i == |s| <= |names|
      invariant forall k :: 0 <= k < i ==> s[k] in numbers && FileName(s[k], suffix) == names[k]
    {
      assert names[i] in names;
      ghost var n :| n in numbers && FileName(n, suffix) == names[i];
      NumberReadsBack(n, suffix);
      s := s + [LeadingNumber(names[i], 0)];
      i := i + 1;
    }
    forall n | n in numbers ensures n in s {
      assert FileName(n, suffix) in names;
      var k :| 0 <= k < |names| && names[k] == FileName(n, suffix);
      NumberReadsBack(n, suffix);
      NumberReadsBack(s[k], suffix);
    }
    if FourDigits(numbers) { ListingAscends(s, numbers, suffix); }
  }

  lemma {:induction false} AscendingUnique(a: seq<nat>, b: seq<nat>)
    requires Ascending(a) && Ascending(b) && forall x :: x in a <==> x in b
    ensures a == b
  {
    if a == [] {
      assert forall i :: 0 <= i < |b| ==> b[i] in b;
    } else {
      var x := a[|a| - 1];
      assert x in b;
      var y := b[|b| - 1];
      assert y in a && x == y;
      var fa, fb := a[..|a| - 1], b[..|b| - 1];
      assert a == fa + [x] && b == fb + [x];
      forall k ensures k in fa <==> k in fb {
        assert k in fa ==> k in a && k != x;
        assert k in fb ==> k in b && k != x;
      }
      AscendingUnique(fa, fb);
    }
  }
}
