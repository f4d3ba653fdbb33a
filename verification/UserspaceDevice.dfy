/** Devices as udev lists them, and the key that orders them. */
module UserspaceDevice {

  const UNSIGNED_LIMIT := 0x1_0000_0000
  const UNSIGNED_LONG_LIMIT := 0x1_0000_0000_0000_0000

  datatype Device = Device(devNode: string, sysName: string, sysNum: string)

  predicate IsDigit(c: char) {
    '0' <= c <= '9'
  }

  /** How many characters at the start of the text are digits. */
  function LeadingDigits(s: string): (n: nat)
    ensures n <= |s|
  {
    if s == "" || !IsDigit(s[0]) then 0 else 1 + LeadingDigits(s[1..])
  }

  function Number(digits: string): nat {
    if digits == "" then 0
    else 10 * Number(digits[..|digits| - 1]) + (digits[|digits| - 1] as int - '0' as int) % 10
  }

  /** What sysType asserts, and what the conversion of sysNum needs not to throw. */
  predicate WellFormed(d: Device) {
    && |d.sysNum| < |d.sysName|
    && d.sysName[|d.sysName| - |d.sysNum|..] == d.sysNum
    && LeadingDigits(d.sysNum) > 0
    && Number(d.sysNum[..LeadingDigits(d.sysNum)]) < UNSIGNED_LONG_LIMIT
  }

  /** The number in the system name, as an unsigned; trailing characters are only warned about. */
  function SysNum(d: Device): nat
    requires WellFormed(d)
  {
    Number(d.sysNum[..LeadingDigits(d.sysNum)]) % UNSIGNED_LIMIT
  }

  /** The system name without the number, as in "video" for "video0". */
  function SysType(d: Device): string
    requires WellFormed(d)
  {
    d.sysName[..|d.sysName| - |d.sysNum|]
  }

  /** Lexicographic order on strings. */
  predicate StringLess(a: string, b: string) {
    b != "" && (a == "" || a[0] < b[0] || (a[0] == b[0] && StringLess(a[1..], b[1..])))
  }

  /** The order that the devices are sorted by. */
  predicate Less(l: Device, r: Device)
    requires WellFormed(l) && WellFormed(r)
  {
    StringLess(SysType(l), SysType(r)) || (SysType(l) == SysType(r) && SysNum(l) < SysNum(r))
  }

  predicate AllWellFormed(devices: seq<Device>) {
    forall i :: 0 <= i < |devices| ==> WellFormed(devices[i])
  }

  predicate Sorted(devices: seq<Device>)
    requires AllWellFormed(devices)
  {
    forall i, j :: 0 <= i < j < |devices| ==> !Less(devices[j], devices[i])
  }

  /** The strings agree up to position `n`, where the first has ended or has the smaller character. */
  predicate FirstDiffers(a: string, b: string, n: nat) {
    n <= |a| && n < |b| && a[..n] == b[..n] && (n == |a| || a[n] < b[n])
  }

  lemma AgreesAtStart(a: string, b: string, n: nat)
    ensures FirstDiffers(a, b, n) ==> n == 0 || (a != "" && b != "" && a[0] == b[0])
  {
    if FirstDiffers(a, b, n) && n > 0 {
      assert a[0] == a[..n][0] && b[0] == b[..n][0];
    }
  }

  lemma {:induction false} StringLessMeans(a: string, b: string)
    ensures StringLess(a, b) <==> exists n: nat :: FirstDiffers(a, b, n)
  {
    if b != "" && (a == "" || a[0] < b[0]) {
      assert FirstDiffers(a, b, 0);
    } else if a != "" && b != "" && a[0] == b[0] {
      var x, y := a[1..], b[1..];
      StringLessMeans(x, y);
      if n: nat :| FirstDiffers(x, y, n) {
        assert a[..n + 1] == [a[0]] + x[..n] && b[..n + 1] == [b[0]] + y[..n];
        assert FirstDiffers(a, b, n + 1);
      }
      if n: nat :| FirstDiffers(a, b, n) {
        assert x[..n - 1] == a[..n][1..] && y[..n - 1] == b[..n][1..];
        assert FirstDiffers(x, y, n - 1);
      }
    } else {
      forall n: nat
        ensures !FirstDiffers(a, b, n)
      {
        AgreesAtStart(a, b, n);
      }
    }
  }

  /** The first device may come before the second: they have one type and their numbers do not descend, or
      the types ascend at the first character where they differ. */
  ghost predicate InPlace(a: Device, b: Device)
    requires WellFormed(a) && WellFormed(b)
  {
    || (SysType(a) == SysType(b) && SysNum(a) <= SysNum(b))
    || exists n: nat :: FirstDiffers(SysType(a), SysType(b), n)
  }

  ghost predicate Ascending(devices: seq<Device>)
    requires AllWellFormed(devices)
  {
    forall i, j :: 0 <= i < j < |devices| ==> InPlace(devices[i], devices[j])
  }

  lemma NotLessMeans(a: Device, b: Device)
    requires WellFormed(a) && WellFormed(b)
    ensures !Less(b, a) <==> InPlace(a, b)
  {
    var x, y := SysType(a), SysType(b);
    StringLessMeans(x, y);
    StringTrichotomy(x, y);
    StringLessIrreflexive(x);
    Chain(x, y, x);
  }

  /** What the sort achieves: types ascend, and numbers ascend within a type. */
  lemma SortedMeans(devices: seq<Device>)
    requires AllWellFormed(devices)
    ensures Sorted(devices) <==> Ascending(devices)
  {
    forall i, j | 0 <= i < j < |devices|
      ensures !Less(devices[j], devices[i]) <==> InPlace(devices[i], devices[j])
    {
      NotLessMeans(devices[i], devices[j]);
    }
  }

  /** The devices of one type are contiguous. */
  lemma TypesContiguous(devices: seq<Device>, i: nat, j: nat, k: nat)
    requires AllWellFormed(devices) && Ascending(devices) && i < j < k < |devices|
    requires SysType(devices[i]) == SysType(devices[k])
    ensures SysType(devices[j]) == SysType(devices[i])
  {
    var x, y := SysType(devices[i]), SysType(devices[j]);
    assert InPlace(devices[i], devices[j]) && InPlace(devices[j], devices[k]);
    StringLessMeans(x, y);
    StringLessMeans(y, x);
    StringLessIrreflexive(x);
    Chain(x, y, x);
  }

  /** The usual notation of a number. */
  function Decimal(n: nat): (digits: string)
    ensures digits != ""
  {
    (if n < 10 then "" else Decimal(n / 10)) + [('0' as int + n % 10) as char]
  }

  lemma {:induction false} NumberOfDecimal(n: nat)
    ensures Number(Decimal(n)) == n
  {
    var digits := Decimal(n);
    if n >= 10 {
      NumberOfDecimal(n / 10);
      assert digits[..|digits| - 1] == Decimal(n / 10);
    } else {
      assert digits[..|digits| - 1] == "";
    }
  }

  lemma {:induction false} LeadingZero(digits: string)
    ensures Number("0" + digits) == Number(digits)
  {
    var padded := "0" + digits;
    if digits == "" {
      assert padded[..|padded| - 1] == "";
    } else {
      LeadingZero(digits[..|digits| - 1]);
      assert padded[..|padded| - 1] == "0" + digits[..|digits| - 1];
    }
  }

  lemma {:induction false} DigitsLead(digits: string, rest: string)
    requires forall i :: 0 <= i < |digits| ==> IsDigit(digits[i])
    requires rest == "" || !IsDigit(rest[0])
    ensures LeadingDigits(digits + rest) == |digits|
  {
    if digits == "" {
      assert digits + rest == rest;
    } else {
      DigitsLead(digits[1..], rest);
      assert (digits + rest)[1..] == digits[1..] + rest;
    }
  }

  lemma {:induction false} DecimalDigits(n: nat)
    ensures forall i :: 0 <= i < |Decimal(n)| ==> IsDigit(Decimal(n)[i])
  {
    if n >= 10 {
      DecimalDigits(n / 10);
    }
  }

  /** What the sort key says of a device that is named by its type and number, as "video10" is: the type, and
      the number as an unsigned. Whatever follows the number is ignored. */
  lemma KeyOfName(d: Device, kind: string, n: nat, rest: string)
    requires kind != "" && n < UNSIGNED_LONG_LIMIT && (rest == "" || !IsDigit(rest[0]))
    requires d.sysNum == Decimal(n) + rest && d.sysName == kind + d.sysNum
    ensures WellFormed(d) && SysType(d) == kind && SysNum(d) == n % 0x1_0000_0000
  {
    DecimalDigits(n);
    DigitsLead(Decimal(n), rest);
    NumberOfDecimal(n);
    assert d.sysNum[..|Decimal(n)|] == Decimal(n);
  }

  lemma {:induction false} StringLessTransitive(a: string, b: string, c: string)
    requires StringLess(a, b) && StringLess(b, c)
    ensures StringLess(a, c)
  {
    if a != "" && a[0] == b[0] && b[0] == c[0] {
      StringLessTransitive(a[1..], b[1..], c[1..]);
    }
  }

  lemma {:induction false} StringLessIrreflexive(a: string)
    ensures !StringLess(a, a)
  {
    if a != "" {
      StringLessIrreflexive(a[1..]);
    }
  }

  lemma {:induction false} StringTrichotomy(a: string, b: string)
    ensures StringLess(a, b) || a == b || StringLess(b, a)
  {
    if a != "" && b != "" && a[0] == b[0] {
      StringTrichotomy(a[1..], b[1..]);
      assert a == [a[0]] + a[1..] && b == [b[0]] + b[1..];
    }
  }

  /** The comparison is a strict weak order, as the sort requires: irreflexive, transitive, and with a
      transitive incomparability. */
  lemma StrictWeakOrder(a: Device, b: Device, c: Device)
    requires WellFormed(a) && WellFormed(b) && WellFormed(c)
    ensures !Less(a, a)
    ensures Less(a, b) && Less(b, c) ==> Less(a, c)
    ensures !Less(b, a) && !Less(c, b) ==> !Less(c, a)
  {
    StringLessIrreflexive(SysType(a));
    StringTrichotomy(SysType(a), SysType(b));
    StringTrichotomy(SysType(b), SysType(c));
    Chain(SysType(a), SysType(b), SysType(c));
    Chain(SysType(c), SysType(b), SysType(a));
    Chain(SysType(c), SysType(a), SysType(b));
    Chain(SysType(b), SysType(c), SysType(a));
    Chain(SysType(a), SysType(c), SysType(a));
  }

  lemma Chain(a: string, b: string, c: string)
    ensures StringLess(a, b) && StringLess(b, c) ==> StringLess(a, c)
  {
    if StringLess(a, b) && StringLess(b, c) {
      StringLessTransitive(a, b, c);
    }
  }

  /** Any list of devices can be put in order. */
  lemma {:induction false} SortedExists(devices: seq<Device>) returns (order: seq<Device>)
    requires AllWellFormed(devices)
    ensures multiset(order) == multiset(devices) && AllWellFormed(order) && Sorted(order)
  {
    if devices == [] {
      order := [];
    } else {
      var d := devices[|devices| - 1];
      var rest := devices[..|devices| - 1];
      assert devices == rest + [d];
      order := SortedExists(rest);
      order := Insert(order, d);
    }
  }

  lemma AppendKeepsOrder(order: seq<Device>, d: Device)
    requires AllWellFormed(order) && WellFormed(d) && Sorted(order)
    requires order != [] ==> !Less(d, order[|order| - 1])
    ensures AllWellFormed(order + [d]) && Sorted(order + [d])
  {
    forall i | 0 <= i < |order|
      ensures !Less(d, order[i])
    {
      StrictWeakOrder(order[i], order[|order| - 1], d);
    }
  }

  lemma {:induction false} Insert(order: seq<Device>, d: Device) returns (r: seq<Device>)
    requires AllWellFormed(order) && WellFormed(d) && Sorted(order)
    ensures multiset(r) == multiset(order) + multiset{d} && AllWellFormed(r) && Sorted(r)
    ensures r != [] && (r[|r| - 1] == d || (order != [] && r[|r| - 1] == order[|order| - 1]))
  {
    hide Less, WellFormed;
    if order == [] || !Less(d, order[|order| - 1]) {
      AppendKeepsOrder(order, d);
      r := order + [d];
    } else {
      var last := order[|order| - 1];
      var init := order[..|order| - 1];
      assert order == init + [last];
      var shorter := Insert(init, d);
      StrictWeakOrder(d, last, d);
      AppendKeepsOrder(shorter, last);
      r := shorter + [last];
    }
  }
}
