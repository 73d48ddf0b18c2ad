/** IPFinder.cpp: addresses as dotted decimal text. Strings are sequences without a terminator. */
module IpText {

  const ULONG_MODULUS := 0x1_0000_0000_0000_0000
  const LONG_MAX := 0x7FFF_FFFF_FFFF_FFFF

  predicate IsDigit(c: char) {
    '0' <= c <= '9'
  }

  function DigitOf(c: char): (d: nat)
    requires IsDigit(c)
    ensures d < 10
  {
    c as int - '0' as int
  }

  function DigitChar(d: nat): (c: char)
    requires d < 10
    ensures IsDigit(c) && DigitOf(c) == d
  {
    '0' + d as char
  }

  /** Digits, most significant first, as printf writes a number. */
  function Decimal(n: nat): (s: string)
    ensures s != [] && forall i | 0 <= i < |s| :: IsDigit(s[i])
    ensures n < 10 ==> |s| == 1
    ensures n < 1000 ==> |s| <= 3
  {
    if n < 10 then [DigitChar(n)] else Decimal(n / 10) + [DigitChar(n % 10)]
  }

  ghost function NumberOf(s: string): nat
    requires forall i | 0 <= i < |s| :: IsDigit(s[i])
  {
    if s == [] then 0 else NumberOf(s[..|s| - 1]) * 10 + DigitOf(s[|s| - 1])
  }

  lemma {:induction false} DecimalRoundTrip(n: nat)
    ensures NumberOf(Decimal(n)) == n
  {
    if n >= 10 {
      DecimalRoundTrip(n / 10);
      assert Decimal(n)[..|Decimal(n)| - 1] == Decimal(n / 10);
    } else {
      assert Decimal(n)[..0] == [];
    }
  }

  // ---- What the text means ----

  /** The digits a string begins with. */
  function LeadingDigits(s: string): (n: nat)
    ensures n <= |s| && (forall i | 0 <= i < n :: IsDigit(s[i])) && (n < |s| ==> !IsDigit(s[n]))
  {
    if s == [] || !IsDigit(s[0]) then 0 else 1 + LeadingDigits(s[1..])
  }

  /** The number the string begins with, 0 if none. */
  ghost function LeadingNumber(s: string): nat {
    NumberOf(s[..LeadingDigits(s)])
  }

  /** The number as the GNU C library's atoi gives it: the largest long if it fits no long, and of
      that the low 32 bits read as an int. */
  function ToInt(n: nat): (i: int)
    ensures -0x8000_0000 <= i < 0x8000_0000
    ensures n < 0x8000_0000 ==> i == n
  {
    var low := (if n > LONG_MAX then LONG_MAX else n) % 0x1_0000_0000;
    if low < 0x8000_0000 then low else low - 0x1_0000_0000
  }

  function FirstDot(s: string): (i: nat)
    ensures i <= |s| && (forall k | 0 <= k < i :: s[k] != '.') && (i < |s| ==> s[i] == '.')
  {
    if s == [] || s[0] == '.' then 0 else 1 + FirstDot(s[1..])
  }

  function Wrap(x: int): nat {
    x % ULONG_MODULUS
  }

  /** The fields between the dots, read to base 256 and wrapped to an unsigned long. */
  ghost function FieldsValue(s: string, above: nat): nat
    decreases |s|
  {
    var p := FirstDot(s);
    if p == |s| then
      Wrap(above + ToInt(LeadingNumber(s)))
    else
      FieldsValue(s[p + 1..], Wrap(Wrap(above + ToInt(LeadingNumber(s))) * 0x100))
  }

  /** Digits and dots only, no two dots together, at least seven characters. */
  ghost predicate RightIpString(s: string) {
    && |s| >= 7
    && (forall i | 0 <= i < |s| :: IsDigit(s[i]) || s[i] == '.')
    && (forall i | 0 <= i < |s| - 1 :: s[i] == '.' ==> s[i + 1] != '.')
  }

  function IpString(ip: nat): string {
    Decimal(ip / 0x100_0000 % 0x100) + "." + Decimal(ip / 0x1_0000 % 0x100) + "."
    + Decimal(ip / 0x100 % 0x100) + "." + Decimal(ip % 0x100)
  }

  // ---- The code ----

  /** The neighbours of every dot must be digits, where it has them. */
  method IsRightIpString(s: string) returns (ok: bool)
    ensures ok <==> RightIpString(s)
  {
    var len := |s|;
    if len < 7 {
      return false;
    }
    for i := 0 to len
      invariant forall k | 0 <= k < i :: IsDigit(s[k]) || s[k] == '.'
      invariant forall k | 0 <= k < i && k < len - 1 && s[k] == '.' :: IsDigit(s[k + 1])
    {
      if !IsDigit(s[i]) && s[i] != '.' {
        return false;
      }
      if s[i] == '.' {
        if 0 == i {
          if !IsDigit(s[i + 1]) {
            NotRight(s, i);
            return false;
          }
        } else if len - 1 == i {
          if !IsDigit(s[i - 1]) {
            return false;
          }
        } else {
          if !IsDigit(s[i - 1]) || !IsDigit(s[i + 1]) {
            NotRight(s, i);
            return false;
          }
        }
      }
    }
    ok := true;
  }

  /** A dot before something that is no digit. */
  lemma NotRight(s: string, i: nat)
    requires i + 1 < |s| && s[i] == '.'
    ensures !IsDigit(s[i + 1]) ==> !RightIpString(s)
  {
  }

  /** atoi of the C library. */
  method Atoi(s: string) returns (num: int)
    ensures num == ToInt(LeadingNumber(s))
  {
    var n := 0;
    var i := 0;
    ghost var d := LeadingDigits(s);
    assert s[..0] == [];
    while i < |s| && IsDigit(s[i])
      invariant i <= d && n == NumberOf(s[..i])
    {
      assert s[..i + 1][..i] == s[..i];
      n := n * 10 + DigitOf(s[i]);
      i := i + 1;
    }
    num := ToInt(n);
  }

  method IpString2IpValue(s: string) returns (ip: nat)
    ensures ip == if RightIpString(s) then FieldsValue(s, 0) else 0
  {
    hide RightIpString, LeadingNumber, ToInt, FirstDot, Wrap;
    var ok := IsRightIpString(s);
    if !ok {
      return 0;
    }
    ip := 0;
    var rest := s;
    var pos := FirstDot(rest);
    while pos < |rest|
      invariant pos == FirstDot(rest) && FieldsValue(s, 0) == FieldsValue(rest, ip)
      decreases |rest|
    {
      var num := Atoi(rest);
      ip := Wrap(ip + num);
      ip := Wrap(ip * 0x100);
      rest := rest[pos + 1..];
      pos := FirstDot(rest);
    }
    var num := Atoi(rest);
    ip := Wrap(ip + num);
  }

  /** snprintf writes at most nMaxCount - 1 characters. */
  method IpValue2IpString(ip: nat, maxCount: nat) returns (s: string)
    requires maxCount >= 1
    ensures s <= IpString(ip) && |s| == if |IpString(ip)| < maxCount then |IpString(ip)| else maxCount - 1
    ensures maxCount >= 16 ==> s == IpString(ip)
  {
    s := IpString(ip);
    if |s| >= maxCount {
      s := s[..maxCount - 1];
    }
  }

  // ---- There and back ----

  /** A number followed by a dot or by nothing is what is read first. */
  lemma FieldRead(n: nat, rest: string)
    requires rest == [] || rest[0] == '.'
    ensures LeadingNumber(Decimal(n) + rest) == n
    ensures FirstDot(Decimal(n) + rest) == |Decimal(n)|
  {
    hide Decimal, NumberOf;
    var s := Decimal(n) + rest;
    assert LeadingDigits(s) == |Decimal(n)|;
    assert s[..|Decimal(n)|] == Decimal(n);
    DecimalRoundTrip(n);
  }

  lemma DottedRead(n: nat, rest: string, above: nat)
    requires n < 0x8000_0000
    ensures FieldsValue(Decimal(n) + "." + rest, above) == FieldsValue(rest, Wrap(Wrap(above + n) * 0x100))
  {
    hide Decimal, LeadingNumber, FirstDot;
    FieldRead(n, "." + rest);
    assert Decimal(n) + "." + rest == Decimal(n) + ("." + rest);
    assert (Decimal(n) + "." + rest)[|Decimal(n)| + 1..] == rest;
  }

  lemma LastRead(n: nat, above: nat)
    requires n < 0x8000_0000
    ensures FieldsValue(Decimal(n), above) == Wrap(above + n)
  {
    hide Decimal, LeadingNumber, FirstDot;
    FieldRead(n, "");
    assert Decimal(n) + "" == Decimal(n);
  }

  lemma FourFields(a: nat, b: nat, c: nat, d: nat, first: string, second: string, third: string)
    requires a < 0x100 && b < 0x100 && c < 0x100 && d < 0x100
    requires first == Decimal(a) + "." + second && second == Decimal(b) + "." + third
    requires third == Decimal(c) + "." + Decimal(d)
    ensures FieldsValue(first, 0) == ((a * 0x100 + b) * 0x100 + c) * 0x100 + d
  {
    hide Decimal, FieldsValue, Wrap;
    DottedSmall(a, second, 0);
    DottedSmall(b, third, a * 0x100);
    DottedSmall(c, Decimal(d), (a * 0x100 + b) * 0x100);
    LastRead(d, ((a * 0x100 + b) * 0x100 + c) * 0x100);
    Unwrapped(((a * 0x100 + b) * 0x100 + c) * 0x100 + d);
  }

  lemma DottedSmall(n: nat, rest: string, above: nat)
    requires n < 0x8000_0000 && (above + n) * 0x100 < ULONG_MODULUS
    ensures FieldsValue(Decimal(n) + "." + rest, above) == FieldsValue(rest, (above + n) * 0x100)
  {
    hide Decimal, FieldsValue, Wrap;
    DottedRead(n, rest, above);
    Unwrapped(above + n);
    Unwrapped((above + n) * 0x100);
  }

  lemma Regroup(a: string, b: string, c: string, d: string)
    ensures a + "." + b + "." + c + "." + d == a + "." + (b + "." + (c + "." + d))
  {
  }

  lemma Unwrapped(x: nat)
    requires x < ULONG_MODULUS
    ensures Wrap(x) == x
  {
  }

  lemma FourBytes(ip: nat)
    ensures ((ip / 0x100_0000 % 0x100 * 0x100 + ip / 0x1_0000 % 0x100) * 0x100 + ip / 0x100 % 0x100) * 0x100 + ip % 0x100
         == ip % 0x1_0000_0000
  {
    TopByte(ip, 0x100);
    TopByte(ip, 0x1_0000);
    TopByte(ip, 0x100_0000);
  }

  lemma TopByte(ip: nat, m: nat)
    requires m == 0x100 || m == 0x1_0000 || m == 0x100_0000
    ensures ip % (0x100 * m) == ip / m % 0x100 * m + ip % m
  {
    var q := ip / m;
    assert ip == 0x100 * m * (q / 0x100) + q % 0x100 * m + ip % m;
  }

  /** Every printed address is accepted and read back, cut to the 32 bits an address has. */
  lemma AddressRoundTrip(ip: nat)
    ensures RightIpString(IpString(ip)) && |IpString(ip)| <= 15
    ensures FieldsValue(IpString(ip), 0) == ip % 0x1_0000_0000
  {
    hide Decimal, FieldsValue;
    var a, b, c, d := ip / 0x100_0000 % 0x100, ip / 0x1_0000 % 0x100, ip / 0x100 % 0x100, ip % 0x100;
    var third := Decimal(c) + "." + Decimal(d);
    var second := Decimal(b) + "." + third;
    Regroup(Decimal(a), Decimal(b), Decimal(c), Decimal(d));
    FourFields(a, b, c, d, Decimal(a) + "." + second, second, third);
    FourBytes(ip);
  }

  method PrintAndRead(ip: nat) returns (back: nat)
    ensures back == ip % 0x1_0000_0000
  {
    hide *;
    AddressRoundTrip(ip);
    var s := IpValue2IpString(ip, 16);
    back := IpString2IpValue(s);
  }

  // ---- Which texts are addresses ----

  /** The texts between the dots. */
  ghost function Fields(s: string): seq<string>
    decreases |s|
  {
    var p := FirstDot(s);
    if p == |s| then [s] else [s[..p]] + Fields(s[p + 1..])
  }

  ghost predicate AllDigits(f: string) {
    f != [] && forall i | 0 <= i < |f| :: IsDigit(f[i])
  }

  /** A byte as a person writes it: one to three digits, no zero before another digit. */
  ghost predicate PlainByte(f: string) {
    && AllDigits(f)
    && |f| <= 3
    && (|f| > 1 ==> f[0] != '0')
    && NumberOf(f) <= 0xFF
  }

  ghost predicate FourPlainBytes(s: string) {
    |Fields(s)| == 4 && forall i | 0 <= i < 4 :: PlainByte(Fields(s)[i])
  }

  lemma {:induction false} NoLeadingZero(n: nat)
    requires n > 0
    ensures Decimal(n)[0] != '0'
  {
    if n >= 10 {
      NoLeadingZero(n / 10);
    }
  }

  lemma DecimalIsPlain(n: nat)
    requires n < 0x100
    ensures PlainByte(Decimal(n))
  {
    DecimalRoundTrip(n);
    if n > 0 {
      NoLeadingZero(n);
    }
  }

  lemma {:induction false} NumberPositive(f: string)
    requires AllDigits(f) && f[0] != '0'
    ensures NumberOf(f) > 0
  {
    if |f| == 1 {
      assert f[..0] == [];
    } else {
      NumberPositive(f[..|f| - 1]);
      assert NumberOf(f) == NumberOf(f[..|f| - 1]) * 10 + DigitOf(f[|f| - 1]);
    }
  }

  /** Digits without a leading zero are what printf writes for their number. */
  lemma {:induction false} PlainIsDecimal(f: string)
    requires AllDigits(f) && (|f| > 1 ==> f[0] != '0')
    ensures Decimal(NumberOf(f)) == f
  {
    var last := |f| - 1;
    if last == 0 {
      assert f[..last] == [];
    } else {
      PlainIsDecimal(f[..last]);
      NumberPositive(f[..last]);
      assert f == f[..last] + [f[last]];
    }
  }

  lemma FieldsDotted(f: string, rest: string)
    requires AllDigits(f)
    ensures Fields(f + "." + rest) == [f] + Fields(rest)
  {
    var s := f + "." + rest;
    assert s[|f|] == '.' && forall k | 0 <= k < |f| :: s[k] == f[k];
    assert FirstDot(s) == |f|;
    assert s[..|f|] == f && s[|f| + 1..] == rest;
  }

  lemma FieldsLast(f: string)
    requires AllDigits(f)
    ensures Fields(f) == [f]
  {
  }

  /** A text of more than one field is its first field, a dot and the others. */
  lemma FieldsSplit(s: string) returns (rest: string)
    requires |Fields(s)| > 1
    ensures s == Fields(s)[0] + "." + rest && Fields(rest) == Fields(s)[1..]
  {
    rest := s[FirstDot(s) + 1..];
  }

  lemma FourJoined(a: string, b: string, c: string, d: string)
    requires AllDigits(a) && AllDigits(b) && AllDigits(c) && AllDigits(d)
    ensures Fields(a + "." + b + "." + c + "." + d) == [a, b, c, d]
  {
    hide Fields, AllDigits;
    Regroup(a, b, c, d);
    FieldsDotted(a, b + "." + (c + "." + d));
    FieldsDotted(b, c + "." + d);
    FieldsDotted(c, d);
    FieldsLast(d);
  }

  lemma FourSplit(s: string)
    requires |Fields(s)| == 4
    ensures s == Fields(s)[0] + "." + Fields(s)[1] + "." + Fields(s)[2] + "." + Fields(s)[3]
  {
    hide Fields;
    var t := FieldsSplit(s);
    var u := FieldsSplit(t);
    var v := FieldsSplit(u);
    assert Fields(v) == [Fields(s)[3]];
    OneField(v);
    Regroup(Fields(s)[0], Fields(s)[1], Fields(s)[2], Fields(s)[3]);
  }

  lemma OneField(s: string)
    requires |Fields(s)| == 1
    ensures Fields(s) == [s]
  {
  }

  lemma AddressIsPlain(ip: nat)
    ensures FourPlainBytes(IpString(ip))
  {
    hide Decimal, Fields, PlainByte;
    var a, b, c, d := ip / 0x100_0000 % 0x100, ip / 0x1_0000 % 0x100, ip / 0x100 % 0x100, ip % 0x100;
    DecimalIsPlain(a);
    DecimalIsPlain(b);
    DecimalIsPlain(c);
    DecimalIsPlain(d);
    FourJoined(Decimal(a), Decimal(b), Decimal(c), Decimal(d));
  }

  ghost function FromBytes(a: nat, b: nat, c: nat, d: nat): nat {
    ((a * 0x100 + b) * 0x100 + c) * 0x100 + d
  }

  lemma BytesBack(a: nat, b: nat, c: nat, d: nat)
    requires a < 0x100 && b < 0x100 && c < 0x100 && d < 0x100
    ensures
      var ip := FromBytes(a, b, c, d);
      ip / 0x100_0000 % 0x100 == a && ip / 0x1_0000 % 0x100 == b && ip / 0x100 % 0x100 == c && ip % 0x100 == d
  {
  }

  lemma PlainIsAddress(s: string) returns (ip: nat)
    requires FourPlainBytes(s)
    ensures s == IpString(ip) && ip < 0x1_0000_0000
  {
    hide Decimal, Fields, NumberOf;
    var f := Fields(s);
    var a, b, c, d := NumberOf(f[0]), NumberOf(f[1]), NumberOf(f[2]), NumberOf(f[3]);
    PlainIsDecimal(f[0]);
    PlainIsDecimal(f[1]);
    PlainIsDecimal(f[2]);
    PlainIsDecimal(f[3]);
    FourSplit(s);
    ip := FromBytes(a, b, c, d);
    BytesBack(a, b, c, d);
  }

  /** The texts printed for some address are exactly those of four bytes in plain decimal. The test
      accepts them all. */
  lemma AddressExactly(s: string)
    ensures (exists ip: nat :: s == IpString(ip)) <==> FourPlainBytes(s)
    ensures FourPlainBytes(s) ==> RightIpString(s)
  {
    hide IpString, FourPlainBytes, RightIpString;
    if FourPlainBytes(s) {
      var ip := PlainIsAddress(s);
      AddressRoundTrip(ip);
    }
    forall ip: nat | s == IpString(ip)
      ensures FourPlainBytes(s)
    {
      AddressIsPlain(ip);
    }
  }

  /** A text the test accepts comes back from its value exactly when it is four bytes in plain
      decimal: every other accepted text is the text of no address. */
  lemma AcceptedIsAddressWhen(s: string)
    requires RightIpString(s)
    ensures IpString(FieldsValue(s, 0)) == s <==> FourPlainBytes(s)
  {
    hide IpString, FourPlainBytes, RightIpString, FieldsValue;
    AddressExactly(s);
    if FourPlainBytes(s) {
      var ip := PlainIsAddress(s);
      AddressRoundTrip(ip);
    }
  }

  lemma OnlyDigits(s: string)
    requires AllDigits(s)
    ensures |s| >= 7 ==> RightIpString(s)
    ensures !FourPlainBytes(s)
  {
    hide Fields;
    FieldsLast(s);
  }

  lemma DotFirst(rest: string)
    ensures !FourPlainBytes("." + rest)
  {
    var s := "." + rest;
    assert s[0] == '.' && s[..0] == [];
    assert Fields(s)[0] == [];
  }

  /** Seven digits are accepted and are one field; dots at both ends are accepted. */
  lemma NoAddressAccepted()
    ensures RightIpString("1234567") && RightIpString(".1.2.3.4.5.6.")
    ensures forall ip: nat :: IpString(ip) != "1234567" && IpString(ip) != ".1.2.3.4.5.6."
  {
    hide IpString, FourPlainBytes;
    OnlyDigits("1234567");
    AddressExactly("1234567");
    DotFirst("1.2.3.4.5.6.");
    assert "." + "1.2.3.4.5.6." == ".1.2.3.4.5.6.";
    AddressExactly(".1.2.3.4.5.6.");
  }

  /** So are four fields that are no bytes, or no plain ones. */
  lemma NoPlainByteAccepted(last: string)
    requires AllDigits(last) && !PlainByte(last)
    ensures RightIpString("1.2.3." + last) && !FourPlainBytes("1.2.3." + last)
  {
    hide NumberOf, Fields, PlainByte;
    FourJoined("1", "2", "3", last);
    assert "1.2.3." + last == "1" + "." + "2" + "." + "3" + "." + last;
    assert Fields("1.2.3." + last)[3] == last;
  }
}
