/** Percent-encoding: urlcodec.cpp and the pair in GlobalFunc.cpp. */
module UrlCodec {
  import opened Bytes
  import opened Powers

  const PERCENT: byte := '%' as int
  const PLUS: byte := '+' as int
  const SPACE: byte := ' ' as int

  predicate IsAlnum(c: byte) {
    'A' as int <= c <= 'Z' as int || 'a' as int <= c <= 'z' as int || '0' as int <= c <= '9' as int
  }

  // ---- Both encoders, and what any decoder does to their output ----

  function HexDigit(x: nat): (c: byte)
    requires x < 16
  {
    if x > 9 then x + 55 else x + 48
  }

  /** A plain byte stays, a space becomes '+', any other byte c becomes '%' high(c) low(c). */
  function Escape(plain: byte -> bool, high: byte -> byte, c: byte): (e: seq<byte>)
    ensures |e| == 1 || |e| == 3
  {
    if plain(c) then [c]
    else if c == SPACE then [PLUS]
    else [PERCENT, high(c), HexDigit(c % 16)]
  }

  function Escaped(plain: byte -> bool, high: byte -> byte, s: seq<byte>): seq<byte> {
    if s == [] then [] else Escape(plain, high, s[0]) + Escaped(plain, high, s[1..])
  }

  lemma {:induction false} EscapedAppend(plain: byte -> bool, high: byte -> byte, s: seq<byte>, c: byte)
    ensures Escaped(plain, high, s + [c]) == Escaped(plain, high, s) + Escape(plain, high, c)
  {
    if s == [] {
      assert Escaped(plain, high, []) == [];
      assert ([] + [c])[1..] == [];
    } else {
      assert (s + [c])[1..] == s[1..] + [c];
      EscapedAppend(plain, high, s[1..], c);
    }
  }

  /** A byte comes through when it is plain or a space, or the two digits read back as the byte. */
  predicate Survives(plain: byte -> bool, high: byte -> byte, value: byte -> nat, c: byte) {
    plain(c) || c == SPACE || (value(high(c)) * 16 + value(HexDigit(c % 16))) % 256 == c
  }

  // ---- urlcodec.cpp: url_encode and url_decode ----

  predicate IsPlain(c: byte) {
    IsAlnum(c) || c == '-' as int || c == '_' as int || c == '.' as int || c == '~' as int
  }

  /** Macro __INLINE_H_2_C. */
  function DigitValue(x: byte): nat {
    if 'A' as int <= x <= 'Z' as int then x - 'A' as int + 10
    else if 'a' as int <= x <= 'z' as int then x - 'a' as int + 10
    else if '0' as int <= x <= '9' as int then x - '0' as int
    else x
  }

  function Unescaped(e: seq<byte>): seq<byte> {
    if e == [] then []
    else if e[0] == PLUS then [SPACE] + Unescaped(e[1..])
    else if e[0] == PERCENT then
      if |e| > 2 then [(DigitValue(e[1]) * 16 + DigitValue(e[2])) % 256] + Unescaped(e[3..]) else e
    else [e[0]] + Unescaped(e[1..])
  }

  /** The high digit as url_encode computes it. The macro argument is not parenthesised, so for a
      byte c the code shifts right by 4 + 55 or by 4 + 48 instead of adding to the digit. Such a
      count is past the width of int; the count is taken modulo 32 here, as x86-64 does. */
  function ShiftedHigh(c: byte): byte {
    if c / 16 > 9 then ShiftRight(c, 4 + 55) else ShiftRight(c, 4 + 48)
  }

  function ShiftRight(c: byte, count: nat): (r: byte)
    ensures count % 32 >= 8 ==> r == 0
  {
    Pow2Grows(count % 32);
    QuotientSmall(c, Pow2(count % 32));
    c / Pow2(count % 32)
  }

  lemma QuotientSmall(c: nat, p: nat)
    requires p > 0
    ensures 0 <= c / p <= c && (p > c ==> c / p == 0)
  {
    var q, r := c / p, c % p;
    assert c == p * q + r;
    if q >= 1 {
      ProductOfPositive(p, q);
    }
  }

  lemma ProductOfPositive(p: nat, q: nat)
    requires p >= 1 && q >= 1
    ensures p * q >= p && p * q >= q
  {
  }

  lemma Pow2Grows(n: nat)
    ensures n >= 8 ==> Pow2(n) >= 256
  {
    if n > 8 {
      Pow2Grows(n - 1);
    }
  }

  method UrlEncode(d: seq<byte>) returns (e: seq<byte>)
    ensures e == Escaped(IsPlain, ShiftedHigh, d)
  {
    e := [];
    for i := 0 to |d|
      invariant e == Escaped(IsPlain, ShiftedHigh, d[..i])
    {
      EscapedAppend(IsPlain, ShiftedHigh, d[..i], d[i]);
      assert d[..i + 1] == d[..i] + [d[i]];
      if IsAlnum(d[i]) || d[i] == '-' as int || d[i] == '_' as int || d[i] == '.' as int || d[i] == '~' as int {
        e := e + [d[i]];
      } else if d[i] == SPACE {
        e := e + [PLUS];
      } else {
        e := e + [PERCENT];
        e := e + [ShiftedHigh(d[i])];
        e := e + [HexDigit(d[i] % 16)];
      }
    }
    assert d[..|d|] == d;
  }

  lemma UnescapedCases(e: seq<byte>)
    ensures e == [] ==> Unescaped(e) == []
    ensures e != [] && e[0] == PLUS ==> Unescaped(e) == [SPACE] + Unescaped(e[1..])
    ensures e != [] && e[0] == PERCENT && |e| <= 2 ==> Unescaped(e) == e
    ensures |e| > 2 && e[0] == PERCENT ==>
      Unescaped(e) == [(DigitValue(e[1]) * 16 + DigitValue(e[2])) % 256] + Unescaped(e[3..])
    ensures e != [] && e[0] != PLUS && e[0] != PERCENT ==> Unescaped(e) == [e[0]] + Unescaped(e[1..])
  {
  }

  lemma OneByteOn(done: seq<byte>, c: byte, rest: seq<byte>)
    ensures done + ([c] + rest) == done + [c] + rest
  {
  }

  /** A truncated escape is copied as it is. */
  method CopyRest(done: seq<byte>, e: seq<byte>, from: nat) returns (d: seq<byte>)
    requires from <= |e|
    ensures d == done + e[from..]
  {
    d := done;
    for k := from to |e|
      invariant d == done + e[from..k]
    {
      d := d + [e[k]];
    }
  }

  method UrlDecode(e: seq<byte>) returns (d: seq<byte>)
    ensures d == Unescaped(e)
  {
    hide Unescaped, DigitValue;
    d := [];
    var i := 0;
    ghost var left := e;
    while i < |e|
      invariant 0 <= i <= |e| && left == e[i..] && d + Unescaped(left) == Unescaped(e)
    {
      UnescapedCases(left);
      if e[i] == PLUS {
        OneByteOn(d, SPACE, Unescaped(left[1..]));
        d := d + [SPACE];
        left := left[1..];
      } else if e[i] == PERCENT {
        if i + 2 < |e| {
          var c: byte := (DigitValue(e[i + 1]) * 16 + DigitValue(e[i + 2])) % 256;
          OneByteOn(d, c, Unescaped(left[3..]));
          d := d + [c];
          i := i + 2;
          left := left[3..];
        } else {
          d := CopyRest(d, e, i);
          return;
        }
      } else {
        OneByteOn(d, e[i], Unescaped(left[1..]));
        d := d + [e[i]];
        left := left[1..];
      }
      i := i + 1;
    }
    UnescapedCases(left);
  }

  lemma PlainIsNoSign(c: byte)
    ensures IsPlain(c) ==> c != PERCENT && c != PLUS && c != SPACE
  {
  }

  /** The byte a decoder makes of the escape of c. */
  function Returned(plain: byte -> bool, high: byte -> byte, value: byte -> nat, c: byte): byte {
    if plain(c) || c == SPACE then c else (value(high(c)) * 16 + value(HexDigit(c % 16))) % 256
  }

  lemma UnescapedEscape(high: byte -> byte, c: byte, e: seq<byte>)
    ensures Unescaped(Escape(IsPlain, high, c) + e) == [Returned(IsPlain, high, DigitValue, c)] + Unescaped(e)
  {
    hide Unescaped, DigitValue;
    PlainIsNoSign(c);
    var x := Escape(IsPlain, high, c);
    UnescapedCases(x + e);
    assert (x + e)[|x|..] == e;
  }

  /** url_decode maps the escapes back byte by byte, whatever the high digits are. */
  lemma {:induction false} UnescapedEscaped(high: byte -> byte, s: seq<byte>)
    ensures var t := Unescaped(Escaped(IsPlain, high, s));
            |t| == |s| && forall i | 0 <= i < |s| :: t[i] == Returned(IsPlain, high, DigitValue, s[i])
  {
    hide Returned;
    if s != [] {
      UnescapedEscaped(high, s[1..]);
      UnescapedEscape(high, s[0], Escaped(IsPlain, high, s[1..]));
    }
  }

  /** For any rendering of the high digit: the round trip holds exactly when every byte survives. */
  lemma RoundTripWhen(high: byte -> byte, s: seq<byte>)
    ensures Unescaped(Escaped(IsPlain, high, s)) == s <==>
            forall i | 0 <= i < |s| :: Survives(IsPlain, high, DigitValue, s[i])
  {
    UnescapedEscaped(high, s);
    var t := Unescaped(Escaped(IsPlain, high, s));
    if t == s {
      forall i | 0 <= i < |s|
        ensures Survives(IsPlain, high, DigitValue, s[i])
      {
        assert t[i] == s[i];
      }
    }
  }

  lemma ShiftedHighIsZero(c: byte)
    ensures ShiftedHigh(c) == 0
  {
  }

  lemma LowDigitReadsBack(x: nat)
    requires x < 16
    ensures DigitValue(HexDigit(x)) == x
  {
  }

  /** url_decode(url_encode(s)) is s exactly when s holds no byte of 16 or more that is escaped:
      every escaped byte comes back as its low four bits. */
  lemma UrlRoundTripExactly(s: seq<byte>)
    ensures Unescaped(Escaped(IsPlain, ShiftedHigh, s)) == s <==>
            forall i | 0 <= i < |s| :: IsPlain(s[i]) || s[i] == SPACE || s[i] < 16
  {
    hide Unescaped, Escaped;
    RoundTripWhen(ShiftedHigh, s);
    forall i | 0 <= i < |s|
      ensures Survives(IsPlain, ShiftedHigh, DigitValue, s[i]) <==> (IsPlain(s[i]) || s[i] == SPACE || s[i] < 16)
    {
      SurvivesShifted(s[i]);
    }
  }

  lemma SurvivesShifted(c: byte)
    ensures Survives(IsPlain, ShiftedHigh, DigitValue, c) <==> (IsPlain(c) || c == SPACE || c < 16)
  {
    ShiftedHighIsZero(c);
    LowDigitReadsBack(c % 16);
    LowOnly(c);
    hide IsPlain, ShiftedHigh, HexDigit, DigitValue;
  }

  lemma LowOnly(c: byte)
    ensures (DigitValue(0) * 16 + c % 16) % 256 == c % 16
    ensures c % 16 == c <==> c < 16
  {
  }

  /** A byte for which the promise of the pair fails: '/' comes back as the byte 15. */
  lemma SlashIsLost()
    ensures Unescaped(Escaped(IsPlain, ShiftedHigh, ['/' as int])) == [15]
  {
    UnescapedEscaped(ShiftedHigh, ['/' as int]);
    ShiftedHighIsZero('/' as int);
    LowDigitReadsBack(15);
  }

  // ---- GlobalFunc.cpp: UrlEncode and UrlDecode ----

  /** GlobalFunc also leaves seven more signs alone. */
  predicate IsGlobalPlain(c: byte) {
    IsPlain(c) || c == '=' as int || c == '!' as int || c == '*' as int || c == 39 ||
    c == '(' as int || c == ')' as int || c == '&' as int
  }

  /** ToHex of the high four bits. */
  function GlobalHigh(c: byte): byte {
    HexDigit(c / 16)
  }

  /** FromHex; `stale` is what its unset variable holds when x is no digit or letter. */
  function FromHex(x: byte, stale: byte): nat {
    if 'A' as int <= x <= 'Z' as int then x - 'A' as int + 10
    else if 'a' as int <= x <= 'z' as int then x - 'a' as int + 10
    else if '0' as int <= x <= '9' as int then x - '0' as int
    else stale
  }

  function At(e: seq<byte>, i: nat): byte {
    if i < |e| then e[i] else 0
  }

  function GlobalUnescaped(e: seq<byte>, stale: byte): seq<byte> {
    if e == [] then []
    else if e[0] == PLUS then [SPACE] + GlobalUnescaped(e[1..], stale)
    else if e[0] == PERCENT then
      [(FromHex(At(e, 1), stale) * 16 + FromHex(At(e, 2), stale)) % 256] +
      (if |e| > 3 then GlobalUnescaped(e[3..], stale) else [])
    else [e[0]] + GlobalUnescaped(e[1..], stale)
  }

  ghost function From(e: seq<byte>, i: nat): seq<byte> {
    if i < |e| then e[i..] else []
  }

  /** What the decoder does at position i. */
  lemma GlobalUnescapedAt(e: seq<byte>, i: nat, stale: byte)
    requires i < |e|
    ensures GlobalUnescaped(From(e, i), stale) ==
            if e[i] == PLUS then
              [SPACE] + GlobalUnescaped(From(e, i + 1), stale)
            else if e[i] == PERCENT then
              [(FromHex(At(e, i + 1), stale) * 16 + FromHex(At(e, i + 2), stale)) % 256]
              + GlobalUnescaped(From(e, i + 3), stale)
            else
              [e[i]] + GlobalUnescaped(From(e, i + 1), stale)
  {
    hide FromHex;
    var s := From(e, i);
    FromParts(e, i);
    assert GlobalUnescaped(s, stale) == if s[0] == PLUS then
        [SPACE] + GlobalUnescaped(s[1..], stale)
      else if s[0] == PERCENT then
        [(FromHex(At(s, 1), stale) * 16 + FromHex(At(s, 2), stale)) % 256] + GlobalUnescaped(From(s, 3), stale)
      else
        [s[0]] + GlobalUnescaped(s[1..], stale);
    hide GlobalUnescaped, From, At;
  }

  lemma FromParts(e: seq<byte>, i: nat)
    requires i < |e|
    ensures var s := From(e, i);
            && s != [] && s[0] == e[i] && s[1..] == From(e, i + 1) && From(s, 3) == From(e, i + 3)
            && At(s, 1) == At(e, i + 1) && At(s, 2) == At(e, i + 2)
  {
  }

  method GlobalUrlEncode(str: seq<byte>) returns (strTemp: seq<byte>)
    ensures strTemp == Escaped(IsGlobalPlain, GlobalHigh, str)
  {
    hide IsGlobalPlain;
    strTemp := [];
    for i := 0 to |str|
      invariant strTemp == Escaped(IsGlobalPlain, GlobalHigh, str[..i])
    {
      EscapedAppend(IsGlobalPlain, GlobalHigh, str[..i], str[i]);
      assert str[..i + 1] == str[..i] + [str[i]];
      if IsGlobalPlain(str[i]) {
        strTemp := strTemp + [str[i]];
      } else if str[i] == SPACE {
        strTemp := strTemp + [PLUS];
      } else {
        strTemp := strTemp + [PERCENT];
        strTemp := strTemp + [HexDigit(str[i] / 16)];
        strTemp := strTemp + [HexDigit(str[i] % 16)];
      }
    }
    assert str[..|str|] == str;
  }

  method GlobalUrlDecode(str: seq<byte>, stale: byte) returns (strTemp: seq<byte>)
    ensures strTemp == GlobalUnescaped(str, stale)
  {
    hide GlobalUnescaped, FromHex, At;
    strTemp := [];
    var i := 0;
    assert From(str, 0) == str;
    while i < |str|
      invariant 0 <= i && strTemp + GlobalUnescaped(From(str, i), stale) == GlobalUnescaped(str, stale)
    {
      GlobalUnescapedAt(str, i, stale);
      if str[i] == PLUS {
        strTemp := strTemp + [SPACE];
      } else if str[i] == PERCENT {
        i := i + 1;
        var high := FromHex(At(str, i), stale);
        i := i + 1;
        var low := FromHex(At(str, i), stale);
        strTemp := strTemp + [(high * 16 + low) % 256];
      } else {
        strTemp := strTemp + [str[i]];
      }
      i := i + 1;
    }
    NothingLeft(str, i, stale);
  }

  lemma NothingLeft(e: seq<byte>, i: nat, stale: byte)
    requires i >= |e|
    ensures GlobalUnescaped(From(e, i), stale) == []
  {
  }

  lemma FromHexReadsBack(x: nat, stale: byte)
    requires x < 16
    ensures FromHex(HexDigit(x), stale) == x
  {
  }

  lemma GlobalEscapeRoundTrip(c: byte, e: seq<byte>, stale: byte)
    ensures GlobalUnescaped(Escape(IsGlobalPlain, GlobalHigh, c) + e, stale) == [c] + GlobalUnescaped(e, stale)
  {
    hide FromHex;
    FromHexReadsBack(c / 16, stale);
    FromHexReadsBack(c % 16, stale);
    var x := Escape(IsGlobalPlain, GlobalHigh, c);
    assert (x + e)[|x|..] == e;
  }

  /** This pair does keep the promise: decoding an encoding gives every string back. */
  lemma {:induction false} GlobalRoundTrip(s: seq<byte>, stale: byte)
    ensures GlobalUnescaped(Escaped(IsGlobalPlain, GlobalHigh, s), stale) == s
  {
    if s != [] {
      GlobalRoundTrip(s[1..], stale);
      GlobalEscapeRoundTrip(s[0], Escaped(IsGlobalPlain, GlobalHigh, s[1..]), stale);
    }
  }
}
