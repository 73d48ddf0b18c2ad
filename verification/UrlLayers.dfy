/** URL::Decode and URL::MultipleDecode: a decoder that reads two layers of encoding in one
    pass and repeats the pass while it meets more, applied to texts encoded any number of times. */
module UrlLayers {
  import opened Bytes
  import opened UrlCodec

  // ---- One pass ----

  predicate IsHex(c: byte) {
    '0' as int <= c <= '9' as int || 'A' as int <= c <= 'F' as int || 'a' as int <= c <= 'f' as int
  }

  /** CharToInt, for the characters it does not answer with -1. */
  function HexValue(c: byte): (v: nat)
    requires IsHex(c)
    ensures v < 16
  {
    if '0' as int <= c <= '9' as int then c - '0' as int
    else if 'a' as int <= c <= 'f' as int then c - 'a' as int + 10
    else c - 'A' as int + 10
  }

  /** StrToBin: (h << 4) | l on chars, where the -1 of a wrong digit sets all the bits it covers. */
  function StrToBin(h: byte, l: byte): byte {
    if !IsHex(l) then 255
    else if !IsHex(h) then 240 + HexValue(l)
    else 16 * HexValue(h) + HexValue(l)
  }

  datatype Passed = Passed(text: seq<byte>, again: bool)

  function Before(c: byte, again: bool, p: Passed): Passed {
    Passed([c] + p.text, again || p.again)
  }

  function Drop(s: seq<byte>, n: nat): (t: seq<byte>)
    ensures |t| == if n <= |s| then |s| - n else 0
  {
    if n <= |s| then s[n..] else []
  }

  /** One call of Decode: its result and whether it returns 1. Reads past the end give zero. */
  function Pass(s: seq<byte>): Passed
    decreases |s|
  {
    if s == [] then Passed([], false)
    else if s[0] == PERCENT then
      var c := StrToBin(At(s, 1), At(s, 2));
      if c == PERCENT then
        var d := StrToBin(At(s, 3), At(s, 4));
        Before(d, d == PERCENT, Pass(Drop(s, 5)))
      else Before(c, false, Pass(Drop(s, 3)))
    else if s[0] == PLUS then Before(SPACE, false, Pass(s[1..]))
    else Before(s[0], false, Pass(s[1..]))
  }

  lemma PercentNeedsDigits(h: byte, l: byte)
    requires StrToBin(h, l) == PERCENT
    ensures IsHex(h) && IsHex(l)
  {
  }

  /** A pass never lengthens the text, and one that asks for another makes it shorter by four. */
  lemma {:induction false} PassShortens(s: seq<byte>)
    ensures |Pass(s).text| + (if Pass(s).again then 4 else 0) <= |s|
    decreases |s|
  {
    hide StrToBin;
    if s == [] {
    } else if s[0] == PERCENT {
      var c := StrToBin(At(s, 1), At(s, 2));
      if c == PERCENT {
        PassShortens(Drop(s, 5));
        var d := StrToBin(At(s, 3), At(s, 4));
        if d == PERCENT {
          PercentNeedsDigits(At(s, 3), At(s, 4));
        }
      } else {
        PassShortens(Drop(s, 3));
      }
    } else {
      PassShortens(s[1..]);
    }
  }

  /** What a pass does at position i. */
  lemma PassAt(s: seq<byte>, i: nat)
    requires i < |s|
    ensures var c, d := StrToBin(At(s, i + 1), At(s, i + 2)), StrToBin(At(s, i + 3), At(s, i + 4));
            Pass(Drop(s, i)) ==
            if s[i] == PERCENT then
              if c == PERCENT then Before(d, d == PERCENT, Pass(Drop(s, i + 5))) else Before(c, false, Pass(Drop(s, i + 3)))
            else
              Before(if s[i] == PLUS then SPACE else s[i], false, Pass(Drop(s, i + 1)))
  {
    hide StrToBin;
    var left := Drop(s, i);
    assert At(left, 1) == At(s, i + 1) && At(left, 2) == At(s, i + 2);
    assert At(left, 3) == At(s, i + 3) && At(left, 4) == At(s, i + 4);
    assert Drop(left, 5) == Drop(s, i + 5) && Drop(left, 3) == Drop(s, i + 3) && left[1..] == Drop(s, i + 1);
  }

  /** A byte moved from the front of what is left to the end of what is done. */
  lemma ByteMoved(done: seq<byte>, c: byte, again: bool, p: Passed)
    ensures done + Before(c, again, p).text == done + [c] + p.text
    ensures Before(c, again, p).again == (again || p.again)
  {
  }

  lemma PassEnds(s: seq<byte>, i: nat)
    ensures Drop(s, 0) == s
    ensures i >= |s| ==> Pass(Drop(s, i)) == Passed([], false)
  {
  }

  method Decode(str: seq<byte>) returns (strResult: seq<byte>, ret: int)
    ensures strResult == Pass(str).text && ret == if Pass(str).again then 1 else 0
  {
    hide StrToBin, Pass, Drop, At, Before;
    strResult, ret := [], 0;
    var i := 0;
    PassEnds(str, 0);
    while i < |str|
      invariant 0 <= i && (ret == 0 || ret == 1)
      invariant strResult + Pass(Drop(str, i)).text == Pass(str).text
      invariant (ret == 1 || Pass(Drop(str, i)).again) == Pass(str).again
      decreases |str| - i
    {
      PassAt(str, i);
      if str[i] == PERCENT {
        var ch := StrToBin(At(str, i + 1), At(str, i + 2));
        if ch == PERCENT {
          ch := StrToBin(At(str, i + 3), At(str, i + 4));
          ByteMoved(strResult, ch, ch == PERCENT, Pass(Drop(str, i + 5)));
          strResult := strResult + [ch];
          i := i + 5;
          if ch == PERCENT {
            ret := 1;
          }
        } else {
          ByteMoved(strResult, ch, false, Pass(Drop(str, i + 3)));
          strResult := strResult + [ch];
          i := i + 3;
        }
      } else if str[i] == PLUS {
        ByteMoved(strResult, SPACE, false, Pass(Drop(str, i + 1)));
        strResult := strResult + [SPACE];
        i := i + 1;
      } else {
        ByteMoved(strResult, str[i], false, Pass(Drop(str, i + 1)));
        strResult := strResult + [str[i]];
        i := i + 1;
      }
    }
    PassEnds(str, i);
  }

  // ---- Passes until none asks for another ----

  function Passes(s: seq<byte>): seq<byte>
    decreases |s|
  {
    PassShortens(s);
    if Pass(s).again then Passes(Pass(s).text) else Pass(s).text
  }

  /** Members of dontNeedEncoding. */
  predicate NeedsNoEncoding(c: byte) {
    IsAlnum(c) || c == PLUS || c == '-' as int || c == '_' as int || c == '.' as int || c == '*' as int
  }

  /** hasUrlEncoded from position i on: a '%' whose two digits are wrong takes them along. */
  predicate HasEscape(s: seq<byte>, i: nat)
    decreases |s| - i
  {
    if i >= |s| then false
    else if !NeedsNoEncoding(s[i]) && s[i] == PERCENT && i + 2 < |s| then
      (IsHex(s[i + 1]) && IsHex(s[i + 2])) || HasEscape(s, i + 3)
    else HasEscape(s, i + 1)
  }

  method HasUrlEncoded(str: seq<byte>) returns (b: bool)
    ensures b == HasEscape(str, 0)
  {
    var i := 0;
    while i < |str|
      invariant 0 <= i && HasEscape(str, 0) == HasEscape(str, i)
    {
      var c := str[i];
      if !NeedsNoEncoding(c) {
        if c == PERCENT && i + 2 < |str| {
          var c1 := str[i + 1];
          var c2 := str[i + 2];
          if IsHex(c1) && IsHex(c2) {
            return true;
          }
          i := i + 2;
        }
      }
      i := i + 1;
    }
    b := false;
  }

  // ---- Which escapes the scan sees ----

  ghost predicate EscapeAt(s: seq<byte>, p: nat) {
    p + 2 < |s| && s[p] == PERCENT && IsHex(s[p + 1]) && IsHex(s[p + 2])
  }

  /** A '%' with two characters behind it that are not both digits. */
  ghost predicate WrongAt(s: seq<byte>, p: nat) {
    p + 2 < |s| && s[p] == PERCENT && !EscapeAt(s, p)
  }

  /** Position p is one of the two that a wrong '%' before it takes along, if none took that one. */
  ghost predicate Swallowed(s: seq<byte>, p: nat)
    decreases p
  {
    || (p >= 1 && WrongAt(s, p - 1) && !Swallowed(s, p - 1))
    || (p >= 2 && WrongAt(s, p - 2) && !Swallowed(s, p - 2))
  }

  lemma {:induction false} ScanSees(s: seq<byte>, i: nat)
    requires !Swallowed(s, i)
    ensures HasEscape(s, i) <==> exists p | i <= p :: EscapeAt(s, p) && !Swallowed(s, p)
    decreases |s| - i
  {
    if i < |s| && !EscapeAt(s, i) {
      var next := if WrongAt(s, i) then i + 3 else i + 1;
      assert next == i + 3 ==> Swallowed(s, i + 1) && Swallowed(s, i + 2);
      ScanSees(s, next);
      assert forall p | i <= p < next :: EscapeAt(s, p) ==> Swallowed(s, p);
    }
  }

  /** The test finds an escape exactly where there is one that no wrong '%' before it took along. */
  lemma HasEscapeExactly(s: seq<byte>)
    ensures HasEscape(s, 0) <==> exists p: nat :: EscapeAt(s, p) && !Swallowed(s, p)
  {
    ScanSees(s, 0);
  }

  /** It misses none where no wrong '%' stands within two places before one. */
  lemma NoneMissed(s: seq<byte>)
    requires forall p: nat, q: nat | WrongAt(s, q) && q < p <= q + 2 :: !EscapeAt(s, p)
    ensures HasEscape(s, 0) <==> exists p: nat :: EscapeAt(s, p)
  {
    HasEscapeExactly(s);
    forall p: nat | EscapeAt(s, p)
      ensures !Swallowed(s, p)
    {
    }
  }

  /** "%%41" holds an escape that is missed, so that nothing of it is decoded. */
  lemma EscapeMissed()
    ensures var s := [PERCENT, PERCENT, '4' as int, '1' as int];
            EscapeAt(s, 1) && !HasEscape(s, 0) && AllLayersDecoded(s) == s
  {
    var s := [PERCENT, PERCENT, '4' as int, '1' as int];
    assert WrongAt(s, 0) && Swallowed(s, 1);
    HasEscapeExactly(s);
  }

  function AllLayersDecoded(s: seq<byte>): seq<byte> {
    if HasEscape(s, 0) then Passes(s) else s
  }

  /** MultipleDecode: the loop ends because every pass that returns 1 shortened the text. */
  method MultipleDecode(str: seq<byte>) returns (strURL: seq<byte>)
    ensures strURL == AllLayersDecoded(str)
  {
    hide Pass, HasEscape;
    var encoded := HasUrlEncoded(str);
    if !encoded {
      return str;
    }
    var ret;
    strURL, ret := Decode(str);
    PassShortens(str);
    while ret == 1
      invariant ret == 0 || ret == 1
      invariant if ret == 1 then Passes(strURL) == Passes(str) else strURL == Passes(str)
      decreases ret, |strURL|
    {
      var temp := strURL;
      PassShortens(temp);
      strURL, ret := Decode(temp);
    }
  }

  // ---- Texts encoded many times ----

  /** k-fold GlobalFunc::UrlEncode. */
  function Layers(s: seq<byte>, k: nat): seq<byte> {
    if k == 0 then s else Escaped(IsGlobalPlain, GlobalHigh, Layers(s, k - 1))
  }

  /** "25" m times. */
  function Twos(m: nat): (t: seq<byte>)
    ensures |t| == 2 * m
  {
    if m == 0 then [] else ['2' as int, '5' as int] + Twos(m - 1)
  }

  /** A byte under k >= 1 layers. */
  function Nested(c: byte, k: nat): seq<byte>
    requires k > 0
  {
    if IsGlobalPlain(c) then [c] else [PERCENT] + Twos(k - 1) + Digits(c)
  }

  function Digits(c: byte): seq<byte> {
    [HexDigit(c / 16), HexDigit(c % 16)]
  }

  function AllNested(s: seq<byte>, k: nat): seq<byte>
    requires k > 0
  {
    if s == [] then [] else Nested(s[0], k) + AllNested(s[1..], k)
  }

  lemma {:induction false} EscapedConcat(a: seq<byte>, b: seq<byte>)
    ensures Escaped(IsGlobalPlain, GlobalHigh, a + b)
         == Escaped(IsGlobalPlain, GlobalHigh, a) + Escaped(IsGlobalPlain, GlobalHigh, b)
  {
    hide Escape;
    if a == [] {
      assert a + b == b;
    } else {
      assert (a + b)[1..] == a[1..] + b;
      EscapedConcat(a[1..], b);
    }
  }

  lemma {:induction false} EscapedPlain(s: seq<byte>)
    requires forall i | 0 <= i < |s| :: IsGlobalPlain(s[i])
    ensures Escaped(IsGlobalPlain, GlobalHigh, s) == s
  {
    if s != [] {
      EscapedPlain(s[1..]);
    }
  }

  lemma TwosArePlain(m: nat)
    ensures forall i | 0 <= i < |Twos(m)| :: IsGlobalPlain(Twos(m)[i])
  {
  }

  lemma OneMoreLayer(c: byte, k: nat)
    requires k > 0 && c != SPACE
    ensures Escaped(IsGlobalPlain, GlobalHigh, Nested(c, k)) == Nested(c, k + 1)
  {
    if IsGlobalPlain(c) {
      EscapedPlain([c]);
    } else {
      NestedTail(c, k);
    }
  }

  /** The leading percent sign becomes three characters, the rest stays. */
  lemma NestedTail(c: byte, k: nat)
    requires k > 0 && !IsGlobalPlain(c)
    ensures Escaped(IsGlobalPlain, GlobalHigh, Nested(c, k)) == Nested(c, k + 1)
  {
    hide *;
    var tail := Twos(k - 1) + Digits(c);
    NestedParts(c, k);
    TailIsPlain(c, k - 1);
    EscapedPlain(tail);
    EscapedConcat([PERCENT], tail);
    PercentEscaped();
  }

  lemma NestedParts(c: byte, k: nat)
    requires k > 0 && !IsGlobalPlain(c)
    ensures Nested(c, k) == [PERCENT] + (Twos(k - 1) + Digits(c))
    ensures Nested(c, k + 1) == [PERCENT, '2' as int, '5' as int] + (Twos(k - 1) + Digits(c))
  {
    hide IsGlobalPlain, Digits;
    assert Twos(k) == ['2' as int, '5' as int] + Twos(k - 1);
    Grouped([PERCENT], ['2' as int, '5' as int], Twos(k - 1), Digits(c));
  }

  lemma Grouped(a: seq<byte>, b: seq<byte>, c: seq<byte>, d: seq<byte>)
    ensures a + (b + c) + d == a + b + (c + d)
    ensures a + c + d == a + (c + d)
  {
  }

  lemma TailIsPlain(c: byte, m: nat)
    ensures forall i | 0 <= i < |Twos(m) + Digits(c)| :: IsGlobalPlain((Twos(m) + Digits(c))[i])
  {
    TwosArePlain(m);
  }

  lemma PercentEscaped()
    ensures Escaped(IsGlobalPlain, GlobalHigh, [PERCENT]) == [PERCENT, '2' as int, '5' as int]
  {
    assert Escaped(IsGlobalPlain, GlobalHigh, []) == [];
  }

  lemma {:induction false} AllOneMoreLayer(s: seq<byte>, k: nat)
    requires k > 0 && SPACE !in s
    ensures Escaped(IsGlobalPlain, GlobalHigh, AllNested(s, k)) == AllNested(s, k + 1)
  {
    hide Nested;
    if s != [] {
      AllOneMoreLayer(s[1..], k);
      OneMoreLayer(s[0], k);
      EscapedConcat(Nested(s[0], k), AllNested(s[1..], k));
    }
  }

  lemma {:induction false} FirstLayer(s: seq<byte>)
    requires SPACE !in s
    ensures Escaped(IsGlobalPlain, GlobalHigh, s) == AllNested(s, 1)
  {
    if s != [] {
      FirstLayer(s[1..]);
    }
  }

  lemma EscapeIsNested(c: byte)
    requires c != SPACE
    ensures Escape(IsGlobalPlain, GlobalHigh, c) == Nested(c, 1)
  {
  }

  lemma OneAndTwoLayers(s: seq<byte>)
    ensures Layers(s, 1) == Escaped(IsGlobalPlain, GlobalHigh, s)
    ensures Layers(s, 2) == Escaped(IsGlobalPlain, GlobalHigh, Layers(s, 1))
  {
    assert Layers(s, 0) == s;
  }

  lemma {:induction false} LayersNest(s: seq<byte>, k: nat)
    requires k > 0 && SPACE !in s
    ensures Layers(s, k) == AllNested(s, k)
  {
    if k == 1 {
      FirstLayer(s);
    } else {
      LayersNest(s, k - 1);
      AllOneMoreLayer(s, k - 1);
    }
  }

  // ---- What one pass makes of them ----

  lemma {:induction false} PassPlain(p: seq<byte>, s: seq<byte>)
    requires forall i | 0 <= i < |p| :: IsGlobalPlain(p[i])
    ensures Pass(p + s) == Passed(p + Pass(s).text, Pass(s).again)
  {
    hide Pass;
    if p == [] {
      assert p + s == s;
    } else {
      assert p[0] != PERCENT && p[0] != PLUS;
      hide IsGlobalPlain;
      PassPlain(p[1..], s);
      assert (p + s)[1..] == p[1..] + s;
      PassFirst(p + s);
      assert p + Pass(s).text == [p[0]] + (p[1..] + Pass(s).text);
    }
  }

  lemma PassFirst(s: seq<byte>)
    requires s != [] && s[0] != PERCENT && s[0] != PLUS
    ensures Pass(s) == Before(s[0], false, Pass(s[1..]))
  {
  }

  lemma DigitsReadBack(c: byte)
    ensures StrToBin(HexDigit(c / 16), HexDigit(c % 16)) == c
    ensures StrToBin('2' as int, '5' as int) == PERCENT
  {
  }

  lemma PassOneEscape(c: byte, s: seq<byte>)
    requires !IsGlobalPlain(c) && c != PERCENT
    ensures Pass(Nested(c, 1) + s) == Before(c, false, Pass(s))
  {
    hide StrToBin, IsGlobalPlain;
    DigitsReadBack(c);
    assert Nested(c, 1) + s == [PERCENT] + Digits(c) + s;
    assert Drop(Nested(c, 1) + s, 3) == s;
  }

  /** Five characters of two layers. */
  lemma PassTwoEscapes(h: byte, l: byte, s: seq<byte>)
    ensures Pass([PERCENT, '2' as int, '5' as int, h, l] + s) ==
            Before(StrToBin(h, l), StrToBin(h, l) == PERCENT, Pass(s))
  {
    DigitsReadBack(0);
    hide StrToBin;
    var t := [PERCENT, '2' as int, '5' as int, h, l] + s;
    assert Drop(t, 5) == s;
  }

  lemma PassTwoNested(c: byte, s: seq<byte>)
    requires !IsGlobalPlain(c) && c != PERCENT
    ensures Pass(Nested(c, 2) + s) == Before(c, false, Pass(s))
  {
    hide StrToBin, IsGlobalPlain, Pass, Before;
    DigitsReadBack(c);
    assert Twos(1) == ['2' as int, '5' as int];
    assert Nested(c, 2) == [PERCENT, '2' as int, '5' as int, Digits(c)[0], Digits(c)[1]];
    PassTwoEscapes(Digits(c)[0], Digits(c)[1], s);
  }

  lemma ManyNestedParts(c: byte, k: nat)
    requires k > 2 && !IsGlobalPlain(c)
    ensures Nested(c, k) == [PERCENT, '2' as int, '5' as int, '2' as int, '5' as int] + (Twos(k - 3) + Digits(c))
    ensures Nested(c, k - 2) == [PERCENT] + (Twos(k - 3) + Digits(c))
  {
    hide IsGlobalPlain, Digits;
    assert Twos(k - 1) == ['2' as int, '5' as int, '2' as int, '5' as int] + Twos(k - 3);
  }

  lemma PassManyNested(c: byte, k: nat, s: seq<byte>)
    requires k > 2 && !IsGlobalPlain(c)
    ensures Pass(Nested(c, k) + s) == Passed(Nested(c, k - 2) + Pass(s).text, true)
  {
    hide StrToBin, IsGlobalPlain, Pass, Digits, Twos, Nested;
    DigitsReadBack(0);
    ManyNestedParts(c, k);
    var rest := Twos(k - 3) + Digits(c);
    PassTwoEscapes('2' as int, '5' as int, rest + s);
    TailIsPlain(c, k - 3);
    PassPlain(rest, s);
    assert Nested(c, k) + s == [PERCENT, '2' as int, '5' as int, '2' as int, '5' as int] + (rest + s);
    assert [PERCENT] + (rest + Pass(s).text) == Nested(c, k - 2) + Pass(s).text;
  }

  /** One pass takes off two layers, or the only one. */
  lemma PassNested(c: byte, k: nat, s: seq<byte>)
    requires k > 0 && c != PERCENT && c != SPACE
    ensures var p := Pass(s);
            Pass(Nested(c, k) + s) ==
            if IsGlobalPlain(c) || k < 3 then Before(c, false, p)
            else Passed(Nested(c, k - 2) + p.text, true)
  {
    hide Pass, IsGlobalPlain;
    if IsGlobalPlain(c) {
      PassPlain([c], s);
    } else if k == 1 {
      PassOneEscape(c, s);
    } else if k == 2 {
      PassTwoNested(c, s);
    } else {
      PassManyNested(c, k, s);
    }
  }

  predicate AnyEscaped(s: seq<byte>) {
    exists i | 0 <= i < |s| :: !IsGlobalPlain(s[i])
  }

  lemma {:induction false} PassAllNested(s: seq<byte>, k: nat)
    requires k > 0 && PERCENT !in s && SPACE !in s
    ensures Pass(AllNested(s, k)) == Passed(if k < 3 then s else AllNested(s, k - 2), k >= 3 && AnyEscaped(s))
  {
    hide Pass, Nested, IsGlobalPlain;
    if s == [] {
      PassNothing();
    } else {
      PassAllNested(s[1..], k);
      PassNested(s[0], k, AllNested(s[1..], k));
      assert AnyEscaped(s) <==> !IsGlobalPlain(s[0]) || AnyEscaped(s[1..]) by {
        if AnyEscaped(s) && IsGlobalPlain(s[0]) {
          var i :| 0 <= i < |s| && !IsGlobalPlain(s[i]);
          assert s[1..][i - 1] == s[i];
        }
      }
      if k >= 3 && IsGlobalPlain(s[0]) {
        PlainNested(s[0], k - 2);
      }
    }
  }

  lemma PassNothing()
    ensures Pass([]) == Passed([], false)
  {
  }

  lemma PlainNested(c: byte, k: nat)
    requires k > 0 && IsGlobalPlain(c)
    ensures Nested(c, k) == [c]
  {
  }

  lemma {:induction false} PassesAllNested(s: seq<byte>, k: nat)
    requires k > 0 && PERCENT !in s && SPACE !in s
    ensures Passes(AllNested(s, k)) == s
  {
    hide Pass, Nested;
    PassAllNested(s, k);
    if k >= 3 {
      PassesAllNested(s, k - 2);
      if !AnyEscaped(s) {
        AllPlainNested(s, k - 2);
      }
    }
  }

  lemma {:induction false} AllPlainNested(s: seq<byte>, k: nat)
    requires k > 0 && !AnyEscaped(s)
    ensures AllNested(s, k) == s
  {
    if s != [] {
      assert IsGlobalPlain(s[0]);
      forall i | 0 <= i < |s[1..]|
        ensures IsGlobalPlain(s[1..][i])
      {
        assert s[1..][i] == s[i + 1];
      }
      AllPlainNested(s[1..], k);
    }
  }

  lemma {:induction false} EscapeInNested(s: seq<byte>, k: nat, p: seq<byte>)
    requires k > 0 && forall i | 0 <= i < |p| :: IsGlobalPlain(p[i])
    ensures HasEscape(p + AllNested(s, k), |p|) <==> AnyEscaped(s)
    decreases s
  {
    if s != [] {
      var t := p + AllNested(s, k);
      if IsGlobalPlain(s[0]) {
        assert t == (p + [s[0]]) + AllNested(s[1..], k);
        EscapeInNested(s[1..], k, p + [s[0]]);
        if AnyEscaped(s) {
          var i :| 0 <= i < |s| && !IsGlobalPlain(s[i]);
          assert s[1..][i - 1] == s[i];
        }
      } else {
        assert t[|p|] == PERCENT;
        EscapeDigits(s[0], k);
        assert t[|p|..|p| + 3] == Nested(s[0], k)[..3];
        assert t[|p| + 1] == Nested(s[0], k)[1] && t[|p| + 2] == Nested(s[0], k)[2];
      }
    }
  }

  lemma EscapeDigits(c: byte, k: nat)
    requires k > 0 && !IsGlobalPlain(c)
    ensures var n := Nested(c, k); |n| >= 3 && n[0] == PERCENT && IsHex(n[1]) && IsHex(n[2])
  {
    if k > 1 {
      assert Twos(k - 1)[0] == '2' as int && Twos(k - 1)[1] == '5' as int;
    }
  }

  /** However many times a text without '%' and spaces was encoded, MultipleDecode gives it back. */
  lemma AllLayersRoundTrip(s: seq<byte>, k: nat)
    requires k > 0 && PERCENT !in s && SPACE !in s
    ensures AllLayersDecoded(Layers(s, k)) == s
  {
    LayersNest(s, k);
    PassesAllNested(s, k);
    EscapeInNested(s, k, []);
    assert [] + AllNested(s, k) == AllNested(s, k);
    if !AnyEscaped(s) {
      AllPlainNested(s, k);
    }
  }

  // ---- And no other text comes back from every number of layers ----

  lemma {:induction false} EscapedLength(s: seq<byte>)
    ensures |Escaped(IsGlobalPlain, GlobalHigh, s)| >= |s|
    ensures |Escaped(IsGlobalPlain, GlobalHigh, s)| == |s| ==> forall i | 0 <= i < |s| :: IsGlobalPlain(s[i]) || s[i] == SPACE
  {
    hide IsGlobalPlain;
    if s != [] {
      EscapedLength(s[1..]);
      forall i | 1 <= i < |s| && |Escaped(IsGlobalPlain, GlobalHigh, s)| == |s|
        ensures IsGlobalPlain(s[i]) || s[i] == SPACE
      {
        assert s[i] == s[1..][i - 1];
      }
    }
  }

  function PlusesFor(s: seq<byte>): (p: seq<byte>)
    ensures |p| == |s|
  {
    seq(|s|, i requires 0 <= i < |s| => if s[i] == SPACE then PLUS else s[i])
  }

  lemma PlusesForFirst(s: seq<byte>)
    requires s != []
    ensures PlusesFor(s) == [if s[0] == SPACE then PLUS else s[0]] + PlusesFor(s[1..])
  {
  }

  lemma TwoLayersFirst(s: seq<byte>)
    requires s != []
    ensures Layers(s, 2) ==
      Escaped(IsGlobalPlain, GlobalHigh, Escape(IsGlobalPlain, GlobalHigh, s[0])) + Layers(s[1..], 2)
  {
    hide Escape;
    OneAndTwoLayers(s);
    OneAndTwoLayers(s[1..]);
    EscapedConcat(Escape(IsGlobalPlain, GlobalHigh, s[0]), Layers(s[1..], 1));
  }

  /** Two layers over a space read back as '+'. */
  lemma {:induction false} PassTwoLayers(s: seq<byte>)
    requires PERCENT !in s
    ensures Pass(Layers(s, 2)) == Passed(PlusesFor(s), false)
  {
    if s == [] {
      PassNothing();
      assert Layers([], 1) == [];
      hide Pass;
    } else {
      hide Pass, Nested, Layers, Escape, Escaped, PlusesFor, IsGlobalPlain;
      PassTwoLayers(s[1..]);
      PlusesForFirst(s);
      TwoLayersFirst(s);
      var rest := Layers(s[1..], 2);
      if s[0] == SPACE {
        PlusEscaped();
        PassPlusDigits(rest);
      } else {
        EscapeIsNested(s[0]);
        OneMoreLayer(s[0], 1);
        PassNested(s[0], 2, rest);
      }
    }
  }

  lemma PlusEscaped()
    ensures Escape(IsGlobalPlain, GlobalHigh, SPACE) == [PLUS]
    ensures Escaped(IsGlobalPlain, GlobalHigh, [PLUS]) == [PERCENT, '2' as int, 'B' as int]
  {
    assert Escaped(IsGlobalPlain, GlobalHigh, []) == [];
  }

  lemma PassPlusDigits(s: seq<byte>)
    ensures Pass([PERCENT, '2' as int, 'B' as int] + s) == Before(PLUS, false, Pass(s))
  {
    assert Drop([PERCENT, '2' as int, 'B' as int] + s, 3) == s;
  }

  lemma SpaceLost(s: seq<byte>)
    requires PERCENT !in s && SPACE in s
    ensures AllLayersDecoded(Layers(s, 2)) != s
  {
    hide Pass;
    var i :| 0 <= i < |s| && s[i] == SPACE;
    PassTwoLayers(s);
    assert PlusesFor(s)[i] == PLUS;
    LayersOverSpaceGrow(s, i);
  }

  lemma LayersOverSpaceGrow(s: seq<byte>, i: nat)
    requires i < |s| && s[i] == SPACE
    ensures |Layers(s, 2)| > |s|
  {
    var one := Layers(s, 1);
    OneAndTwoLayers(s);
    EscapedLength(s);
    EscapedLength(one);
    if |one| == |s| {
      SpaceBecomesPlus(s, i);
      assert one[i] == PLUS && !IsGlobalPlain(PLUS);
    }
  }

  lemma {:induction false} SpaceBecomesPlus(s: seq<byte>, i: nat)
    requires i < |s| && s[i] == SPACE
    requires forall k | 0 <= k < |s| :: IsGlobalPlain(s[k]) || s[k] == SPACE
    ensures var e := Escaped(IsGlobalPlain, GlobalHigh, s); |e| == |s| && e[i] == PLUS
  {
    AllSingle(s);
    if i > 0 {
      SpaceBecomesPlus(s[1..], i - 1);
    }
  }

  lemma {:induction false} AllSingle(s: seq<byte>)
    requires forall k | 0 <= k < |s| :: IsGlobalPlain(s[k]) || s[k] == SPACE
    ensures |Escaped(IsGlobalPlain, GlobalHigh, s)| == |s|
  {
    if s != [] {
      AllSingle(s[1..]);
    }
  }

  /** A pass over one layer never makes more bytes than were encoded. */
  lemma {:induction false} PassOneLayerLength(s: seq<byte>)
    ensures |Pass(Layers(s, 1)).text| <= |s|
    decreases |s|, 3
  {
    assert Layers(s, 1) == Escaped(IsGlobalPlain, GlobalHigh, s);
    hide StrToBin, IsGlobalPlain, Pass;
    if s == [] {
      PassNothing();
    } else {
      PassOneLayerLength(s[1..]);
      OneLayerParts(s);
      if s[0] == PERCENT {
        PassPercentLength(s[1..]);
        PercentEscaped();
        assert Escape(IsGlobalPlain, GlobalHigh, PERCENT) == [PERCENT, '2' as int, '5' as int] by {
          assert Escaped(IsGlobalPlain, GlobalHigh, [PERCENT]) == Escape(IsGlobalPlain, GlobalHigh, PERCENT) + [];
        }
      } else if s[0] == SPACE {
        PlusEscaped();
        PassSpace(Layers(s[1..], 1));
      } else {
        EscapeIsNested(s[0]);
        PassNested(s[0], 1, Layers(s[1..], 1));
      }
    }
  }

  lemma PassSpace(s: seq<byte>)
    ensures Pass([PLUS] + s) == Before(SPACE, false, Pass(s))
  {
  }

  /** Behind the escape of a '%' the pass swallows two more bytes of the encoding. */
  lemma PassPercentLength(t: seq<byte>)
    ensures |Pass([PERCENT, '2' as int, '5' as int] + Layers(t, 1)).text| <= 1 + |t|
    ensures Pass([PERCENT, '2' as int, '5' as int] + Layers(t, 1)) ==
      var d := StrToBin(At(Layers(t, 1), 0), At(Layers(t, 1), 1));
      Before(d, d == PERCENT, Pass(Drop(Layers(t, 1), 2)))
    ensures StrToBin(At(Layers(t, 1), 0), At(Layers(t, 1), 1)) == PERCENT ==>
      |Pass(Drop(Layers(t, 1), 2)).text| < |t|
    decreases |t|, 2
  {
    var e := Layers(t, 1);
    var x := [PERCENT, '2' as int, '5' as int] + e;
    assert Drop(x, 5) == Drop(e, 2) && At(x, 3) == At(e, 0) && At(x, 4) == At(e, 1);
    DigitsReadBack(0);
    SwallowTwo(t);
  }

  lemma SwallowTwo(t: seq<byte>)
    ensures |Pass(Drop(Layers(t, 1), 2)).text| <= |t|
    ensures StrToBin(At(Layers(t, 1), 0), At(Layers(t, 1), 1)) == PERCENT ==> |Pass(Drop(Layers(t, 1), 2)).text| < |t|
    decreases |t|, 0
  {
    hide Pass, IsGlobalPlain;
    PassNothing();
    var e := Layers(t, 1);
    OneLayerParts(t);
    if t == [] {
      DigitsOnly(0, 0);
    } else if |Escape(IsGlobalPlain, GlobalHigh, t[0])| == 3 {
      PassOneLayerLength(t[1..]);
      var last := HexDigit(t[0] % 16);
      assert Drop(e, 2) == [last] + Layers(t[1..], 1);
      HexDigitPlain(t[0] % 16);
      PassPlain([last], Layers(t[1..], 1));
      DigitsOnly(PERCENT, At(e, 1));
    } else if |t| == 1 {
      assert Drop(e, 2) == [];
      DigitsOnly(At(e, 0), 0);
    } else {
      OneLayerParts(t[1..]);
      PassOneLayerLength(t[2..]);
      assert t[1..][1..] == t[2..];
      var f := Escape(IsGlobalPlain, GlobalHigh, t[1]);
      if |f| == 1 {
        assert Drop(e, 2) == Layers(t[2..], 1);
      } else {
        assert Drop(e, 2) == Digits(t[1]) + Layers(t[2..], 1);
        HexDigitPlain(t[1] / 16);
        HexDigitPlain(t[1] % 16);
        PassPlain(Digits(t[1]), Layers(t[2..], 1));
        DigitsOnly(At(e, 0), PERCENT);
      }
    }
  }

  lemma DigitsOnly(h: byte, l: byte)
    ensures StrToBin(h, l) == PERCENT ==> h == '2' as int && l == '5' as int
  {
  }

  lemma HexDigitPlain(x: nat)
    requires x < 16
    ensures IsGlobalPlain(HexDigit(x))
  {
  }

  lemma OneLayerParts(t: seq<byte>)
    ensures t == [] ==> Layers(t, 1) == []
    ensures t != [] ==> Layers(t, 1) == Escape(IsGlobalPlain, GlobalHigh, t[0]) + Layers(t[1..], 1)
  {
    assert Layers(t, 1) == Escaped(IsGlobalPlain, GlobalHigh, t);
    if t != [] {
      assert Layers(t[1..], 1) == Escaped(IsGlobalPlain, GlobalHigh, t[1..]);
    }
  }

  function SpacesBack(p: seq<byte>): (q: seq<byte>)
    ensures |q| == |p|
  {
    seq(|p|, i requires 0 <= i < |p| => if p[i] == PLUS then SPACE else p[i])
  }

  lemma {:induction false} PassNoPercent(p: seq<byte>, s: seq<byte>)
    requires PERCENT !in p
    ensures Pass(p + s) == Passed(SpacesBack(p) + Pass(s).text, Pass(s).again)
  {
    hide StrToBin;
    if p == [] {
      assert p + s == s;
    } else {
      PassNoPercent(p[1..], s);
      assert (p + s)[1..] == p[1..] + s;
      assert SpacesBack(p) == [if p[0] == PLUS then SPACE else p[0]] + SpacesBack(p[1..]);
    }
  }

  /** A byte in front of which there is no '%' never turns into one. */
  lemma {:induction false} PassesKeepOff(p: seq<byte>, s: seq<byte>)
    requires PERCENT !in p
    ensures |Passes(p + s)| >= |p| && PERCENT !in Passes(p + s)[..|p|]
    decreases |p + s|
  {
    hide Pass;
    PassNoPercent(p, s);
    PassShortens(p + s);
    var q := SpacesBack(p);
    assert PERCENT !in q;
    assert (q + Pass(s).text)[..|p|] == q;
    if Pass(p + s).again {
      PassesKeepOff(q, Pass(s).text);
    }
  }

  lemma {:induction false} PassesShorten(s: seq<byte>)
    ensures |Passes(s)| <= |s|
    decreases |s|
  {
    hide Pass;
    PassShortens(s);
    if Pass(s).again {
      PassesShorten(Pass(s).text);
    }
  }

  lemma {:induction false} PassOneLayer(p: seq<byte>, e: seq<byte>)
    requires PERCENT !in p
    ensures Pass(Layers(p, 1) + e) == Passed(p + Pass(e).text, Pass(e).again)
  {
    hide Pass, IsGlobalPlain, Nested;
    OneLayerParts(p);
    if p == [] {
      assert Layers(p, 1) + e == e && p + Pass(e).text == Pass(e).text;
    } else {
      PassOneLayer(p[1..], e);
      var rest := Layers(p[1..], 1) + e;
      assert Layers(p, 1) + e == Escape(IsGlobalPlain, GlobalHigh, p[0]) + rest;
      assert p + Pass(e).text == [p[0]] + (p[1..] + Pass(e).text);
      if p[0] == SPACE {
        PlusEscaped();
        PassSpace(rest);
      } else {
        EscapeIsNested(p[0]);
        PassNested(p[0], 1, rest);
      }
    }
  }

  lemma LayerSplit(p: seq<byte>, t: seq<byte>)
    ensures Layers(p + ([PERCENT] + t), 1) == Layers(p, 1) + ([PERCENT, '2' as int, '5' as int] + Layers(t, 1))
  {
    hide Escaped;
    OneAndTwoLayers(p + ([PERCENT] + t));
    OneAndTwoLayers(p);
    OneAndTwoLayers(t);
    EscapedConcat(p, [PERCENT] + t);
    EscapedConcat([PERCENT], t);
    PercentEscaped();
  }

  lemma PercentLost(s: seq<byte>, n: nat)
    requires n < |s| && s[n] == PERCENT && PERCENT !in s[..n]
    ensures AllLayersDecoded(Layers(s, 1)) != s
  {
    hide Pass, StrToBin, Escaped, Layers, Passes, Before, Drop, At, HasEscape;
    var p, t := s[..n], s[n + 1..];
    var e := Layers(t, 1);
    var three := [PERCENT, '2' as int, '5' as int];
    assert s == p + ([PERCENT] + t);
    LayerSplit(p, t);
    PassOneLayer(p, three + e);
    PassPercentLength(t);
    PercentEndsLost(Layers(s, 1), s, n, StrToBin(At(e, 0), At(e, 1)), Pass(Drop(e, 2)));
    OneAndTwoLayers(s);
    EscapedLength(s);
    LongerEscape(s, n);
  }

  lemma LongerEscape(s: seq<byte>, n: nat)
    requires n < |s| && s[n] == PERCENT
    requires |Escaped(IsGlobalPlain, GlobalHigh, s)| == |s| ==>
      forall i | 0 <= i < |s| :: IsGlobalPlain(s[i]) || s[i] == SPACE
    ensures Escaped(IsGlobalPlain, GlobalHigh, s) != s
  {
    hide Escaped;
  }

  /** A pass leaves d where s has a '%': the last pass leaves it there, or less than s. */
  lemma PercentEndsLost(e: seq<byte>, s: seq<byte>, n: nat, d: byte, rest: Passed)
    requires n < |s| && s[n] == PERCENT && PERCENT !in s[..n]
    requires Pass(e) == Passed(s[..n] + Before(d, d == PERCENT, rest).text, Before(d, d == PERCENT, rest).again)
    requires d == PERCENT ==> |rest.text| < |s| - n - 1
    ensures Passes(e) != s
  {
    hide Pass, Passes;
    PassesOnce(e);
    var text := Pass(e).text;
    if d == PERCENT {
      PassesShorten(text);
    } else {
      var p := s[..n] + [d];
      assert text == p + rest.text;
      PassesKeepOff(p, rest.text);
      assert Passes(text)[..n + 1][n] != PERCENT;
    }
  }

  lemma PassesOnce(s: seq<byte>)
    ensures Passes(s) == if Pass(s).again then Passes(Pass(s).text) else Pass(s).text
  {
    hide Pass;
    PassShortens(s);
  }

  lemma {:induction false} FirstPercent(s: seq<byte>) returns (n: nat)
    requires PERCENT in s
    ensures n < |s| && s[n] == PERCENT && PERCENT !in s[..n]
  {
    if s[0] == PERCENT {
      n := 0;
    } else {
      var m := FirstPercent(s[1..]);
      n := m + 1;
      assert s[..n] == [s[0]] + s[1..][..m];
    }
  }

  /** MultipleDecode undoes every number of encodings exactly for the texts without '%' and spaces. */
  lemma AllLayersRoundTripExactly(s: seq<byte>)
    ensures (forall k | k > 0 :: AllLayersDecoded(Layers(s, k)) == s) <==> PERCENT !in s && SPACE !in s
  {
    if PERCENT in s {
      var n := FirstPercent(s);
      PercentLost(s, n);
    } else if SPACE in s {
      SpaceLost(s);
    } else {
      forall k: nat | k > 0
        ensures AllLayersDecoded(Layers(s, k)) == s
      {
        AllLayersRoundTrip(s, k);
      }
    }
  }
}
