/** The hexadecimal pair of crypto.cpp. Bytes and characters are 8-bit, with C's wrap-around. */
module Hex {

  function HexDigit(n: bv8): bv8 {
    if n < 10 then 0x30 + n else 0x37 + n
  }

  function Upper(c: bv8): bv8 {
    if 0x61 <= c <= 0x7A then c - 0x20 else c
  }

  /** What the decoder takes a character for; not tested to be a digit. */
  function DigitValue(c: bv8): bv8 {
    var u := Upper(c);
    if u > 0x39 then u - 0x37 else u - 0x30
  }

  predicate IsHexDigit(c: bv8) {
    0x30 <= c <= 0x39 || 0x41 <= c <= 0x46 || 0x61 <= c <= 0x66
  }

  function Joined(high: bv8, low: bv8): bv8 {
    (DigitValue(high) << 4) | DigitValue(low)
  }

  /** A string without its last characters reads as if zeros followed. */
  function CharAt(s: seq<bv8>, i: nat): bv8 {
    if i < |s| then s[i] else 0
  }

  ghost function HexOf(b: seq<bv8>): (s: seq<bv8>)
    ensures |s| == 2 * |b|
  {
    if b == [] then [] else HexOf(b[..|b| - 1]) + [HexDigit(b[|b| - 1] >> 4), HexDigit(b[|b| - 1] & 0xF)]
  }

  ghost function BytesOf(s: seq<bv8>, n: nat): (b: seq<bv8>)
    ensures |b| == n
  {
    if n == 0 then [] else BytesOf(s, n - 1) + [Joined(CharAt(s, 2 * n - 2), CharAt(s, 2 * n - 1))]
  }

  method BufferToHexString(buf: array<bv8>, len: nat) returns (s: seq<bv8>)
    requires len <= buf.Length
    ensures s == HexOf(buf[..len])
  {
    s := [];
    for i := 0 to len
      invariant s == HexOf(buf[..i])
    {
      assert buf[..i + 1][..i] == buf[..i];
      s := s + [HexDigit(buf[i] >> 4), HexDigit(buf[i] & 0xF)];
    }
  }

  /** An odd last character still writes a byte; the length given back does not count it. */
  method HexStringToBuffer(source: seq<bv8>, dest: array<bv8>) returns (len: nat)
    requires (|source| + 1) / 2 <= dest.Length
    modifies dest
    ensures len == |source| / 2
    ensures dest[..(|source| + 1) / 2] == BytesOf(source, (|source| + 1) / 2)
    ensures dest[(|source| + 1) / 2..] == old(dest[(|source| + 1) / 2..])
  {
    hide Joined;
    var i := 0;
    while i < |source|
      invariant i % 2 == 0 && i <= |source| + 1
      invariant dest[..i / 2] == BytesOf(source, i / 2)
      invariant dest[(|source| + 1) / 2..] == old(dest[(|source| + 1) / 2..])
    {
      dest[i / 2] := Joined(source[i], CharAt(source, i + 1));
      assert dest[..i / 2 + 1] == dest[..i / 2] + [dest[i / 2]];
      i := i + 2;
    }
    len := |source| / 2;
  }

  // ---- There and back ----

  lemma ByteRoundTrip(x: bv8)
    ensures Joined(HexDigit(x >> 4), HexDigit(x & 0xF)) == x
    ensures IsHexDigit(HexDigit(x >> 4)) && IsHexDigit(HexDigit(x & 0xF))
  {
  }

  lemma DigitsRoundTrip(h: bv8, l: bv8)
    requires IsHexDigit(h) && IsHexDigit(l)
    ensures HexDigit(Joined(h, l) >> 4) == Upper(h) && HexDigit(Joined(h, l) & 0xF) == Upper(l)
  {
  }

  lemma {:induction false} SamePrefixBytes(s: seq<bv8>, t: seq<bv8>, n: nat)
    requires 2 * n <= |s| && 2 * n <= |t| && s[..2 * n] == t[..2 * n]
    ensures BytesOf(s, n) == BytesOf(t, n)
  {
    hide Joined;
    if n > 0 {
      assert s[..2 * n - 2] == s[..2 * n][..2 * n - 2] && t[..2 * n - 2] == t[..2 * n][..2 * n - 2];
      SamePrefixBytes(s, t, n - 1);
      assert s[2 * n - 2] == s[..2 * n][2 * n - 2] && s[2 * n - 1] == s[..2 * n][2 * n - 1];
    }
  }

  /** Every buffer comes back from its hexadecimal text. */
  lemma {:induction false} BufferRoundTrip(b: seq<bv8>)
    ensures BytesOf(HexOf(b), |b|) == b
  {
    hide Joined, HexDigit;
    if b != [] {
      var rest, n := b[..|b| - 1], |b|;
      BufferRoundTrip(rest);
      SamePrefixBytes(HexOf(b), HexOf(rest), n - 1);
      ByteRoundTrip(b[n - 1]);
      assert b == rest + [b[n - 1]];
    }
  }

  ghost function UpperOf(s: seq<bv8>): (t: seq<bv8>)
    ensures |t| == |s|
  {
    seq(|s|, i requires 0 <= i < |s| => Upper(s[i]))
  }

  /** And every even text of hexadecimal digits comes back, in upper case. */
  lemma {:induction false} TextRoundTrip(s: seq<bv8>, n: nat)
    requires |s| == 2 * n && forall i | 0 <= i < |s| :: IsHexDigit(s[i])
    ensures HexOf(BytesOf(s, n)) == UpperOf(s)
    decreases n
  {
    hide *;
    if n == 0 {
      NoText();
      assert s == [];
    } else {
      var rest := s[..2 * n - 2];
      TextRoundTrip(rest, n - 1);
      SamePrefixBytes(s, rest, n - 1);
      DigitsRoundTrip(s[2 * n - 2], s[2 * n - 1]);
      BytesGrow(s, n);
      HexGrows(BytesOf(s, n - 1), Joined(s[2 * n - 2], s[2 * n - 1]));
      UpperGrows(s, n);
    }
  }

  lemma NoText()
    ensures HexOf(BytesOf([], 0)) == UpperOf([])
  {
  }

  lemma BytesGrow(s: seq<bv8>, n: nat)
    requires |s| == 2 * n && n > 0
    ensures BytesOf(s, n) == BytesOf(s, n - 1) + [Joined(s[2 * n - 2], s[2 * n - 1])]
  {
    hide Joined;
  }

  lemma HexGrows(b: seq<bv8>, x: bv8)
    ensures HexOf(b + [x]) == HexOf(b) + [HexDigit(x >> 4), HexDigit(x & 0xF)]
  {
    hide HexDigit;
    assert (b + [x])[..|b|] == b;
  }

  lemma UpperGrows(s: seq<bv8>, n: nat)
    requires |s| == 2 * n && n > 0
    ensures UpperOf(s) == UpperOf(s[..2 * n - 2]) + [Upper(s[2 * n - 2]), Upper(s[2 * n - 1])]
  {
    hide Upper;
  }
}
