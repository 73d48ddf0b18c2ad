/** Base64 as section 4 of RFC 4648 defines it: groups of 24 bits read as four 6-bit indices. */
module Rfc4648 {

  /** The alphabet A-Z, a-z, 0-9, +, / by position. */
  function Letter(i: nat): char
    requires i < 64
  {
    if i < 26 then 'A' + i as char
    else if i < 52 then 'a' + (i - 26) as char
    else if i < 62 then '0' + (i - 52) as char
    else if i == 62 then '+'
    else '/'
  }

  predicate IsLetter(c: char) {
    'A' <= c <= 'Z' || 'a' <= c <= 'z' || '0' <= c <= '9' || c == '+' || c == '/'
  }

  /** Position of a letter in the alphabet. */
  function Position(c: char): (i: nat)
    requires IsLetter(c)
    ensures i < 64 && Letter(i) == c
  {
    if 'A' <= c <= 'Z' then (c - 'A') as nat
    else if 'a' <= c <= 'z' then 26 + (c - 'a') as nat
    else if '0' <= c <= '9' then 52 + (c - '0') as nat
    else if c == '+' then 62
    else 63
  }

  lemma PositionOfLetter(i: nat)
    requires i < 64
    ensures IsLetter(Letter(i)) && Position(Letter(i)) == i && Letter(i) != '='
  {
  }

  function LetterOf(x: bv8): char
    requires x < 64
  {
    Letter(x as nat)
  }

  /** What looking a character up in the alphabet gives: its position, or 0xff. */
  function Find(c: char): bv8 {
    if IsLetter(c) then Position(c) as bv8 else 0xff
  }

  lemma FindLetter(x: bv8)
    requires x < 64
    ensures IsLetter(LetterOf(x)) && LetterOf(x) != '=' && Find(LetterOf(x)) == x
  {
    PositionOfLetter(x as nat);
  }

  // ---- One group: three bytes, four indices ----

  function Group(b0: bv8, b1: bv8, b2: bv8): bv24 {
    ((b0 as bv24) << 16) | ((b1 as bv24) << 8) | (b2 as bv24)
  }

  /** Index k of the four, from the most significant. */
  function Index(b0: bv8, b1: bv8, b2: bv8, k: nat): (x: bv8)
    requires k < 4
    ensures x < 64
  {
    var g := Group(b0, b1, b2);
    if k == 0 then ((g >> 18) & 63) as bv8
    else if k == 1 then ((g >> 12) & 63) as bv8
    else if k == 2 then ((g >> 6) & 63) as bv8
    else (g & 63) as bv8
  }

  function Ungroup(x0: bv8, x1: bv8, x2: bv8, x3: bv8): bv24 {
    (((x0 & 63) as bv24) << 18) | (((x1 & 63) as bv24) << 12) | (((x2 & 63) as bv24) << 6) | ((x3 & 63) as bv24)
  }

  /** Byte k of the three. */
  function Byte(x0: bv8, x1: bv8, x2: bv8, x3: bv8, k: nat): bv8
    requires k < 3
  {
    var g := Ungroup(x0, x1, x2, x3);
    if k == 0 then ((g >> 16) & 255) as bv8
    else if k == 1 then ((g >> 8) & 255) as bv8
    else (g & 255) as bv8
  }

  // Byte k comes back from the first k + 2 indices of its group.

  lemma Byte0RoundTrip(b0: bv8, b1: bv8, b2: bv8, y2: bv8, y3: bv8)
    ensures Byte(Index(b0, b1, b2, 0), Index(b0, b1, b2, 1), y2, y3, 0) == b0
  {
  }

  lemma Byte1RoundTrip(b0: bv8, b1: bv8, b2: bv8, y3: bv8)
    ensures Byte(Index(b0, b1, b2, 0), Index(b0, b1, b2, 1), Index(b0, b1, b2, 2), y3, 1) == b1
  {
  }

  lemma Byte2RoundTrip(b0: bv8, b1: bv8, b2: bv8)
    ensures Byte(Index(b0, b1, b2, 0), Index(b0, b1, b2, 1), Index(b0, b1, b2, 2), Index(b0, b1, b2, 3), 2) == b2
  {
  }

  // ---- Texts ----

  function Encoded(b: seq<bv8>): string {
    if |b| == 0 then ""
    else if |b| == 1 then [LetterOf(Index(b[0], 0, 0, 0)), LetterOf(Index(b[0], 0, 0, 1)), '=', '=']
    else if |b| == 2 then
      [LetterOf(Index(b[0], b[1], 0, 0)), LetterOf(Index(b[0], b[1], 0, 1)), LetterOf(Index(b[0], b[1], 0, 2)), '=']
    else FourLetters(b[0], b[1], b[2]) + Encoded(b[3..])
  }

  function FourLetters(b0: bv8, b1: bv8, b2: bv8): string {
    [LetterOf(Index(b0, b1, b2, 0)), LetterOf(Index(b0, b1, b2, 1)),
     LetterOf(Index(b0, b1, b2, 2)), LetterOf(Index(b0, b1, b2, 3))]
  }

  /** The bytes of a run of indices: three for every four, and one less than what is left over. */
  function Bytes(x: seq<bv8>): seq<bv8> {
    if |x| < 2 then []
    else if |x| == 2 then [Byte(x[0], x[1], 0, 0, 0)]
    else if |x| == 3 then [Byte(x[0], x[1], x[2], 0, 0), Byte(x[0], x[1], x[2], 0, 1)]
    else [Byte(x[0], x[1], x[2], x[3], 0), Byte(x[0], x[1], x[2], x[3], 1), Byte(x[0], x[1], x[2], x[3], 2)] + Bytes(x[4..])
  }

  /** Length of the longest prefix of letters. */
  function LetterRun(s: string): (n: nat)
    ensures n <= |s| && (forall k | 0 <= k < n :: IsLetter(s[k])) && (n < |s| ==> !IsLetter(s[n]))
  {
    if s != "" && IsLetter(s[0]) then 1 + LetterRun(s[1..]) else 0
  }

  function Found(s: string): (x: seq<bv8>)
    ensures |x| == |s|
  {
    seq(|s|, i requires 0 <= i < |s| => Find(s[i]))
  }

  /** Decoding that reads letters up to the first other character. */
  function Decoded(s: string): seq<bv8> {
    Bytes(Found(s[..LetterRun(s)]))
  }

  lemma {:induction false} EncodedLength(b: seq<bv8>)
    ensures |Encoded(b)| == 4 * ((|b| + 2) / 3)
  {
    if |b| >= 3 {
      EncodedLength(b[3..]);
    }
  }

  lemma LetterRunIs(s: string, n: nat)
    requires n <= |s| && (forall k | 0 <= k < n :: IsLetter(s[k])) && (n < |s| ==> !IsLetter(s[n]))
    ensures LetterRun(s) == n
  {
  }

  lemma BytesFrom(x: seq<bv8>, y: seq<bv8>)
    requires |x| == 4
    ensures Bytes(x + y) == [Byte(x[0], x[1], x[2], x[3], 0), Byte(x[0], x[1], x[2], x[3], 1), Byte(x[0], x[1], x[2], x[3], 2)] + Bytes(y)
  {
    hide Byte;
    assert (x + y)[4..] == y;
  }

  /** A run of letters for the indices x, then a text that starts with no letter or not at all. */
  lemma FoundLetters(x: seq<bv8>, s: string)
    requires forall k | 0 <= k < |x| :: x[k] < 64
    requires |s| >= |x| && forall k | 0 <= k < |x| :: s[k] == LetterOf(x[k])
    requires |s| == |x| || s[|x|] == '='
    ensures Decoded(s) == Bytes(x)
  {
    hide LetterOf, Find, Bytes, LetterRun;
    forall k | 0 <= k < |x|
      ensures IsLetter(s[k]) && Find(s[k]) == x[k]
    {
      FindLetter(x[k]);
    }
    LetterRunIs(s, |x|);
    assert Found(s[..|x|]) == x;
  }

  /** The indices an encoding spells, without the fill characters. */
  function Indices(b: seq<bv8>): (x: seq<bv8>)
    ensures forall k | 0 <= k < |x| :: x[k] < 64
  {
    if |b| == 0 then []
    else if |b| == 1 then [Index(b[0], 0, 0, 0), Index(b[0], 0, 0, 1)]
    else if |b| == 2 then [Index(b[0], b[1], 0, 0), Index(b[0], b[1], 0, 1), Index(b[0], b[1], 0, 2)]
    else [Index(b[0], b[1], b[2], 0), Index(b[0], b[1], b[2], 1),
          Index(b[0], b[1], b[2], 2), Index(b[0], b[1], b[2], 3)] + Indices(b[3..])
  }

  lemma {:induction false} EncodedSpells(b: seq<bv8>)
    ensures var x, s := Indices(b), Encoded(b);
            && |s| >= |x|
            && (forall k | 0 <= k < |x| :: s[k] == LetterOf(x[k]))
            && (forall k | |x| <= k < |s| :: s[k] == '=')
  {
    hide Index, LetterOf;
    if |b| >= 3 {
      EncodedSpells(b[3..]);
    }
  }

  lemma {:induction false} BytesOfIndices(b: seq<bv8>)
    ensures Bytes(Indices(b)) == b
  {
    hide Index, Byte;
    if |b| == 1 {
      Byte0RoundTrip(b[0], 0, 0, 0, 0);
    } else if |b| == 2 {
      Byte0RoundTrip(b[0], b[1], 0, Index(b[0], b[1], 0, 2), 0);
      Byte1RoundTrip(b[0], b[1], 0, 0);
    } else if |b| >= 3 {
      var x2, x3 := Index(b[0], b[1], b[2], 2), Index(b[0], b[1], b[2], 3);
      Byte0RoundTrip(b[0], b[1], b[2], x2, x3);
      Byte1RoundTrip(b[0], b[1], b[2], x3);
      Byte2RoundTrip(b[0], b[1], b[2]);
      BytesOfIndices(b[3..]);
      BytesFrom(Indices(b)[..4], Indices(b[3..]));
      assert Indices(b) == Indices(b)[..4] + Indices(b[3..]);
    }
  }

  /** Decoding an encoding gives the bytes back. */
  lemma EncodingRoundTrip(b: seq<bv8>)
    ensures Decoded(Encoded(b)) == b
  {
    hide LetterOf, Decoded, Bytes, Indices, Encoded;
    EncodedSpells(b);
    BytesOfIndices(b);
    FoundLetters(Indices(b), Encoded(b));
  }
}
