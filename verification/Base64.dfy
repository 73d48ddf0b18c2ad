/** The two independent Base64 codecs, base64.cpp and crypto.cpp, against one definition. */
module Base64 {
  import opened Rfc4648

  // ---- base64.cpp ----

  lemma IndicesOfMasks(b0: bv8, b1: bv8, b2: bv8)
    ensures (b0 & 0xfc) >> 2 == Index(b0, b1, b2, 0)
    ensures ((b0 & 0x03) << 4) + ((b1 & 0xf0) >> 4) == Index(b0, b1, b2, 1)
    ensures ((b1 & 0x0f) << 2) + ((b2 & 0xc0) >> 6) == Index(b0, b1, b2, 2)
    ensures b2 & 0x3f == Index(b0, b1, b2, 3)
  {
  }

  /** char_array_4 from char_array_3. */
  method Split(b0: bv8, b1: bv8, b2: bv8) returns (x: array<bv8>)
    ensures fresh(x) && x.Length == 4
    ensures x[0] == Index(b0, b1, b2, 0) && x[1] == Index(b0, b1, b2, 1)
    ensures x[2] == Index(b0, b1, b2, 2) && x[3] == Index(b0, b1, b2, 3)
  {
    IndicesOfMasks(b0, b1, b2);
    x := new bv8[4];
    x[0] := (b0 & 0xfc) >> 2;
    x[1] := ((b0 & 0x03) << 4) + ((b1 & 0xf0) >> 4);
    x[2] := ((b1 & 0x0f) << 2) + ((b2 & 0xc0) >> 6);
    x[3] := b2 & 0x3f;
  }

  /** The letters of one complete group. */
  method AppendGroup(ret0: string, three: array<bv8>) returns (ret: string)
    requires three.Length == 3
    ensures ret == ret0 + FourLetters(three[0], three[1], three[2])
  {
    hide Index, LetterOf;
    ret := ret0;
    var four := Split(three[0], three[1], three[2]);
    ghost var letters := FourLetters(three[0], three[1], three[2]);
    for k := 0 to 4
      invariant four[0] < 64 && four[1] < 64 && four[2] < 64 && four[3] < 64
      invariant ret == ret0 + letters[..k]
    {
      assert letters[..k + 1] == letters[..k] + [letters[k]];
      ret := ret + [LetterOf(four[k])];
    }
  }

  /** The last one or two bytes: zeros added, the letters that carry data, then '='. */
  method AppendRest(ret0: string, three: array<bv8>, i0: nat) returns (ret: string)
    requires three.Length == 3 && 0 < i0 < 3
    modifies three
    ensures ret == ret0 + Encoded(old(three[..i0]))
  {
    hide Index, LetterOf;
    ret := ret0;
    ghost var rest := three[..i0];
    for j := i0 to 3
      invariant three[..i0] == rest
      invariant forall k | i0 <= k < j :: three[k] == 0
    {
      three[j] := 0;
    }
    assert rest[0] == three[0] && (i0 == 2 ==> rest[1] == three[1]);
    var four := Split(three[0], three[1], three[2]);
    for j := 0 to i0 + 1
      invariant four[0] < 64 && four[1] < 64 && four[2] < 64
      invariant ret == ret0 + Encoded(rest)[..j]
    {
      ret := ret + [LetterOf(four[j])];
    }
    var i := i0;
    while i < 3
      invariant i0 <= i <= 3
      invariant ret == ret0 + Encoded(rest)[..i + 1]
    {
      ret := ret + ['='];
      i := i + 1;
    }
  }

  lemma EncodedGroup(b: seq<bv8>)
    requires |b| >= 3
    ensures Encoded(b) == FourLetters(b[0], b[1], b[2]) + Encoded(b[3..])
  {
  }

  method Base64Encode(bytes: seq<bv8>) returns (ret: string)
    ensures ret == Encoded(bytes)
  {
    hide Index, LetterOf, FourLetters, Encoded;
    ret := "";
    var i := 0;
    var three := new bv8[3];
    var n := 0;
    ghost var left := bytes;
    while n < |bytes|
      invariant 0 <= i < 3 && i <= n <= |bytes| && left == bytes[n - i..]
      invariant three[..i] == left[..i]
      invariant ret + Encoded(left) == Encoded(bytes)
    {
      three[i] := bytes[n];
      n := n + 1;
      i := i + 1;
      if i == 3 {
        EncodedGroup(left);
        assert three[0] == left[0] && three[1] == left[1] && three[2] == left[2];
        ret := AppendGroup(ret, three);
        left := left[3..];
        i := 0;
      }
    }
    if i != 0 {
      assert left == three[..i];
      ret := AppendRest(ret, three, i);
    } else {
      assert left == [] && Encoded([]) == "" by { EncodedNothing(); }
    }
  }

  lemma EncodedNothing()
    ensures Encoded([]) == ""
  {
  }

  lemma BytesOfMasks(x0: bv8, x1: bv8, x2: bv8, x3: bv8)
    requires x0 < 64 && x1 < 64
    ensures (x0 << 2) + ((x1 & 0x30) >> 4) == Byte(x0, x1, x2, x3, 0)
    ensures ((x1 & 0xf) << 4) + ((x2 & 0x3c) >> 2) == Byte(x0, x1, x2, x3, 1)
    ensures x3 < 64 ==> ((x2 & 0x3) << 6) + x3 == Byte(x0, x1, x2, x3, 2)
  {
  }

  lemma FindIsSmall(c: char)
    ensures IsLetter(c) ==> Find(c) < 64
  {
  }

  /** char_array_3 from the positions of the characters in char_array_4. */
  method Join(four: array<char>, i: nat) returns (three: array<bv8>)
    requires four.Length == 4 && 2 <= i <= 4 && forall k | 0 <= k < i :: IsLetter(four[k])
    ensures fresh(three) && three.Length == 3
    ensures var x0, x1, x2, x3 := Find(four[0]), Find(four[1]), Find(four[2]), Find(four[3]);
            && three[0] == Byte(x0, x1, x2, x3, 0)
            && three[1] == Byte(x0, x1, x2, x3, 1)
            && (i == 4 ==> three[2] == Byte(x0, x1, x2, x3, 2))
  {
    hide Find, Byte;
    FindIsSmall(four[0]);
    FindIsSmall(four[1]);
    FindIsSmall(four[3]);
    var x0, x1, x2, x3 := Find(four[0]), Find(four[1]), Find(four[2]), Find(four[3]);
    BytesOfMasks(x0, x1, x2, x3);
    three := new bv8[3];
    three[0] := (x0 << 2) + ((x1 & 0x30) >> 4);
    three[1] := ((x1 & 0xf) << 4) + ((x2 & 0x3c) >> 2);
    three[2] := ((x2 & 0x3) << 6) + x3;
  }

  lemma BytesGroup(x: seq<bv8>)
    requires |x| >= 4
    ensures Bytes(x) ==
      [Byte(x[0], x[1], x[2], x[3], 0), Byte(x[0], x[1], x[2], x[3], 1), Byte(x[0], x[1], x[2], x[3], 2)] + Bytes(x[4..])
  {
  }

  /** Bytes of two or three indices do not depend on what stands for the missing ones. */
  lemma BytesRest(x: seq<bv8>, y2: bv8, y3: bv8)
    requires 2 <= |x| <= 3 && (|x| == 3 ==> y2 == x[2])
    ensures Bytes(x) == [Byte(x[0], x[1], y2, y3, 0), Byte(x[0], x[1], y2, y3, 1)][..|x| - 1]
  {
    hide Byte;
    LeadingBytes(x[0], x[1], y2, 0, y3, 0);
    LeadingBytes(x[0], x[1], y2, y2, y3, 0);
  }

  lemma LeadingBytes(x0: bv8, x1: bv8, x2: bv8, y2: bv8, x3: bv8, y3: bv8)
    ensures Byte(x0, x1, x2, x3, 0) == Byte(x0, x1, y2, y3, 0)
    ensures Byte(x0, x1, x2, x3, 1) == Byte(x0, x1, x2, y3, 1)
  {
  }

  /** Appends the first n of the three bytes. */
  method AppendBytes(ret0: seq<bv8>, three: array<bv8>, n: nat) returns (ret: seq<bv8>)
    requires n <= three.Length
    ensures ret == ret0 + three[..n]
  {
    ret := ret0;
    for k := 0 to n
      invariant ret == ret0 + three[..k]
    {
      ret := ret + [three[k]];
    }
  }

  /** A group of four characters that have indices x[0..4]. */
  method DecodeGroup(ret0: seq<bv8>, four: array<char>, ghost x: seq<bv8>) returns (ret: seq<bv8>)
    requires four.Length == 4 && |x| >= 4
    requires forall k | 0 <= k < 4 :: IsLetter(four[k]) && Find(four[k]) == x[k]
    ensures ret + Bytes(x[4..]) == ret0 + Bytes(x)
  {
    hide Find, Byte, Bytes, IsLetter;
    BytesGroup(x);
    var three := Join(four, 4);
    ret := AppendBytes(ret0, three, 3);
    assert three[..3] == [three[0], three[1], three[2]];
  }

  /** The last two or three characters, with whatever fills the group. */
  method DecodeRest(ret0: seq<bv8>, four: array<char>, i: nat, ghost x: seq<bv8>) returns (ret: seq<bv8>)
    requires four.Length == 4 && 2 <= i == |x| <= 3
    requires forall k | 0 <= k < i :: IsLetter(four[k]) && Find(four[k]) == x[k]
    ensures ret == ret0 + Bytes(x)
  {
    hide Find, Byte, Bytes, IsLetter;
    BytesRest(x, Find(four[2]), Find(four[3]));
    var three := Join(four, i);
    ret := AppendBytes(ret0, three, i - 1);
    assert three[..2] == [three[0], three[1]] && three[..i - 1] == three[..2][..i - 1];
  }

  /** The characters the decoder reads, and their indices. */
  lemma LettersFound(s: string) returns (run: nat, x: seq<bv8>)
    ensures run == |x| <= |s| && Decoded(s) == Bytes(x)
    ensures forall k | 0 <= k < run :: IsLetter(s[k]) && s[k] != '=' && x[k] == Find(s[k])
    ensures run < |s| ==> s[run] == '=' || !IsLetter(s[run])
  {
    hide Find, Bytes;
    run := LetterRun(s);
    x := Found(s[..run]);
  }

  method Base64Decode(s: string) returns (ret: seq<bv8>)
    ensures ret == Decoded(s)
  {
    ghost var run, x := LettersFound(s);
    hide *;
    ret := [];
    var i, n := 0, 0;
    var four := new char[4];
    ghost var left := x;
    while n < |s| && s[n] != '=' && IsLetter(s[n])
      invariant 0 <= i < 4 && i <= n <= run && left == x[n - i..]
      invariant forall k | 0 <= k < i :: four[k] == s[n - i + k]
      invariant ret + Bytes(left) == Bytes(x)
    {
      four[i] := s[n];
      n := n + 1;
      i := i + 1;
      if i == 4 {
        ret := DecodeGroup(ret, four, left);
        left := left[4..];
        i := 0;
      }
    }
    assert n == run;
    if i != 0 {
      for j := i to 4
        invariant forall k | 0 <= k < i :: four[k] == s[n - i + k]
      {
        four[j] := '\0';
      }
      if i > 1 {
        ret := DecodeRest(ret, four, i, left);
        left := [];
      }
    }
    NoBytes(left);
  }

  lemma NoBytes(x: seq<bv8>)
    ensures |x| < 2 ==> Bytes(x) == []
  {
  }

  // ---- crypto.cpp ----

  lemma IndicesOfShifts(b0: bv8, b1: bv8, b2: bv8)
    ensures (b0 >> 2) & 0x3f == Index(b0, b1, b2, 0)
    ensures ((b0 << 4) & 0x30) | ((b1 >> 4) & 0x0f) == Index(b0, b1, b2, 1)
    ensures ((b1 << 2) & 0x3c) | ((b2 >> 6) & 0x03) == Index(b0, b1, b2, 2)
    ensures b2 & 0x3f == Index(b0, b1, b2, 3)
  {
  }

  lemma IndicesOfLastShifts(b0: bv8, b1: bv8)
    ensures (b0 << 4) & 0x30 == Index(b0, 0, 0, 1)
    ensures (b1 << 2) & 0x3c == Index(b0, b1, 0, 2)
    ensures Index(b0, 0, 0, 0) == Index(b0, b1, 0, 0)
  {
  }

  lemma EncodedCases(b: seq<bv8>)
    requires |b| > 0
    ensures |b| == 1 ==> Encoded(b) == [LetterOf(Index(b[0], 0, 0, 0)), LetterOf(Index(b[0], 0, 0, 1)), '=', '=']
    ensures |b| == 2 ==>
      Encoded(b) ==
      [LetterOf(Index(b[0], b[1], 0, 0)), LetterOf(Index(b[0], b[1], 0, 1)), LetterOf(Index(b[0], b[1], 0, 2)), '=']
    ensures |b| > 2 ==>
      Encoded(b) ==
      [LetterOf(Index(b[0], b[1], b[2], 0)), LetterOf(Index(b[0], b[1], b[2], 1)),
       LetterOf(Index(b[0], b[1], b[2], 2)), LetterOf(Index(b[0], b[1], b[2], 3))] + Encoded(b[3..])
  {
    hide LetterOf, Index;
  }

  /** The loop body: four characters for up to three bytes, and whether the loop goes on. */
  method StoreLetters(bindata: seq<bv8>, i: nat, base64: array<char>, j: nat) returns (more: bool)
    requires i < |bindata| && j + 4 <= base64.Length
    modifies base64
    ensures more <==> i + 2 < |bindata|
    ensures more ==> base64[..j + 4] + Encoded(bindata[i + 3..]) == old(base64[..j]) + Encoded(bindata[i..])
    ensures !more ==> base64[..j + 4] == old(base64[..j]) + Encoded(bindata[i..])
  {
    hide Index, LetterOf, Encoded, FourLetters;
    ghost var left := bindata[i..];
    var b0 := bindata[i];
    var b1 := if i + 1 < |bindata| then bindata[i + 1] else 0;
    var b2 := if i + 2 < |bindata| then bindata[i + 2] else 0;
    IndicesOfShifts(b0, b1, b2);
    IndicesOfLastShifts(b0, b1);
    EncodedCases(left);
    base64[j] := LetterOf((b0 >> 2) & 0x3f);
    if i + 1 >= |bindata| {
      base64[j + 1], base64[j + 2], base64[j + 3] := LetterOf((b0 << 4) & 0x30), '=', '=';
      return false;
    }
    base64[j + 1] := LetterOf(((b0 << 4) & 0x30) | ((b1 >> 4) & 0x0f));
    if i + 2 >= |bindata| {
      base64[j + 2], base64[j + 3] := LetterOf((b1 << 2) & 0x3c), '=';
      return false;
    }
    base64[j + 2] := LetterOf(((b1 << 2) & 0x3c) | ((b2 >> 6) & 0x03));
    base64[j + 3] := LetterOf(b2 & 0x3f);
    assert left[3..] == bindata[i + 3..];
    more := true;
  }

  /** Crypto::Base64Encode. The text goes to `base64`, with a final zero. */
  method CryptoEncode(bindata: seq<bv8>, base64: array<char>) returns (j: nat)
    requires base64.Length > 4 * ((|bindata| + 2) / 3)
    modifies base64
    ensures j < base64.Length && base64[..j] == Encoded(bindata) && base64[j] == '\0'
  {
    hide *;
    EncodedLength(bindata);
    var i := 0;
    j := 0;
    ghost var left := bindata;
    while i < |bindata|
      invariant 0 <= i <= |bindata| && left == bindata[i..]
      invariant j + |Encoded(left)| == |Encoded(bindata)| && base64[..j] + Encoded(left) == Encoded(bindata)
    {
      EncodedLength(left);
      var more := StoreLetters(bindata, i, base64, j);
      j := j + 4;
      if !more {
        left := [];
        break;
      }
      left := left[3..];
      EncodedLength(left);
      i := i + 3;
    }
    EncodedNothing();
    base64[j] := '\0';
  }

  /** The characters from the pointer on suffice: a zero where a group begins, or '=' in one, comes
      before they end. Only there does the loop of Crypto::Base64Decode stop. */
  ghost predicate Readable(s: string) {
    && s != ""
    && (s[0] == '\0' || (|s| >= 4 && (s[2] == '=' || s[3] == '=' || Readable(s[4..]))))
  }

  /** What Crypto::Base64Decode makes of them, '=' or not, letters or not. */
  ghost function GroupsDecoded(s: string): seq<bv8>
    requires Readable(s)
  {
    if s[0] == '\0' then [] else
    var x0, x1, x2, x3 := Find(s[0]), Find(s[1]), Find(s[2]), Find(s[3]);
    if s[2] == '=' then [Byte(x0, x1, x2, x3, 0)]
    else if s[3] == '=' then [Byte(x0, x1, x2, x3, 0), Byte(x0, x1, x2, x3, 1)]
    else [Byte(x0, x1, x2, x3, 0), Byte(x0, x1, x2, x3, 1), Byte(x0, x1, x2, x3, 2)] + GroupsDecoded(s[4..])
  }

  lemma ReadableGroup(s: string)
    requires |s| >= 4 && s[0] != '\0'
    ensures Readable(s) <==> s[2] == '=' || s[3] == '=' || Readable(s[4..])
  {
  }

  lemma NothingToRead(s: string)
    requires s != "" && s[0] == '\0'
    ensures Readable(s) && GroupsDecoded(s) == []
  {
  }

  lemma GroupsCases(s: string)
    requires Readable(s)
    ensures s != ""
    ensures s[0] == '\0' ==> GroupsDecoded(s) == []
    ensures s[0] != '\0' ==>
      && |s| >= 4
      && var x0, x1, x2, x3 := Find(s[0]), Find(s[1]), Find(s[2]), Find(s[3]);
      && (s[2] == '=' ==> GroupsDecoded(s) == [Byte(x0, x1, x2, x3, 0)])
      && (s[2] != '=' && s[3] == '=' ==> GroupsDecoded(s) == [Byte(x0, x1, x2, x3, 0), Byte(x0, x1, x2, x3, 1)])
      && (s[2] != '=' && s[3] != '=' ==>
            && Readable(s[4..])
            && GroupsDecoded(s) ==
               [Byte(x0, x1, x2, x3, 0), Byte(x0, x1, x2, x3, 1), Byte(x0, x1, x2, x3, 2)] + GroupsDecoded(s[4..]))
  {
    hide Find, Byte;
  }

  lemma BytesOfShifts(x0: bv8, x1: bv8, x2: bv8, x3: bv8)
    ensures ((x0 << 2) & 0xfc) | ((x1 >> 4) & 0x03) == Byte(x0, x1, x2, x3, 0)
    ensures ((x1 << 4) & 0xf0) | ((x2 >> 2) & 0x0f) == Byte(x0, x1, x2, x3, 1)
    ensures ((x2 << 6) & 0xf0) | (x3 & 0x3f) == Byte(x0, x1, x2, x3, 2)
  {
  }

  /** One of the four searches through the alphabet; 0xff stays when nothing matches. */
  method Search(c: char) returns (temp: bv8)
    ensures temp == Find(c)
  {
    temp := 0xff;
    for k := 0 to 64
      invariant temp == if IsLetter(c) && Position(c) < k then Position(c) as bv8 else 0xff
    {
      PositionOfLetter(k);
      if Letter(k) == c {
        temp := k as bv8;
      }
    }
  }

  /** Crypto::Base64Decode. `base64` is all that can be read from the pointer on. */
  method CryptoDecode(base64: string, bindata: array<bv8>) returns (j: nat)
    requires Readable(base64) && bindata.Length >= |GroupsDecoded(base64)|
    modifies bindata
    ensures j <= bindata.Length && bindata[..j] == GroupsDecoded(base64)
    ensures forall k | j <= k < bindata.Length :: bindata[k] == old(bindata[k])
  {
    hide *;
    var i := 0;
    j := 0;
    ghost var left := base64;
    GroupsCases(left);
    while base64[i] != '\0'
      invariant 0 <= i < |base64| && left == base64[i..] && Readable(left)
      invariant j + |GroupsDecoded(left)| == |GroupsDecoded(base64)|
      invariant bindata[..j] + GroupsDecoded(left) == GroupsDecoded(base64)
      invariant forall k | j <= k < bindata.Length :: bindata[k] == old(bindata[k])
      decreases |base64| - i
    {
      GroupsCases(left);
      var n := ReadGroup(left, base64[i], base64[i + 1], base64[i + 2], base64[i + 3], bindata, j);
      j := j + n;
      if n < 3 {
        return;
      }
      left := left[4..];
      GroupsCases(left);
      i := i + 4;
    }
    GroupsCases(left);
  }

  /** The loop body: the four searches, and the bytes they give. */
  method ReadGroup(ghost left: string, c0: char, c1: char, c2: char, c3: char, bindata: array<bv8>, j: nat)
    returns (n: nat)
    requires Readable(left) && |left| >= 4 && left[..4] == [c0, c1, c2, c3] && c0 != '\0'
    requires j + |GroupsDecoded(left)| <= bindata.Length
    modifies bindata
    ensures n <= 3 && j + n <= bindata.Length
    ensures n < 3 ==> bindata[..j + n] == old(bindata[..j]) + GroupsDecoded(left)
    ensures n == 3 ==>
      && Readable(left[4..]) && |GroupsDecoded(left)| == 3 + |GroupsDecoded(left[4..])|
      && bindata[..j + n] + GroupsDecoded(left[4..]) == old(bindata[..j]) + GroupsDecoded(left)
    ensures forall k | j + n <= k < bindata.Length :: bindata[k] == old(bindata[k])
  {
    hide *;
    assert left[0] == left[..4][0] && left[1] == left[..4][1] && left[2] == left[..4][2] && left[3] == left[..4][3];
    GroupsCases(left);
    var x0 := Search(c0);
    var x1 := Search(c1);
    var x2 := Search(c2);
    var x3 := Search(c3);
    n := StoreGroup(x0, x1, x2, x3, c2 == '=', c3 == '=', bindata, j);
    if n == 3 {
      OneGroupOn(old(bindata[..j]), [Byte(x0, x1, x2, x3, 0), Byte(x0, x1, x2, x3, 1), Byte(x0, x1, x2, x3, 2)],
                 GroupsDecoded(left[4..]));
    }
  }

  lemma OneGroupOn(done: seq<bv8>, group: seq<bv8>, rest: seq<bv8>)
    ensures done + group + rest == done + (group + rest)
  {
  }

  /** The bytes of one group, and how many they are. */
  method StoreGroup(x0: bv8, x1: bv8, x2: bv8, x3: bv8, one: bool, two: bool, bindata: array<bv8>, j: nat)
    returns (n: nat)
    requires j + (if one then 1 else if two then 2 else 3) <= bindata.Length
    modifies bindata
    ensures n == if one then 1 else if two then 2 else 3
    ensures forall k | j + n <= k < bindata.Length :: bindata[k] == old(bindata[k])
    ensures bindata[..j + n] == old(bindata[..j])
      + [Byte(x0, x1, x2, x3, 0), Byte(x0, x1, x2, x3, 1), Byte(x0, x1, x2, x3, 2)][..n]
  {
    hide Byte;
    BytesOfShifts(x0, x1, x2, x3);
    bindata[j] := ((x0 << 2) & 0xfc) | ((x1 >> 4) & 0x03);
    if one {
      return 1;
    }
    bindata[j + 1] := ((x1 << 4) & 0xf0) | ((x2 >> 2) & 0x0f);
    if two {
      return 2;
    }
    bindata[j + 2] := ((x2 << 6) & 0xf0) | (x3 & 0x3f);
    n := 3;
  }

  /** A group of n bytes' letters gives the bytes back; b1 and b2 are zero where there are fewer. */
  lemma GroupBack(s: string, b0: bv8, b1: bv8, b2: bv8, n: nat)
    requires |s| >= 4 && 1 <= n <= 3 && (n == 1 ==> b1 == 0) && (n <= 2 ==> b2 == 0)
    requires s[0] == LetterOf(Index(b0, b1, b2, 0)) && s[1] == LetterOf(Index(b0, b1, b2, 1))
    requires s[2] == if n == 1 then '=' else LetterOf(Index(b0, b1, b2, 2))
    requires s[3] == if n <= 2 then '=' else LetterOf(Index(b0, b1, b2, 3))
    requires n == 3 ==> Readable(s[4..])
    ensures Readable(s)
    ensures GroupsDecoded(s) == if n == 3 then [b0, b1, b2] + GroupsDecoded(s[4..]) else [b0, b1][..n]
  {
    FindLetter(Index(b0, b1, b2, 0));
    FindLetter(Index(b0, b1, b2, 1));
    FindLetter(Index(b0, b1, b2, 2));
    FindLetter(Index(b0, b1, b2, 3));
    assert LetterOf(Index(b0, b1, b2, 0)) != '\0';
    hide *;
    Byte0RoundTrip(b0, b1, b2, Find(s[2]), Find(s[3]));
    Byte1RoundTrip(b0, b1, b2, Find(s[3]));
    Byte2RoundTrip(b0, b1, b2);
    ReadableGroup(s);
    GroupsCases(s);
  }

  lemma FourInFront(four: string, rest: string, end: string)
    requires |four| == 4
    ensures var s := four + rest + end;
            |s| >= 4 && s[0] == four[0] && s[1] == four[1] && s[2] == four[2] && s[3] == four[3] && s[4..] == rest + end
  {
  }

  lemma FullGroupBack(b: seq<bv8>, end: string)
    requires |b| > 2 && Readable(Encoded(b[3..]) + end) && GroupsDecoded(Encoded(b[3..]) + end) == b[3..]
    ensures Readable(Encoded(b) + end) && GroupsDecoded(Encoded(b) + end) == b
  {
    hide *;
    EncodedCases(b);
    FourInFront([LetterOf(Index(b[0], b[1], b[2], 0)), LetterOf(Index(b[0], b[1], b[2], 1)),
                 LetterOf(Index(b[0], b[1], b[2], 2)), LetterOf(Index(b[0], b[1], b[2], 3))], Encoded(b[3..]), end);
    GroupBack(Encoded(b) + end, b[0], b[1], b[2], 3);
    assert b == [b[0], b[1], b[2]] + b[3..];
  }

  lemma LastGroupBack(b: seq<bv8>, end: string)
    requires 1 <= |b| <= 2
    ensures Readable(Encoded(b) + end) && GroupsDecoded(Encoded(b) + end) == b
  {
    hide *;
    EncodedCases(b);
    var b1 := if |b| == 2 then b[1] else 0;
    FourInFront(Encoded(b), "", end);
    assert Encoded(b) + "" == Encoded(b);
    GroupBack(Encoded(b) + end, b[0], b1, 0, |b|);
    assert b == [b[0], b1][..|b|];
  }

  lemma {:induction false} LettersBack(b: seq<bv8>, end: string)
    requires end != "" && end[0] == '\0'
    ensures Readable(Encoded(b) + end) && GroupsDecoded(Encoded(b) + end) == b
  {
    if |b| == 0 {
      assert Encoded(b) + end == end;
      NothingToRead(end);
    } else {
      hide *;
      if |b| > 2 {
        LettersBack(b[3..], end);
        FullGroupBack(b, end);
      } else {
        LastGroupBack(b, end);
      }
    }
  }

  /** The second codec inverts the common encoding too, so each decoder reads either encoder:
      whatever lies behind the final zero. */
  lemma GroupsRoundTrip(b: seq<bv8>, behind: string)
    ensures Readable(Encoded(b) + "\0" + behind) && GroupsDecoded(Encoded(b) + "\0" + behind) == b
  {
    hide *;
    LettersBack(b, "\0" + behind);
    assert Encoded(b) + "\0" + behind == Encoded(b) + ("\0" + behind);
  }
}
