/** Class AES_ECB_Cipher: the same cipher on arrays. The encryptor works on a row-major copy of
    the block, the decryptor in place on the block itself, so one reads state bytes in the
    opposite index order of the other. */
module AesCipher {
  import opened GF256
  import opened AesTables
  import Fips = Fips197
  import Msg = AesMessages
  import opened Options

  type Block = Fips.Block

  /** The four-by-four transpose: the block seen through the other index order. */
  function Transpose(b: Block): Block {
    seq(16, k requires 0 <= k < 16 => b[4 * (k % 4) + k / 4])
  }

  lemma TransposeTwice(b: Block)
    ensures Transpose(Transpose(b)) == b
  {
  }

  /** The first n bytes of t, the others of s, counting along the rows of memory. */
  ghost function ByRows(s: Block, t: Block, n: nat): Block {
    seq(16, k requires 0 <= k < 16 => if k < n then t[k] else s[k])
  }

  /** How many bytes come before byte k, counting down the columns of memory. */
  ghost function Rank(k: nat): (n: nat)
    requires k < 16
    ensures n < 16
  {
    4 * (k % 4) + k / 4
  }

  lemma RankOf(k: nat, i: nat, j: nat)
    requires k < 16 && i < 4 && j < 4
    ensures Rank(k) == 4 * i + j <==> k == 4 * j + i
  {
  }

  /** The same, counting down the columns. */
  ghost function ByColumns(s: Block, t: Block, n: nat): Block {
    seq(16, k requires 0 <= k < 16 => if Rank(k) < n then t[k] else s[k])
  }

  lemma ByRowsSteps(s: Block, t: Block, n: nat)
    ensures ByRows(s, t, 0) == s
    ensures ByRows(s, t, 16) == t
    ensures n < 16 ==> ByRows(s, t, n)[n] == s[n] && ByRows(s, t, n)[n := t[n]] == ByRows(s, t, n + 1)
  {
  }

  lemma ByColumnsEnds(s: Block, t: Block)
    ensures ByColumns(s, t, 0) == s
    ensures ByColumns(s, t, 16) == t
  {
    hide Rank;
  }

  lemma ByColumnsStep(s: Block, t: Block, i: nat, j: nat)
    requires i < 4 && j < 4
    ensures ByColumns(s, t, 4 * i + j)[4 * j + i] == s[4 * j + i]
    ensures ByColumns(s, t, 4 * i + j)[4 * j + i := t[4 * j + i]] == ByColumns(s, t, 4 * i + j + 1)
  {
    forall k: nat | k < 16
      ensures Rank(k) == 4 * i + j <==> k == 4 * j + i
    {
      RankOf(k, i, j);
    }
    hide Rank;
  }

  /** Byte k of column i is still that of s when those before row j are done. */
  lemma ColumnLeft(s: Block, t: Block, i: nat, j: nat, k: nat)
    requires i < 4 && j <= k < 4
    ensures ByColumns(s, t, 4 * i + j)[4 * k + i] == s[4 * k + i]
  {
    RankOf(4 * k + i, i, k);
    hide Rank;
  }

  lemma KeyAddedAt(s: Block, key: Block, i: nat, j: nat)
    requires i < 4 && j < 4
    ensures Transpose(Fips.AddRoundKey(Transpose(s), key))[4 * j + i] == s[4 * j + i] ^ key[4 * i + j]
  {
    hide Fips.AddRoundKey, Transpose;
    TransposeAt(Fips.AddRoundKey(Transpose(s), key), j, i);
    AddedAt(Transpose(s), key, 4 * i + j);
    TransposeAt(s, i, j);
  }

  lemma AddedAt(s: Block, key: Block, k: nat)
    requires k < 16
    ensures Fips.AddRoundKey(s, key)[k] == s[k] ^ key[k]
  {
  }

  lemma MappedAt(f: bv8 -> bv8, s: Block, k: nat)
    requires k < 16
    ensures Transpose(Fips.MapBytes(f, Transpose(s)))[k] == f(s[k])
  {
  }

  lemma TransposeBytes(b: Block)
    ensures Transpose(b) ==
      [b[0], b[4], b[8], b[12], b[1], b[5], b[9], b[13], b[2], b[6], b[10], b[14], b[3], b[7], b[11], b[15]]
  {
  }

  lemma ShiftRowsBytes(b: Block)
    ensures Fips.ShiftRows(b) ==
      [b[0], b[5], b[10], b[15], b[4], b[9], b[14], b[3], b[8], b[13], b[2], b[7], b[12], b[1], b[6], b[11]]
  {
    Sources();
    hide Fips.ShiftedFrom;
  }

  lemma Sources()
    ensures forall i | 0 <= i < 16 :: Fips.ShiftedFrom(i) == [0, 5, 10, 15, 4, 9, 14, 3, 8, 13, 2, 7, 12, 1, 6, 11][i]
  {
  }

  lemma MapColumnsAt(f: (bv8, bv8, bv8, bv8) -> bv8, b: Block, i: nat, j: nat)
    requires i < 4 && j < 4
    ensures Fips.MapColumns(f, b)[4 * i + j]
         == f(b[4 * i + j], b[4 * i + (j + 1) % 4], b[4 * i + (j + 2) % 4], b[4 * i + (j + 3) % 4])
  {
    var p := 4 * i + j;
    assert p / 4 == i && p % 4 == j;
    assert Fips.InColumn(b, p, 0) == b[p];
    assert Fips.InColumn(b, p, 1) == b[4 * i + (j + 1) % 4];
    assert Fips.InColumn(b, p, 2) == b[4 * i + (j + 2) % 4];
    assert Fips.InColumn(b, p, 3) == b[4 * i + (j + 3) % 4];
  }

  lemma ColumnAt(f: (bv8, bv8, bv8, bv8) -> bv8, b: Block, i: nat)
    requires i < 4
    ensures var t := Fips.MapColumns(f, b);
            && t[4 * i] == f(b[4 * i], b[4 * i + 1], b[4 * i + 2], b[4 * i + 3])
            && t[4 * i + 1] == f(b[4 * i + 1], b[4 * i + 2], b[4 * i + 3], b[4 * i])
            && t[4 * i + 2] == f(b[4 * i + 2], b[4 * i + 3], b[4 * i], b[4 * i + 1])
            && t[4 * i + 3] == f(b[4 * i + 3], b[4 * i], b[4 * i + 1], b[4 * i + 2])
  {
    hide *;
    MapColumnsAt(f, b, i, 0);
    MapColumnsAt(f, b, i, 1);
    MapColumnsAt(f, b, i, 2);
    MapColumnsAt(f, b, i, 3);
  }

  lemma MixColumnsAt(b: Block, i: nat)
    requires i < 4
    ensures var t := Fips.MixColumns(b);
            && t[4 * i] == MixByte(b[4 * i], b[4 * i + 1], b[4 * i + 2], b[4 * i + 3])
            && t[4 * i + 1] == MixByte(b[4 * i + 1], b[4 * i + 2], b[4 * i + 3], b[4 * i])
            && t[4 * i + 2] == MixByte(b[4 * i + 2], b[4 * i + 3], b[4 * i], b[4 * i + 1])
            && t[4 * i + 3] == MixByte(b[4 * i + 3], b[4 * i], b[4 * i + 1], b[4 * i + 2])
  {
    hide MixByte, Fips.MapColumns, Fips.InColumn;
    ColumnAt(MixByte, b, i);
  }

  lemma TransposeAt(b: Block, i: nat, j: nat)
    requires i < 4 && j < 4
    ensures Transpose(b)[4 * i + j] == b[4 * j + i]
  {
  }

  /** Column i of the transposed, mixed block. */
  lemma MixedColumnAt(s: Block, i: nat, sum: bv8)
    requires i < 4 && sum == s[i] ^ s[4 + i] ^ s[8 + i] ^ s[12 + i]
    ensures var t := Transpose(Fips.MixColumns(Transpose(s)));
            && t[i] == MixStep(s[i], s[4 + i], sum)
            && t[4 + i] == MixStep(s[4 + i], s[8 + i], sum)
            && t[8 + i] == MixStep(s[8 + i], s[12 + i], sum)
            && t[12 + i] == MixStep(s[12 + i], s[i], sum)
  {
    hide *;
    var m := Fips.MixColumns(Transpose(s));
    TransposeAt(s, i, 0); TransposeAt(s, i, 1); TransposeAt(s, i, 2); TransposeAt(s, i, 3);
    TransposeAt(m, 0, i); TransposeAt(m, 1, i); TransposeAt(m, 2, i); TransposeAt(m, 3, i);
    MixColumnsAt(Transpose(s), i);
    MixStepsAreRows(s[i], s[4 + i], s[8 + i], s[12 + i], sum);
  }

  // Memory rows 1, 2 and 3 rotated to the left, by one, two and three places.

  ghost function Row1Moved(s: Block): Block {
    s[4 := s[5]][5 := s[6]][6 := s[7]][7 := s[4]]
  }

  ghost function Row2Moved(s: Block): Block {
    s[8 := s[10]][10 := s[8]][9 := s[11]][11 := s[9]]
  }

  ghost function Row3Moved(s: Block): Block {
    s[12 := s[15]][15 := s[14]][14 := s[13]][13 := s[12]]
  }

  lemma Row1MovedBytes(s: Block)
    ensures Row1Moved(s) ==
      [s[0], s[1], s[2], s[3], s[5], s[6], s[7], s[4], s[8], s[9], s[10], s[11], s[12], s[13], s[14], s[15]]
  {
  }

  lemma Row2MovedBytes(s: Block)
    ensures Row2Moved(s) ==
      [s[0], s[1], s[2], s[3], s[4], s[5], s[6], s[7], s[10], s[11], s[8], s[9], s[12], s[13], s[14], s[15]]
  {
  }

  lemma Row3MovedBytes(s: Block)
    ensures Row3Moved(s) ==
      [s[0], s[1], s[2], s[3], s[4], s[5], s[6], s[7], s[8], s[9], s[10], s[11], s[15], s[12], s[13], s[14]]
  {
  }

  lemma RowsShifted(s: Block)
    ensures Transpose(Fips.ShiftRows(Transpose(s))) == Row3Moved(Row2Moved(Row1Moved(s)))
  {
    hide *;
    TransposeBytes(s);
    ShiftRowsBytes(Transpose(s));
    TransposeBytes(Fips.ShiftRows(Transpose(s)));
    Row1MovedBytes(s);
    Row2MovedBytes(Row1Moved(s));
    Row3MovedBytes(Row2Moved(Row1Moved(s)));
  }

  // Memory columns 1, 2 and 3 rotated downwards, by one, two and three places.

  ghost function Column1Moved(s: Block): Block {
    s[13 := s[9]][9 := s[5]][5 := s[1]][1 := s[13]]
  }

  ghost function Column2Moved(s: Block): Block {
    s[2 := s[10]][10 := s[2]][6 := s[14]][14 := s[6]]
  }

  ghost function Column3Moved(s: Block): Block {
    s[3 := s[7]][7 := s[11]][11 := s[15]][15 := s[3]]
  }

  lemma Column1MovedBytes(s: Block)
    ensures Column1Moved(s) ==
      [s[0], s[13], s[2], s[3], s[4], s[1], s[6], s[7], s[8], s[5], s[10], s[11], s[12], s[9], s[14], s[15]]
  {
  }

  lemma Column2MovedBytes(s: Block)
    ensures Column2Moved(s) ==
      [s[0], s[1], s[10], s[3], s[4], s[5], s[14], s[7], s[8], s[9], s[2], s[11], s[12], s[13], s[6], s[15]]
  {
  }

  lemma Column3MovedBytes(s: Block)
    ensures Column3Moved(s) ==
      [s[0], s[1], s[2], s[7], s[4], s[5], s[6], s[11], s[8], s[9], s[10], s[15], s[12], s[13], s[14], s[3]]
  {
  }

  lemma InvShiftRowsBytes(s: Block)
    ensures Fips.InvShiftRows(s) ==
      [s[0], s[13], s[10], s[7], s[4], s[1], s[14], s[11], s[8], s[5], s[2], s[15], s[12], s[9], s[6], s[3]]
  {
    BackSources();
    hide Fips.ShiftedBackFrom;
  }

  lemma BackSources()
    ensures forall i | 0 <= i < 16 ::
      Fips.ShiftedBackFrom(i) == [0, 13, 10, 7, 4, 1, 14, 11, 8, 5, 2, 15, 12, 9, 6, 3][i]
  {
  }

  lemma RowsShiftedBack(s: Block)
    ensures Fips.InvShiftRows(s) == Column3Moved(Column2Moved(Column1Moved(s)))
  {
    hide *;
    InvShiftRowsBytes(s);
    Column1MovedBytes(s);
    Column2MovedBytes(Column1Moved(s));
    Column3MovedBytes(Column2Moved(Column1Moved(s)));
  }

  lemma InvMixColumnsAt(b: Block, i: nat)
    requires i < 4
    ensures var t := Fips.InvMixColumns(b);
            && t[4 * i] == UnmixByte(b[4 * i], b[4 * i + 1], b[4 * i + 2], b[4 * i + 3])
            && t[4 * i + 1] == UnmixByte(b[4 * i + 1], b[4 * i + 2], b[4 * i + 3], b[4 * i])
            && t[4 * i + 2] == UnmixByte(b[4 * i + 2], b[4 * i + 3], b[4 * i], b[4 * i + 1])
            && t[4 * i + 3] == UnmixByte(b[4 * i + 3], b[4 * i], b[4 * i + 1], b[4 * i + 2])
  {
    hide UnmixByte, Fips.MapColumns, Fips.InColumn;
    ColumnAt(UnmixByte, b, i);
  }

  lemma RowLeft(s: Block, t: Block, i: nat)
    requires i < 4
    ensures forall k | 4 * i <= k < 16 :: ByRows(s, t, 4 * i)[k] == s[k]
  {
  }

  // ---- The key schedule as a run of bytes ----

  function ScheduleByte(key: Fips.Key, p: nat): bv8 {
    Fips.KeyWord(key, p / 4)[p % 4]
  }

  lemma ScheduleByteOfWord(key: Fips.Key, i: nat, j: nat)
    requires j < 4
    ensures ScheduleByte(key, 4 * i + j) == Fips.KeyWord(key, i)[j]
  {
    hide Fips.KeyWord;
    assert (4 * i + j) / 4 == i && (4 * i + j) % 4 == j;
  }

  lemma ScheduleByteOfRound(key: Fips.Key, round: nat, i: nat, j: nat)
    requires i < 4 && j < 4
    ensures ScheduleByte(key, 16 * round + 4 * i + j) == Fips.RoundKey(key, round)[4 * i + j]
  {
    hide Fips.KeyWord;
    ScheduleByteOfWord(key, 4 * round + i, j);
  }

  /** Entry i of scRcon; AES-128 reads entries 1 to 10 of the 255. */
  function Rcon(i: nat): bv8
    requires 1 <= i <= 10
  {
    [0x8d, 0x01, 0x02, 0x04, 0x08, 0x10, 0x20, 0x40, 0x80, 0x1b, 0x36][i]
  }

  lemma RconDoubles(i: nat)
    requires 1 < i <= 10
    ensures Rcon(i) == XTime(Rcon(i - 1))
  {
  }

  lemma {:induction false} RconIsRoundConstant(i: nat)
    requires 1 <= i <= 10
    ensures Rcon(i) == Fips.RoundConstant(i)
  {
    assert Rcon(1) == 1;
    hide Rcon, XTime, GfMul;
    if i > 1 {
      RconDoubles(i);
      XTimeIsProduct(Rcon(i - 1));
      RconIsRoundConstant(i - 1);
    }
  }

  lemma FirstByte(key: Fips.Key, i: nat, j: nat)
    requires i < 4 && j < 4
    ensures ScheduleByte(key, 4 * i + j) == key[4 * i + j]
  {
    ScheduleByteOfWord(key, i, j);
  }

  lemma LaterWord(key: Fips.Key, i: nat)
    requires 4 <= i < 44
    ensures Fips.KeyWord(key, i) == Fips.XorWord(Fips.KeyWord(key, i - 4),
      if i % 4 == 0 then Fips.XorWord(Fips.SubRotWord(Fips.KeyWord(key, i - 1)), [Rcon(i / 4), 0, 0, 0])
      else Fips.KeyWord(key, i - 1))
  {
    hide SBox, Fips.XorWord, Fips.SubRotWord, Fips.RoundConstant;
    if i % 4 == 0 {
      RconIsRoundConstant(i / 4);
    }
  }

  lemma SubRotWordBytes(w: Fips.Word)
    ensures Fips.SubRotWord(w) == [SBox(w[1]), SBox(w[2]), SBox(w[3]), SBox(w[0])]
  {
    hide SBox;
  }

  lemma XorFirstByte(a: bv8, b: bv8, c: bv8, d: bv8, constant: bv8)
    ensures [a ^ constant, b, c, d] == Fips.XorWord([a, b, c, d], [constant, 0, 0, 0])
  {
    hide Fips.XorWord, Add;
    var x: Fips.Word, y: Fips.Word := [a, b, c, d], [constant, 0, 0, 0];
    XorWordAdds(x, y, 0);
    XorWordAdds(x, y, 1);
    XorWordAdds(x, y, 2);
    XorWordAdds(x, y, 3);
    AddIsXor(a, constant);
    AddZero(b);
    AddZero(c);
    AddZero(d);
  }

  lemma XorWordAdds(a: Fips.Word, b: Fips.Word, j: nat)
    requires j < 4
    ensures Fips.XorWord(a, b)[j] == Add(a[j], b[j])
  {
    hide Fips.XorWord;
    XorWordAt(a, b, j);
  }

  lemma AddZero(x: bv8)
    ensures Add(x, 0) == x
  {
  }

  /** The word the loop body computes in place from the previous one. */
  lemma TurnedWord(w: Fips.Word, constant: bv8)
    ensures [SBox(w[1]) ^ constant, SBox(w[2]), SBox(w[3]), SBox(w[0])]
         == Fips.XorWord(Fips.SubRotWord(w), [constant, 0, 0, 0])
  {
    hide SBox, Fips.XorWord, Fips.SubRotWord;
    SubRotWordBytes(w);
    XorFirstByte(SBox(w[1]), SBox(w[2]), SBox(w[3]), SBox(w[0]), constant);
  }

  /** What one pass of the expansion loop computes from the sixteen bytes before. */
  lemma NextByte(key: Fips.Key, i: nat, last: seq<bv8>, temp: Fips.Word, j: nat)
    requires 4 <= i < 44 && |last| == 16 && j < 4
    requires forall k | 0 <= k < 16 :: last[k] == ScheduleByte(key, 4 * i - 16 + k)
    requires temp ==
      if i % 4 == 0 then Fips.XorWord(Fips.SubRotWord(last[12..]), [Rcon(i / 4), 0, 0, 0]) else last[12..]
    ensures ScheduleByte(key, 4 * i + j) == last[j] ^ temp[j]
  {
    hide Fips.KeyWord, ScheduleByte, SBox, Rcon, Fips.SubRotWord, Fips.XorWord;
    LaterWord(key, i);
    ScheduleByteOfWord(key, i, j);
    ScheduleByteOfWord(key, i - 4, j);
    PreviousWord(key, i, last);
    XorWordAt(Fips.KeyWord(key, i - 4), temp, j);
  }

  lemma XorWordAt(a: Fips.Word, b: Fips.Word, j: nat)
    requires j < 4
    ensures Fips.XorWord(a, b)[j] == a[j] ^ b[j]
  {
  }

  lemma PreviousWord(key: Fips.Key, i: nat, last: seq<bv8>)
    requires 4 <= i < 44 && |last| == 16
    requires forall k | 0 <= k < 16 :: last[k] == ScheduleByte(key, 4 * i - 16 + k)
    ensures Fips.KeyWord(key, i - 1) == last[12..]
  {
    hide Fips.KeyWord, ScheduleByte;
    forall j | 0 <= j < 4
      ensures Fips.KeyWord(key, i - 1)[j] == last[12..][j]
    {
      ScheduleByteOfWord(key, i - 1, j);
    }
  }

  /** Subtraction of 32-bit unsigned integers. */
  function Difference32(a: nat, b: nat): (d: nat)
    requires a < 0x1_0000_0000 && b < 0x100
    ensures d == if b <= a then a - b else 0x1_0000_0000 + a - b
  {
    (a - b) % 0x1_0000_0000
  }

  /** What decrypt leaves of a padded text: the message and a zero behind it, or, where the padding
      is refused, the text as it is and a length that is not below its length. */
  ghost predicate Stripped(text: seq<bv8>, left: seq<bv8>, ret: int, len: nat)
    requires 0 < |text| < 0x1_0000_0000
  {
    match Msg.Unpad(text)
    case Some(m) => ret == 0 && len == |m| && left == m + [0] + text[len + 1..]
    case None => ret == -1 && len == Difference32(|text|, text[|text| - 1] as int) && left == text
  }

  lemma MessageLeft(text: seq<bv8>, left: seq<bv8>, ret: int, len: nat)
    requires 0 < |text| < 0x1_0000_0000 && Stripped(text, left, ret, len)
    ensures ret == 0 <==> Msg.Unpad(text).Some?
    ensures if ret == 0 then len < |text| == |left| && left[..len] == Msg.Unpad(text).value else len >= |text|
  {
  }

  /** memcpy of one block. */
  method CopyBlock(input: array<bv8>, from: nat, output: array<bv8>, to: nat)
    requires input != output && from + 16 <= input.Length && to + 16 <= output.Length
    modifies output
    ensures output[to..to + 16] == input[from..from + 16]
    ensures output[..to] == old(output[..to]) && output[to + 16..] == old(output[to + 16..])
  {
    for k := 0 to 16
      invariant output[to..to + k] == input[from..from + k]
      invariant output[..to] == old(output[..to]) && output[to + 16..] == old(output[to + 16..])
    {
      output[to + k] := input[from + k];
    }
  }

  class AesEcbCipher {
    const mKey: Fips.Key
    const useCbc: bool
    const mRoundKey: array<bv8>
    // mState is a pointer into a buffer: element [r][c] is byte mBase + 4r + c of mState.
    var mState: array<bv8>
    var mBase: nat

    ghost predicate Valid()
      reads this
    {
      mRoundKey.Length == 240 && mState != mRoundKey && mBase + 16 <= mState.Length
    }

    ghost predicate Expanded()
      requires Valid()
      reads this, mRoundKey
    {
      forall p | 0 <= p < 176 :: mRoundKey[p] == ScheduleByte(mKey, p)
    }

    /** The sixteen state bytes in memory order. */
    ghost function State(): Block
      requires Valid()
      reads this, mState
    {
      mState[mBase..mBase + 16]
    }

    constructor (key: Fips.Key, useCbc: bool)
      ensures Valid() && mKey == key && this.useCbc == useCbc
      ensures fresh(mRoundKey) && fresh(mState)
    {
      mKey := key;
      this.useCbc := useCbc;
      mRoundKey := new bv8[240];
      mState := new bv8[16];
      mBase := 0;
    }

    /** Every byte of the buffer but the sixteen of the state. */
    ghost function Outside(): (seq<bv8>, seq<bv8>)
      requires Valid()
      reads this, mState
    {
      (mState[..mBase], mState[mBase + 16..])
    }

    function Get(r: nat, c: nat): (v: bv8)
      requires Valid() && r < 4 && c < 4
      reads this, mState
      ensures v == State()[4 * r + c]
    {
      mState[mBase + 4 * r + c]
    }

    method Set(r: nat, c: nat, v: bv8)
      requires Valid() && r < 4 && c < 4
      modifies mState
      ensures State() == old(State())[4 * r + c := v]
      ensures Outside() == old(Outside())
    {
      mState[mBase + 4 * r + c] := v;
    }

    /** The next byte of t, where t is put in place of s along the rows. */
    method SetNextInRow(ghost s: Block, ghost t: Block, i: nat, j: nat, v: bv8)
      requires Valid() && i < 4 && j < 4 && State() == ByRows(s, t, 4 * i + j) && v == t[4 * i + j]
      modifies mState
      ensures State() == ByRows(s, t, 4 * i + j + 1) && Outside() == old(Outside())
    {
      hide *;
      ByRowsSteps(s, t, 4 * i + j);
      Set(i, j, v);
    }

    /** A byte of column i that is still to be replaced. */
    method GetInColumn(ghost s: Block, ghost t: Block, i: nat, ghost j: nat, k: nat) returns (v: bv8)
      requires Valid() && i < 4 && j <= k < 4 && State() == ByColumns(s, t, 4 * i + j)
      ensures v == s[4 * k + i]
    {
      hide *;
      ColumnLeft(s, t, i, j, k);
      v := Get(k, i);
    }

    /** The next byte of t, where t is put in place of s down the columns. */
    method SetNextInColumn(ghost s: Block, ghost t: Block, i: nat, j: nat, v: bv8)
      requires Valid() && i < 4 && j < 4 && State() == ByColumns(s, t, 4 * i + j) && v == t[4 * j + i]
      modifies mState
      ensures State() == ByColumns(s, t, 4 * i + j + 1) && Outside() == old(Outside())
    {
      hide *;
      ByColumnsStep(s, t, i, j);
      Set(j, i, v);
    }

    // ---- Encryption: the block is Transpose(State()) ----

    method AddRoundKey(round: nat)
      requires Valid() && Expanded() && round <= Fips.ROUNDS
      modifies mState
      ensures Transpose(State()) == Fips.AddRoundKey(Transpose(old(State())), Fips.RoundKey(mKey, round))
      ensures Outside() == old(Outside())
    {
      ghost var s := State();
      ghost var t := Transpose(Fips.AddRoundKey(Transpose(s), Fips.RoundKey(mKey, round)));
      ByColumnsEnds(s, t);
      for i := 0 to 4
        invariant State() == ByColumns(s, t, 4 * i) && Outside() == old(Outside())
      {
        for j := 0 to 4
          invariant State() == ByColumns(s, t, 4 * i + j) && Outside() == old(Outside())
        {
          ScheduleByteOfRound(mKey, round, i, j);
          KeyAddedAt(s, Fips.RoundKey(mKey, round), i, j);
          ColumnLeft(s, t, i, j, j);
          SetNextInColumn(s, t, i, j, Get(j, i) ^ mRoundKey[16 * round + 4 * i + j]);
        }
      }
      TransposeTwice(Fips.AddRoundKey(Transpose(s), Fips.RoundKey(mKey, round)));
    }

    method SubBytes()
      requires Valid()
      modifies mState
      ensures Transpose(State()) == Fips.SubBytes(Transpose(old(State())))
      ensures Outside() == old(Outside())
    {
      ghost var s := State();
      ghost var t := Transpose(Fips.SubBytes(Transpose(s)));
      ByRowsSteps(s, t, 16);
      for i := 0 to 4
        invariant State() == ByRows(s, t, 4 * i) && Outside() == old(Outside())
      {
        for j := 0 to 4
          invariant State() == ByRows(s, t, 4 * i + j) && Outside() == old(Outside())
        {
          ByRowsSteps(s, t, 4 * i + j);
          MappedAt(SBox, s, 4 * i + j);
          SetNextInRow(s, t, i, j, SBox(Get(i, j)));
        }
      }
      TransposeTwice(Fips.SubBytes(Transpose(s)));
    }

    method ShiftRows()
      requires Valid()
      modifies mState
      ensures Transpose(State()) == Fips.ShiftRows(Transpose(old(State())))
      ensures Outside() == old(Outside())
    {
      hide *;
      ghost var s := State();
      RowsShifted(s);
      MoveRow1();
      MoveRow2();
      MoveRow3();
      TransposeTwice(Fips.ShiftRows(Transpose(s)));
    }

    /** Row 1 moves one column to the left. */
    method MoveRow1()
      requires Valid()
      modifies mState
      ensures State() == Row1Moved(old(State())) && Outside() == old(Outside())
    {
      hide Outside;
      var temp := Get(1, 0);
      Set(1, 0, Get(1, 1));
      Set(1, 1, Get(1, 2));
      Set(1, 2, Get(1, 3));
      Set(1, 3, temp);
    }

    /** Row 2 moves two columns to the left. */
    method MoveRow2()
      requires Valid()
      modifies mState
      ensures State() == Row2Moved(old(State())) && Outside() == old(Outside())
    {
      hide Outside;
      var temp := Get(2, 0);
      Set(2, 0, Get(2, 2));
      Set(2, 2, temp);
      temp := Get(2, 1);
      Set(2, 1, Get(2, 3));
      Set(2, 3, temp);
    }

    /** Row 3 moves three columns to the left. */
    method MoveRow3()
      requires Valid()
      modifies mState
      ensures State() == Row3Moved(old(State())) && Outside() == old(Outside())
    {
      hide Outside;
      var temp := Get(3, 0);
      Set(3, 0, Get(3, 3));
      Set(3, 3, Get(3, 2));
      Set(3, 2, Get(3, 1));
      Set(3, 1, temp);
    }

    method MixColumns()
      requires Valid()
      modifies mState
      ensures Transpose(State()) == Fips.MixColumns(Transpose(old(State())))
      ensures Outside() == old(Outside())
    {
      hide *;
      ghost var s := State();
      ghost var t := Transpose(Fips.MixColumns(Transpose(s)));
      ByColumnsEnds(s, t);
      for i := 0 to 4
        invariant State() == ByColumns(s, t, 4 * i) && Outside() == old(Outside())
      {
        MixColumn(s, t, i);
      }
      TransposeTwice(Fips.MixColumns(Transpose(s)));
    }

    /** Column i. The four bytes are read again after each is written, but for the first. */
    method MixColumn(ghost s: Block, ghost t: Block, i: nat)
      requires Valid() && i < 4 && State() == ByColumns(s, t, 4 * i) && t == Transpose(Fips.MixColumns(Transpose(s)))
      modifies mState
      ensures State() == ByColumns(s, t, 4 * i + 4) && Outside() == old(Outside())
    {
      hide *;
      var first := GetInColumn(s, t, i, 0, 0);
      var b := GetInColumn(s, t, i, 0, 1);
      var c := GetInColumn(s, t, i, 0, 2);
      var d := GetInColumn(s, t, i, 0, 3);
      var sum := first ^ b ^ c ^ d;
      MixedColumnAt(s, i, sum);
      SetNextInColumn(s, t, i, 0, MixStep(first, b, sum));
      b := GetInColumn(s, t, i, 1, 1);
      c := GetInColumn(s, t, i, 1, 2);
      SetNextInColumn(s, t, i, 1, MixStep(b, c, sum));
      c := GetInColumn(s, t, i, 2, 2);
      d := GetInColumn(s, t, i, 2, 3);
      SetNextInColumn(s, t, i, 2, MixStep(c, d, sum));
      d := GetInColumn(s, t, i, 3, 3);
      SetNextInColumn(s, t, i, 3, MixStep(d, first, sum));
    }

    /** RotWord, SubWord and the round constant, for every fourth word only. */
    method NextTemp(i: nat) returns (temp: Fips.Word)
      requires Valid() && 4 <= i < 44
      ensures temp ==
        if i % 4 == 0 then Fips.XorWord(Fips.SubRotWord(mRoundKey[4 * i - 4..4 * i]), [Rcon(i / 4), 0, 0, 0])
        else mRoundKey[4 * i - 4..4 * i]
    {
      hide SBox, Rcon, Fips.XorWord, Fips.SubRotWord;
      temp := mRoundKey[4 * i - 4..4 * i];
      if i % 4 == 0 {
        ghost var w := temp;
        temp := [temp[1], temp[2], temp[3], temp[0]];
        temp := [SBox(temp[0]), SBox(temp[1]), SBox(temp[2]), SBox(temp[3])];
        assert temp == [SBox(w[1]), SBox(w[2]), SBox(w[3]), SBox(w[0])];
        var constant := Rcon(i / 4);
        TurnedWord(w, constant);
        temp := [temp[0] ^ constant, temp[1], temp[2], temp[3]];
      }
    }

    /** The first n bytes of the schedule are in place. */
    ghost predicate ExpandedTo(n: nat)
      requires Valid() && n <= 176
      reads this, mRoundKey
    {
      forall p | 0 <= p < n :: mRoundKey[p] == ScheduleByte(mKey, p)
    }

    method ExpandWord(i: nat)
      requires Valid() && 4 <= i < 44 && ExpandedTo(4 * i)
      modifies mRoundKey
      ensures ExpandedTo(4 * i + 4)
    {
      hide SBox, Rcon, ScheduleByte, Fips.KeyWord, Fips.XorWord, Fips.SubRotWord;
      var temp := NextTemp(i);
      ghost var last := mRoundKey[4 * i - 16..4 * i];
      assert last[12..] == mRoundKey[4 * i - 4..4 * i];
      NextByte(mKey, i, last, temp, 0);
      NextByte(mKey, i, last, temp, 1);
      NextByte(mKey, i, last, temp, 2);
      NextByte(mKey, i, last, temp, 3);
      hide ExpandedTo;
      XorInto(4 * i, temp[0]);
      XorInto(4 * i + 1, temp[1]);
      XorInto(4 * i + 2, temp[2]);
      XorInto(4 * i + 3, temp[3]);
    }

    /** One byte of the next word, from the byte four words before. */
    method XorInto(p: nat, x: bv8)
      requires Valid() && 16 <= p < 176 && ExpandedTo(p)
      requires ScheduleByte(mKey, p) == ScheduleByte(mKey, p - 16) ^ x
      modifies mRoundKey
      ensures ExpandedTo(p + 1)
    {
      hide ScheduleByte;
      mRoundKey[p] := mRoundKey[p - 16] ^ x;
    }

    method KeyExpansion()
      requires Valid()
      modifies mRoundKey
      ensures Expanded()
    {
      hide ScheduleByte;
      for p := 0 to mRoundKey.Length {
        mRoundKey[p] := 0;
      }

      assert ExpandedTo(0);
      hide ExpandedTo;
      // Words 0 to 3 are copied from the key.
      for i := 0 to 4
        invariant ExpandedTo(4 * i)
      {
        CopyKey(i, 0);
        CopyKey(i, 1);
        CopyKey(i, 2);
        CopyKey(i, 3);
      }

      // Words 4 to 43 build on the four words before each.
      for i := 4 to 44
        invariant ExpandedTo(4 * i)
      {
        ExpandWord(i);
      }
      AllExpanded();
    }

    method CopyKey(i: nat, j: nat)
      requires Valid() && i < 4 && j < 4 && ExpandedTo(4 * i + j)
      modifies mRoundKey
      ensures ExpandedTo(4 * i + j + 1)
    {
      hide ScheduleByte;
      FirstByte(mKey, i, j);
      mRoundKey[4 * i + j] := mKey[4 * i + j];
    }

    lemma AllExpanded()
      requires Valid() && ExpandedTo(176)
      ensures Expanded()
    {
      hide ScheduleByte;
    }

    method Cipher()
      requires Valid() && Expanded()
      modifies mState
      ensures Transpose(State()) == Fips.Encrypt(mKey, Transpose(old(State())))
      ensures Outside() == old(Outside())
    {
      hide Transpose, Fips.AddRoundKey, Fips.SubBytes, Fips.ShiftRows, Fips.MixColumns, Fips.RoundKey, ScheduleByte;
      ghost var b := Transpose(State());
      AddRoundKey(0);
      for round := 1 to Fips.ROUNDS
        invariant Transpose(State()) == Fips.AfterRound(mKey, b, round - 1)
        invariant Outside() == old(Outside())
      {
        SubBytes();
        ShiftRows();
        MixColumns();
        AddRoundKey(round);
      }
      // The last round mixes no columns.
      SubBytes();
      ShiftRows();
      AddRoundKey(Fips.ROUNDS);
    }

    method EncryptBlock(input: array<bv8>, from: nat, output: array<bv8>, to: nat)
      requires Valid() && from + 16 <= input.Length && to + 16 <= output.Length
      requires input != output && mRoundKey != input && mRoundKey != output
      modifies this`mState, this`mBase, mRoundKey, output
      ensures Valid()
      ensures output[to..to + 16] == Fips.Encrypt(mKey, input[from..from + 16])
      ensures output[..to] == old(output[..to]) && output[to + 16..] == old(output[to + 16..])
    {
      hide Transpose;
      ghost var b: Block := input[from..from + 16];
      CopyBlock(input, from, output, to);
      mState := new bv8[16];
      mBase := 0;
      ReadTransposed(input, from);
      TransposeTwice(b);
      KeyExpansion();
      Cipher();
      WriteTransposed(output, to);
    }

    /** Byte 4i + j of the input becomes state element [j][i]. */
    method ReadTransposed(input: array<bv8>, from: nat)
      requires Valid() && from + 16 <= input.Length && mState != input
      modifies mState
      ensures State() == Transpose(input[from..from + 16])
    {
      ghost var s, t := State(), Transpose(input[from..from + 16]);
      ByColumnsEnds(s, t);
      for i := 0 to 4
        invariant State() == ByColumns(s, t, 4 * i)
      {
        for j := 0 to 4
          invariant State() == ByColumns(s, t, 4 * i + j)
        {
          TransposeAt(input[from..from + 16], j, i);
          SetNextInColumn(s, t, i, j, input[from + 4 * i + j]);
        }
      }
    }

    /** State element [j][i] becomes byte 4i + j of the output. */
    method WriteTransposed(output: array<bv8>, to: nat)
      requires Valid() && to + 16 <= output.Length && mState != output
      modifies output
      ensures output[to..to + 16] == Transpose(State())
      ensures output[..to] == old(output[..to]) && output[to + 16..] == old(output[to + 16..])
    {
      hide Transpose;
      ghost var t := Transpose(State());
      for i := 0 to 4
        invariant output[to..to + 4 * i] == t[..4 * i]
        invariant output[..to] == old(output[..to]) && output[to + 16..] == old(output[to + 16..])
      {
        for j := 0 to 4
          invariant output[to..to + 4 * i + j] == t[..4 * i + j]
          invariant output[..to] == old(output[..to]) && output[to + 16..] == old(output[to + 16..])
        {
          TransposeAt(State(), i, j);
          output[to + 4 * i + j] := Get(j, i);
        }
      }
    }

    // ---- Decryption: the block is State() itself ----

    method InvAddRoundKey(round: nat)
      requires Valid() && Expanded() && round <= Fips.ROUNDS
      modifies mState
      ensures State() == Fips.AddRoundKey(old(State()), Fips.RoundKey(mKey, round))
      ensures Outside() == old(Outside())
    {
      ghost var s := State();
      ghost var t := Fips.AddRoundKey(s, Fips.RoundKey(mKey, round));
      ByRowsSteps(s, t, 16);
      for i := 0 to 4
        invariant State() == ByRows(s, t, 4 * i) && Outside() == old(Outside())
      {
        for j := 0 to 4
          invariant State() == ByRows(s, t, 4 * i + j) && Outside() == old(Outside())
        {
          ByRowsSteps(s, t, 4 * i + j);
          ScheduleByteOfRound(mKey, round, i, j);
          AddedAt(s, Fips.RoundKey(mKey, round), 4 * i + j);
          SetNextInRow(s, t, i, j, Get(i, j) ^ mRoundKey[16 * round + 4 * i + j]);
        }
      }
    }

    method InvSubBytes()
      requires Valid()
      modifies mState
      ensures State() == Fips.InvSubBytes(old(State()))
      ensures Outside() == old(Outside())
    {
      hide InvSBox;
      ghost var s := State();
      ghost var t := Fips.InvSubBytes(s);
      ByColumnsEnds(s, t);
      for i := 0 to 4
        invariant State() == ByColumns(s, t, 4 * i) && Outside() == old(Outside())
      {
        for j := 0 to 4
          invariant State() == ByColumns(s, t, 4 * i + j) && Outside() == old(Outside())
        {
          ColumnLeft(s, t, i, j, j);
          SetNextInColumn(s, t, i, j, InvSBox(Get(j, i)));
        }
      }
    }

    method InvShiftRows()
      requires Valid()
      modifies mState
      ensures State() == Fips.InvShiftRows(old(State()))
      ensures Outside() == old(Outside())
    {
      hide *;
      RowsShiftedBack(State());
      MoveColumn1();
      MoveColumn2();
      MoveColumn3();
    }

    /** Row 1, which is memory column 1, moves one place down. */
    method MoveColumn1()
      requires Valid()
      modifies mState
      ensures State() == Column1Moved(old(State())) && Outside() == old(Outside())
    {
      hide Outside;
      var temp := Get(3, 1);
      Set(3, 1, Get(2, 1));
      Set(2, 1, Get(1, 1));
      Set(1, 1, Get(0, 1));
      Set(0, 1, temp);
    }

    /** Row 2 moves two places. */
    method MoveColumn2()
      requires Valid()
      modifies mState
      ensures State() == Column2Moved(old(State())) && Outside() == old(Outside())
    {
      hide Outside;
      var temp := Get(0, 2);
      Set(0, 2, Get(2, 2));
      Set(2, 2, temp);
      temp := Get(1, 2);
      Set(1, 2, Get(3, 2));
      Set(3, 2, temp);
    }

    /** Row 3 moves three places. */
    method MoveColumn3()
      requires Valid()
      modifies mState
      ensures State() == Column3Moved(old(State())) && Outside() == old(Outside())
    {
      hide Outside;
      var temp := Get(0, 3);
      Set(0, 3, Get(1, 3));
      Set(1, 3, Get(2, 3));
      Set(2, 3, Get(3, 3));
      Set(3, 3, temp);
    }

    method InvMixColumns()
      requires Valid()
      modifies mState
      ensures State() == Fips.InvMixColumns(old(State()))
      ensures Outside() == old(Outside())
    {
      hide *;
      ghost var s := State();
      ghost var t := Fips.InvMixColumns(s);
      ByRowsSteps(s, t, 16);
      for i := 0 to 4
        invariant State() == ByRows(s, t, 4 * i) && Outside() == old(Outside())
      {
        InvMixColumnsAt(s, i);
        RowLeft(s, t, i);
        var a, b, c, d := Get(i, 0), Get(i, 1), Get(i, 2), Get(i, 3);
        UnmixStepIsRow(a, b, c, d);
        UnmixStepIsRow(b, c, d, a);
        UnmixStepIsRow(c, d, a, b);
        UnmixStepIsRow(d, a, b, c);
        SetNextInRow(s, t, i, 0, UnmixStep(a, b, c, d));
        SetNextInRow(s, t, i, 1, UnmixStep(b, c, d, a));
        SetNextInRow(s, t, i, 2, UnmixStep(c, d, a, b));
        SetNextInRow(s, t, i, 3, UnmixStep(d, a, b, c));
      }
    }

    method InvCipher()
      requires Valid() && Expanded()
      modifies mState
      ensures State() == Fips.Decrypt(mKey, old(State()))
      ensures Outside() == old(Outside())
    {
      hide Fips.AddRoundKey, Fips.InvSubBytes, Fips.InvShiftRows, Fips.InvMixColumns, Fips.RoundKey, ScheduleByte;
      ghost var c := State();
      InvAddRoundKey(Fips.ROUNDS);
      for round := Fips.ROUNDS - 1 downto 0
        invariant State() == Fips.BeforeRound(mKey, c, round)
        invariant Outside() == old(Outside())
      {
        InvShiftRows();
        InvSubBytes();
        InvAddRoundKey(round + 1);
        InvMixColumns();
      }
      InvShiftRows();
      InvSubBytes();
      InvAddRoundKey(0);
    }

    method DecryptBlock(input: array<bv8>, from: nat, output: array<bv8>, to: nat)
      requires Valid() && from + 16 <= input.Length && to + 16 <= output.Length
      requires input != output && mRoundKey != input && mRoundKey != output
      modifies this`mState, this`mBase, mRoundKey, output
      ensures Valid()
      ensures output[to..to + 16] == Fips.Decrypt(mKey, input[from..from + 16])
      ensures output[..to] == old(output[..to]) && output[to + 16..] == old(output[to + 16..])
    {
      hide ScheduleByte, Fips.Decrypt;
      CopyBlock(input, from, output, to);
      // The state is the output itself.
      mState := output;
      mBase := to;
      KeyExpansion();
      assert State() == input[from..from + 16];
      InvCipher();
    }

    // ---- Messages ----

    /** encode_buf: the message and its padding. */
    method PaddedCopy(src: array<bv8>, srcLen: nat) returns (buf: array<bv8>, len: nat)
      requires srcLen <= src.Length && srcLen <= 1023
      ensures fresh(buf) && len <= buf.Length && buf[..len] == Msg.Pad(src[..srcLen])
    {
      buf := new bv8[1024](_ => 0);
      for k := 0 to srcLen
        invariant buf[..k] == src[..k]
      {
        buf[k] := src[k];
      }
      var padding := 16 - srcLen % 16;
      for k := 0 to padding
        invariant buf[..srcLen] == src[..srcLen]
        invariant forall p | srcLen <= p < srcLen + k :: buf[p] == padding as bv8
      {
        buf[srcLen + k] := padding as bv8;
      }
      len := srcLen + padding;
    }

    /** The block at `to` is xored with sixteen bytes of `other`, or with the key. */
    method ChainBlock(other: array<bv8>, first: bool, from: nat, dest: array<bv8>, to: nat)
      requires other != dest && to + 16 <= dest.Length && (!first ==> from + 16 <= other.Length)
      modifies dest
      ensures dest[to..to + 16] ==
        Fips.AddRoundKey(old(dest[to..to + 16]), if first then mKey else other[from..from + 16])
      ensures dest[..to] == old(dest[..to]) && dest[to + 16..] == old(dest[to + 16..])
    {
      ghost var s: Block := dest[to..to + 16];
      ghost var t := Fips.AddRoundKey(s, if first then mKey else other[from..from + 16]);
      for j := 0 to 16
        invariant forall k | to <= k < to + 16 :: dest[k] == if k < to + j then t[k - to] else s[k - to]
        invariant dest[..to] == old(dest[..to]) && dest[to + 16..] == old(dest[to + 16..])
      {
        var v := dest[to + j] ^ (if first then mKey[j] else other[from + j]);
        assert v == t[j];
        dest[to + j] := v;
      }
    }

    method EncryptBuffer(buf: array<bv8>, len: nat, dest: array<bv8>)
      requires Valid() && buf != dest && mRoundKey != buf && mRoundKey != dest
      requires len % 16 == 0 && len <= buf.Length && len <= dest.Length
      modifies this`mState, this`mBase, mRoundKey, dest
      ensures Valid()
      ensures dest[..len] == Msg.Encrypted(mKey, useCbc, buf[..len], len / 16)
      ensures dest[len..] == old(dest[len..])
    {
      hide Msg.EncryptedBlock;
      ghost var p := buf[..len];
      for i := 0 to len / 16
        invariant Valid() && buf[..len] == p
        invariant dest[..16 * i] == Msg.Encrypted(mKey, useCbc, p, i)
        invariant dest[16 * i..] == old(dest[16 * i..])
      {
        ghost var done := dest[..16 * i];
        EncryptNext(buf, len, dest, i);
        assert dest[..16 * i + 16] == done + dest[16 * i..16 * i + 16];
      }
    }

    lemma BlockInBuffer(buf: array<bv8>, len: nat, i: nat)
      requires 16 * i + 16 <= len <= buf.Length
      ensures buf[16 * i..16 * i + 16] == Msg.BlockAt(buf[..len], i)
    {
    }

    /** The loop body: block i, chained if so asked. */
    method EncryptNext(buf: array<bv8>, len: nat, dest: array<bv8>, i: nat)
      requires Valid() && buf != dest && mRoundKey != buf && mRoundKey != dest
      requires 16 * i + 16 <= len <= buf.Length && len <= dest.Length
      modifies this`mState, this`mBase, mRoundKey, dest
      ensures Valid()
      ensures dest[16 * i..16 * i + 16] == Msg.EncryptedBlock(mKey, useCbc, buf[..len], i)
      ensures dest[..16 * i] == old(dest[..16 * i]) && dest[16 * i + 16..] == old(dest[16 * i + 16..])
    {
      hide Fips.Encrypt, Fips.AddRoundKey;
      ghost var p := buf[..len];
      EncryptBlock(buf, 16 * i, dest, 16 * i);
      BlockInBuffer(buf, len, i);
      if useCbc {
        if i > 0 {
          BlockInBuffer(buf, len, i - 1);
        }
        ChainBlock(buf, i == 0, if i == 0 then 0 else 16 * i - 16, dest, 16 * i);
      }
    }

    /** encrypt. `capacity` is the length argument on entry, `len` its value on return. */
    method Encrypt(src: array?<bv8>, srcLen: nat, dest: array<bv8>, capacity: nat) returns (ret: int, len: nat)
      requires Valid() && mRoundKey != dest
      // encode_buf holds 1024 bytes, and dest receives the padded message and one byte more.
      requires src != null && srcLen <= capacity ==>
        srcLen <= src.Length && srcLen <= 1023 && 16 * (srcLen / 16) + 16 < dest.Length
      requires src != null ==> src != mRoundKey && src != dest
      modifies this`mState, this`mBase, mRoundKey, dest
      ensures Valid()
      ensures ret == if src == null || capacity < srcLen then -1 else 0
      ensures ret == -1 ==> len == capacity && dest[..] == old(dest[..])
      ensures ret == 0 ==> dest.Length > len && dest[..len] == Msg.EncryptMessage(mKey, useCbc, src[..srcLen])
      ensures ret == 0 ==> dest[len] == 0 && dest[len + 1..] == old(dest[len + 1..])
    {
      hide Msg.Encrypted, Msg.Pad;
      if src == null {
        return -1, capacity;
      }
      if capacity < srcLen {
        return -1, capacity;
      }
      var buf;
      buf, len := PaddedCopy(src, srcLen);
      EncryptBuffer(buf, len, dest);
      dest[len] := 0;
      ret := 0;
    }

    /** decrypt. The length on return is computed modulo 2^32, as the code does. */
    method Decrypt(src: array?<bv8>, srcLen: nat, dest: array<bv8>, capacity: nat) returns (ret: int, len: nat)
      requires Valid() && mRoundKey != dest && srcLen < 0x1_0000_0000
      requires src != null ==> src != mRoundKey && src != dest && srcLen <= src.Length
      requires srcLen <= capacity ==> srcLen <= dest.Length
      modifies this`mState, this`mBase, mRoundKey, dest
      ensures Valid()
      ensures src == null || srcLen == 0 || capacity < srcLen || srcLen % 16 != 0 ==>
        ret == -1 && len == capacity && dest[..] == old(dest[..])
      ensures !(src == null || srcLen == 0 || capacity < srcLen || srcLen % 16 != 0) ==>
        && Stripped(Msg.AllDecrypted(mKey, useCbc, src[..srcLen]), dest[..srcLen], ret, len)
        && dest[srcLen..] == old(dest[srcLen..])
    {
      hide Valid, Msg.Decrypted, Msg.Unpad;
      if src == null {
        return -1, capacity;
      }
      if srcLen == 0 {
        return -1, capacity;
      }
      if capacity < srcLen {
        return -1, capacity;
      }
      if srcLen % 16 != 0 {
        return -1, capacity;
      }
      DecryptBuffer(src, srcLen, dest);
      ret, len := StripPadding(dest, srcLen);
    }

    /** The last byte says how many bytes to drop; the length is then checked, not the bytes. */
    method StripPadding(dest: array<bv8>, srcLen: nat) returns (ret: int, len: nat)
      requires 0 < srcLen <= dest.Length && srcLen < 0x1_0000_0000
      modifies dest
      ensures Stripped(old(dest[..srcLen]), dest[..srcLen], ret, len) && dest[srcLen..] == old(dest[srcLen..])
    {
      ghost var text := dest[..srcLen];
      var last := dest[srcLen - 1] as int;
      len := Difference32(srcLen, last);
      if len >= srcLen {
        return -1, len;
      }
      dest[len] := 0;
      ret := 0;
      assert dest[..srcLen] == text[..len] + [0] + text[len + 1..];
    }

    method DecryptBuffer(src: array<bv8>, len: nat, dest: array<bv8>)
      requires Valid() && src != dest && mRoundKey != src && mRoundKey != dest
      requires len % 16 == 0 && len <= src.Length && len <= dest.Length
      modifies this`mState, this`mBase, mRoundKey, dest
      ensures Valid()
      ensures dest[..len] == Msg.Decrypted(mKey, useCbc, src[..len], len / 16)
      ensures dest[len..] == old(dest[len..])
    {
      hide Msg.DecryptedBlock;
      ghost var c := src[..len];
      for i := 0 to len / 16
        invariant Valid() && src[..len] == c
        invariant dest[..16 * i] == Msg.Decrypted(mKey, useCbc, c, i)
        invariant dest[16 * i..] == old(dest[16 * i..])
      {
        ghost var done := dest[..16 * i];
        DecryptNext(src, len, dest, i);
        assert dest[..16 * i + 16] == done + dest[16 * i..16 * i + 16];
      }
    }

    /** The loop body: block i, chained if so asked. */
    method DecryptNext(src: array<bv8>, len: nat, dest: array<bv8>, i: nat)
      requires Valid() && src != dest && mRoundKey != src && mRoundKey != dest
      requires 16 * i + 16 <= len <= src.Length && len <= dest.Length
      modifies this`mState, this`mBase, mRoundKey, dest
      ensures Valid()
      ensures dest[16 * i..16 * i + 16] == Msg.DecryptedBlock(mKey, useCbc, src[..len], i)
      ensures dest[..16 * i] == old(dest[..16 * i]) && dest[16 * i + 16..] == old(dest[16 * i + 16..])
    {
      hide Fips.Decrypt, Fips.AddRoundKey;
      ghost var c := src[..len];
      DecryptBlock(src, 16 * i, dest, 16 * i);
      BlockInBuffer(src, len, i);
      if useCbc {
        if i > 0 {
          BlockInBuffer(src, len, i - 1);
        }
        ChainBlock(src, i == 0, if i == 0 then 0 else 16 * i - 16, dest, 16 * i);
      }
    }
  }

  /** encrypt only asks that the capacity be no less than the message. It writes the padded text
      and a zero, and a capacity it accepts has room for them exactly when it exceeds this. */
  lemma RoomExactly(key: Fips.Key, cbc: bool, m: seq<bv8>, capacity: nat)
    requires |m| <= capacity
    ensures |Msg.EncryptMessage(key, cbc, m)| + 1 <= capacity <==> 16 * (|m| / 16) + 16 < capacity
    ensures |m| == 16 ==> |Msg.EncryptMessage(key, cbc, m)| + 1 == 33
  {
    hide *;
    Msg.PadEnds(m);
    Msg.EncryptedLength(key, cbc, m);
  }

  /** One cipher object without chaining encrypts a message and decrypts the result: the message
      comes back with its exact length. */
  method ThereAndBack(key: Fips.Key, src: array<bv8>, srcLen: nat) returns (back: array<bv8>, len: nat)
    requires srcLen <= src.Length && srcLen <= 1023
    ensures len == srcLen < back.Length && back[..len] == src[..srcLen]
  {
    hide Msg.AllDecrypted, Msg.EncryptMessage, Msg.Unpad, Stripped, Msg.Pad;
    ghost var m := src[..srcLen];
    Msg.EncryptedLength(key, false, m);
    Msg.MessageRoundTrip(key, m);
    var cipher := new AesEcbCipher(key, false);
    var text := new bv8[1040];
    var ret, textLen := cipher.Encrypt(src, srcLen, text, 1040);
    assert text[..textLen] == Msg.EncryptMessage(key, false, m);
    back := new bv8[1040];
    ret, len := cipher.Decrypt(text, textLen, back, 1040);
    MessageLeft(Msg.AllDecrypted(key, false, text[..textLen]), back[..textLen], ret, len);
    assert back[..textLen][..len] == back[..len];
  }
}
