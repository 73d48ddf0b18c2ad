/** AES-128 on one 16-byte block, as FIPS 197 describes it: byte 4c + r of a block is the
    state byte in row r and column c. */
module Fips197 {
  import opened GF256
  import opened AesTables
  import opened FiniteSets

  type Block = s: seq<bv8> | |s| == 16 witness seq(16, _ => 0)

  function AddRoundKey(b: Block, k: Block): Block {
    seq(16, i requires 0 <= i < 16 => b[i] ^ k[i])
  }

  function MapBytes(f: bv8 -> bv8, b: Block): Block {
    seq(16, i requires 0 <= i < 16 => f(b[i]))
  }

  function SubBytes(b: Block): Block {
    MapBytes(SBox, b)
  }

  function InvSubBytes(b: Block): Block {
    MapBytes(InvSBox, b)
  }

  /** Row r of the state moves r columns to the left; byte i is row i % 4 of column i / 4. */
  function ShiftedFrom(i: nat): (k: nat)
    requires i < 16
    ensures k < 16
  {
    4 * ((i / 4 + i % 4) % 4) + i % 4
  }

  function ShiftedBackFrom(i: nat): (k: nat)
    requires i < 16
    ensures k < 16
  {
    4 * ((i / 4 + 4 - i % 4) % 4) + i % 4
  }

  /** Row r moves r columns to the left. */
  function ShiftRows(b: Block): Block {
    seq(16, i requires 0 <= i < 16 => b[ShiftedFrom(i)])
  }

  /** Row r moves r columns to the right. */
  function InvShiftRows(b: Block): Block {
    seq(16, i requires 0 <= i < 16 => b[ShiftedBackFrom(i)])
  }

  /** The byte k places below byte i in the same column, round the end. */
  function Below(i: nat, k: nat): (p: nat)
    requires i < 16
    ensures p < 16
  {
    4 * (i / 4) + (i % 4 + k) % 4
  }

  /** Byte r + k, cyclically, of the column that byte i belongs to. */
  function InColumn(b: Block, i: nat, k: nat): bv8
    requires i < 16
  {
    b[Below(i, k)]
  }

  /** Every byte replaced by a function of its column, the byte itself first. */
  function MapColumns(f: (bv8, bv8, bv8, bv8) -> bv8, b: Block): Block {
    seq(16, i requires 0 <= i < 16 =>
      f(InColumn(b, i, 0), InColumn(b, i, 1), InColumn(b, i, 2), InColumn(b, i, 3)))
  }

  function MixColumns(b: Block): Block {
    MapColumns(MixByte, b)
  }

  function InvMixColumns(b: Block): Block {
    MapColumns(UnmixByte, b)
  }

  // ---- Each step undone ----

  lemma AddRoundKeyTwice(b: Block, k: Block)
    ensures AddRoundKey(AddRoundKey(b, k), k) == b
  {
  }

  lemma MapBytesUndone(f: bv8 -> bv8, g: bv8 -> bv8, b: Block)
    requires forall x :: g(f(x)) == x
    ensures MapBytes(g, MapBytes(f, b)) == b
  {
    forall i | 0 <= i < 16
      ensures MapBytes(g, MapBytes(f, b))[i] == b[i]
    {
      assert MapBytes(f, b)[i] == f(b[i]);
    }
  }

  lemma SubBytesUndone(b: Block)
    ensures InvSubBytes(SubBytes(b)) == b
  {
    forall x
      ensures InvSBox(SBox(x)) == x
    {
      InvSBoxInverts(x);
    }
    MapBytesUndone(SBox, InvSBox, b);
  }

  lemma ShiftedThereAndBack(i: nat)
    requires i < 16
    ensures ShiftedFrom(ShiftedBackFrom(i)) == i
  {
    var row, column := i % 4, i / 4;
    var back := (column + 4 - row) % 4;
    Position(back, row);
    assert (back + row) % 4 == column;
  }

  lemma Position(column: nat, row: nat)
    requires row < 4
    ensures (4 * column + row) / 4 == column && (4 * column + row) % 4 == row
  {
  }

  lemma ShiftRowsUndone(b: Block)
    ensures InvShiftRows(ShiftRows(b)) == b
  {
    hide ShiftedFrom, ShiftedBackFrom;
    forall i: nat | i < 16
      ensures InvShiftRows(ShiftRows(b))[i] == b[i]
    {
      ShiftedThereAndBack(i);
    }
  }

  lemma SameColumn(b: Block, i: nat, k: nat, l: nat)
    requires i < 16
    ensures InColumn(b, Below(i, k), l) == InColumn(b, i, k + l)
  {
    var p := Below(i, k);
    assert p / 4 == i / 4 && p % 4 == (i % 4 + k) % 4;
    RowsAdd(i % 4, k, l);
  }

  lemma RowsAdd(r: nat, k: nat, l: nat)
    ensures ((r + k) % 4 + l) % 4 == (r + (k + l)) % 4
  {
    assert r + k + l == 4 * ((r + k) / 4) + ((r + k) % 4 + l);
  }

  lemma MappedInColumn(f: (bv8, bv8, bv8, bv8) -> bv8, b: Block, i: nat, k: nat)
    requires i < 16
    ensures InColumn(MapColumns(f, b), i, k)
         == f(InColumn(b, i, k), InColumn(b, i, k + 1), InColumn(b, i, k + 2), InColumn(b, i, k + 3))
  {
    SameColumn(b, i, k, 0);
    SameColumn(b, i, k, 1);
    SameColumn(b, i, k, 2);
    SameColumn(b, i, k, 3);
    hide Below;
    assert InColumn(MapColumns(f, b), i, k) == MapColumns(f, b)[Below(i, k)];
    hide InColumn;
  }

  lemma ColumnWraps(b: Block, i: nat, k: nat)
    requires i < 16
    ensures InColumn(b, i, k + 4) == InColumn(b, i, k)
  {
  }

  lemma MappedByteUndone(f: (bv8, bv8, bv8, bv8) -> bv8, g: (bv8, bv8, bv8, bv8) -> bv8, b: Block, m: Block, i: nat)
    requires i < 16 && m == MapColumns(f, b)
    requires forall p, q, r, s :: g(f(p, q, r, s), f(q, r, s, p), f(r, s, p, q), f(s, p, q, r)) == p
    ensures g(InColumn(m, i, 0), InColumn(m, i, 1), InColumn(m, i, 2), InColumn(m, i, 3)) == InColumn(b, i, 0)
  {
    var p, q, r, s := InColumn(b, i, 0), InColumn(b, i, 1), InColumn(b, i, 2), InColumn(b, i, 3);
    ColumnWraps(b, i, 0);
    ColumnWraps(b, i, 1);
    ColumnWraps(b, i, 2);
    MappedInColumn(f, b, i, 0);
    MappedInColumn(f, b, i, 1);
    MappedInColumn(f, b, i, 2);
    MappedInColumn(f, b, i, 3);
    assert g(f(p, q, r, s), f(q, r, s, p), f(r, s, p, q), f(s, p, q, r)) == p;
  }

  lemma MapColumnsTo(g: (bv8, bv8, bv8, bv8) -> bv8, m: Block, b: Block)
    requires forall i | 0 <= i < 16 ::
      g(InColumn(m, i, 0), InColumn(m, i, 1), InColumn(m, i, 2), InColumn(m, i, 3)) == InColumn(b, i, 0)
    ensures MapColumns(g, m) == b
  {
    forall i: nat | i < 16
      ensures InColumn(b, i, 0) == b[i]
    {
      BelowNone(i);
    }
    hide InColumn;
  }

  lemma BelowNone(i: nat)
    requires i < 16
    ensures Below(i, 0) == i
  {
  }

  /** If g recovers the head of a column from the four rotations under f, then mapping g
      over the columns undoes mapping f. */
  lemma MapColumnsUndone(f: (bv8, bv8, bv8, bv8) -> bv8, g: (bv8, bv8, bv8, bv8) -> bv8, b: Block)
    requires forall p, q, r, s :: g(f(p, q, r, s), f(q, r, s, p), f(r, s, p, q), f(s, p, q, r)) == p
    ensures MapColumns(g, MapColumns(f, b)) == b
  {
    var m := MapColumns(f, b);
    assert forall i | 0 <= i < 16 ::
      g(InColumn(m, i, 0), InColumn(m, i, 1), InColumn(m, i, 2), InColumn(m, i, 3)) == InColumn(b, i, 0)
    by {
      forall i | 0 <= i < 16
        ensures g(InColumn(m, i, 0), InColumn(m, i, 1), InColumn(m, i, 2), InColumn(m, i, 3)) == InColumn(b, i, 0)
      {
        MappedByteUndone(f, g, b, m, i);
      }
    }
    MapColumnsTo(g, m, b);
  }

  lemma MixColumnsUndone(b: Block)
    ensures InvMixColumns(MixColumns(b)) == b
  {
    forall p, q, r, s
      ensures UnmixByte(MixByte(p, q, r, s), MixByte(q, r, s, p), MixByte(r, s, p, q), MixByte(s, p, q, r)) == p
    {
      UnmixByteInverts(p, q, r, s);
    }
    MapColumnsUndone(MixByte, UnmixByte, b);
  }

  // ---- The key schedule, section 5.2 ----

  type Key = Block
  type Word = s: seq<bv8> | |s| == 4 witness seq(4, _ => 0)

  function XorWord(a: Word, b: Word): Word {
    seq(4, j requires 0 <= j < 4 => a[j] ^ b[j])
  }

  /** The round constant: x to the power i - 1 in the field. */
  function RoundConstant(i: nat): bv8
    requires i > 0
  {
    if i == 1 then 1 else GfMul(RoundConstant(i - 1), 2)
  }

  function SubRotWord(w: Word): Word {
    seq(4, j requires 0 <= j < 4 => SBox(w[(j + 1) % 4]))
  }

  /** Word i of the expanded key. */
  function KeyWord(key: Key, i: nat): Word {
    if i < 4 then key[4 * i..4 * i + 4]
    else if i % 4 == 0 then
      XorWord(KeyWord(key, i - 4), XorWord(SubRotWord(KeyWord(key, i - 1)), [RoundConstant(i / 4), 0, 0, 0]))
    else XorWord(KeyWord(key, i - 4), KeyWord(key, i - 1))
  }

  function RoundKey(key: Key, round: nat): Block {
    KeyWord(key, 4 * round) + KeyWord(key, 4 * round + 1) +
    KeyWord(key, 4 * round + 2) + KeyWord(key, 4 * round + 3)
  }

  // ---- The cipher, section 5.1, and its inverse, section 5.3 ----

  const ROUNDS: nat := 10

  /** The state after the initial key and the first `round` full rounds. */
  function AfterRound(key: Key, b: Block, round: nat): Block {
    if round == 0 then AddRoundKey(b, RoundKey(key, 0))
    else AddRoundKey(MixColumns(ShiftRows(SubBytes(AfterRound(key, b, round - 1)))), RoundKey(key, round))
  }

  function Encrypt(key: Key, b: Block): Block {
    AddRoundKey(ShiftRows(SubBytes(AfterRound(key, b, ROUNDS - 1))), RoundKey(key, ROUNDS))
  }

  /** The state of the inverse cipher when rounds ROUNDS - 1 down to round + 1 are undone. */
  function BeforeRound(key: Key, c: Block, round: nat): Block
    requires round < ROUNDS
    decreases ROUNDS - round
  {
    if round == ROUNDS - 1 then AddRoundKey(c, RoundKey(key, ROUNDS))
    else InvMixColumns(AddRoundKey(InvSubBytes(InvShiftRows(BeforeRound(key, c, round + 1))), RoundKey(key, round + 1)))
  }

  function Decrypt(key: Key, c: Block): Block {
    AddRoundKey(InvSubBytes(InvShiftRows(BeforeRound(key, c, 0))), RoundKey(key, 0))
  }

  /** Going down, the inverse cipher meets the states of the cipher after its two byte steps. */
  lemma {:induction false} StatesMeet(key: Key, b: Block, round: nat)
    requires round < ROUNDS
    ensures BeforeRound(key, Encrypt(key, b), round) == ShiftRows(SubBytes(AfterRound(key, b, round)))
    decreases ROUNDS - round
  {
    if round == ROUNDS - 1 {
      AddRoundKeyTwice(ShiftRows(SubBytes(AfterRound(key, b, round))), RoundKey(key, ROUNDS));
    } else {
      StatesMeet(key, b, round + 1);
      var mixed := MixColumns(ShiftRows(SubBytes(AfterRound(key, b, round))));
      ShiftRowsUndone(SubBytes(AfterRound(key, b, round + 1)));
      SubBytesUndone(AfterRound(key, b, round + 1));
      AddRoundKeyTwice(mixed, RoundKey(key, round + 1));
      MixColumnsUndone(ShiftRows(SubBytes(AfterRound(key, b, round))));
    }
  }

  /** Decryption undoes encryption, for every key and every block. */
  lemma DecryptInvertsEncrypt(key: Key, b: Block)
    ensures Decrypt(key, Encrypt(key, b)) == b
  {
    StatesMeet(key, b, 0);
    ShiftRowsUndone(SubBytes(AfterRound(key, b, 0)));
    SubBytesUndone(AfterRound(key, b, 0));
    AddRoundKeyTwice(b, RoundKey(key, 0));
  }

  /** So encryption maps the blocks onto the blocks, and undoes decryption. */
  lemma EncryptInvertsDecrypt(key: Key, c: Block)
    ensures Encrypt(key, Decrypt(key, c)) == c
  {
    hide Encrypt, Decrypt, Strings;
    var f := (b: seq<bv8>) => if |b| == 16 then Encrypt(key, b) else b;
    var g := (b: seq<bv8>) => if |b| == 16 then Decrypt(key, b) else b;
    forall b | b in Strings(16)
      ensures f(b) in Strings(16) && g(f(b)) == b
    {
      DecryptInvertsEncrypt(key, b);
      EveryString(f(b));
    }
    EveryString(c);
    InverseBothWays(Strings(16), f, g, c);
  }
}
