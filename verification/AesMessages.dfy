/** Messages of whole blocks: padding, the block chain of each direction, and what the two
    directions do to each other. */
module AesMessages {
  import opened Options
  import opened Fips197

  /** Section 6.3 of RFC 5652: n bytes of value n, where n completes the last block. */
  function Pad(m: seq<bv8>): (p: seq<bv8>)
    ensures |p| % 16 == 0 && |m| < |p| <= |m| + 16
  {
    var n := 16 - |m| % 16;
    m + seq(n, _ => n as bv8)
  }

  /** What decrypt keeps: all but as many bytes as the last byte says, if that many exist. */
  function Unpad(p: seq<bv8>): Option<seq<bv8>>
    requires |p| > 0
  {
    var n := p[|p| - 1] as int;
    if 1 <= n <= |p| then Some(p[..|p| - n]) else None
  }

  lemma UnpadPad(m: seq<bv8>)
    ensures Unpad(Pad(m)) == Some(m)
  {
    PadEnds(m);
    hide Pad;
    assert Pad(m)[..|m|] == m;
  }

  lemma PadEnds(m: seq<bv8>)
    ensures |Pad(m)| == |m| + 16 - |m| % 16 && m <= Pad(m)
    ensures Pad(m)[|Pad(m)| - 1] as int == 16 - |m| % 16
  {
    SmallByte(16 - |m| % 16);
  }

  lemma SmallByte(n: nat)
    requires n <= 16
    ensures (n as bv8) as int == n
  {
  }

  function BlockAt(s: seq<bv8>, i: nat): Block
    requires 16 * i + 16 <= |s|
  {
    s[16 * i..16 * i + 16]
  }

  /** Output block i of encrypt. With use_cbc the code chains on the previous plain block. */
  function EncryptedBlock(key: Key, cbc: bool, p: seq<bv8>, i: nat): Block
    requires 16 * i + 16 <= |p|
  {
    var c := Encrypt(key, BlockAt(p, i));
    if cbc then AddRoundKey(c, if i == 0 then key else BlockAt(p, i - 1)) else c
  }

  /** Output block i of decrypt. With use_cbc the code chains on the previous cipher block. */
  function DecryptedBlock(key: Key, cbc: bool, c: seq<bv8>, i: nat): Block
    requires 16 * i + 16 <= |c|
  {
    var p := Decrypt(key, BlockAt(c, i));
    if cbc then AddRoundKey(p, if i == 0 then key else BlockAt(c, i - 1)) else p
  }

  function Encrypted(key: Key, cbc: bool, p: seq<bv8>, n: nat): (c: seq<bv8>)
    requires 16 * n <= |p|
    ensures |c| == 16 * n
  {
    if n == 0 then [] else Encrypted(key, cbc, p, n - 1) + EncryptedBlock(key, cbc, p, n - 1)
  }

  function Decrypted(key: Key, cbc: bool, c: seq<bv8>, n: nat): (p: seq<bv8>)
    requires 16 * n <= |c|
    ensures |p| == 16 * n
  {
    if n == 0 then [] else Decrypted(key, cbc, c, n - 1) + DecryptedBlock(key, cbc, c, n - 1)
  }

  function EncryptMessage(key: Key, cbc: bool, m: seq<bv8>): (c: seq<bv8>)
    ensures |c| == |Pad(m)|
  {
    Encrypted(key, cbc, Pad(m), |Pad(m)| / 16)
  }

  function AllDecrypted(key: Key, cbc: bool, c: seq<bv8>): (p: seq<bv8>)
    requires |c| % 16 == 0
    ensures |p| == |c|
  {
    Decrypted(key, cbc, c, |c| / 16)
  }

  function DecryptMessage(key: Key, cbc: bool, c: seq<bv8>): Option<seq<bv8>>
    requires |c| > 0 && |c| % 16 == 0
  {
    Unpad(AllDecrypted(key, cbc, c))
  }

  lemma EncryptedLength(key: Key, cbc: bool, m: seq<bv8>)
    ensures |EncryptMessage(key, cbc, m)| == |Pad(m)|
    ensures |m| < |EncryptMessage(key, cbc, m)| <= |m| + 16 && |EncryptMessage(key, cbc, m)| % 16 == 0
  {
  }

  // ---- Without chaining ----

  lemma {:induction false} BlockOfEncrypted(key: Key, cbc: bool, p: seq<bv8>, n: nat, i: nat)
    requires 16 * n <= |p| && i < n
    ensures BlockAt(Encrypted(key, cbc, p, n), i) == EncryptedBlock(key, cbc, p, i)
  {
    hide EncryptedBlock;
    if i < n - 1 {
      BlockOfEncrypted(key, cbc, p, n - 1, i);
      assert BlockAt(Encrypted(key, cbc, p, n), i) == BlockAt(Encrypted(key, cbc, p, n - 1), i);
    }
  }

  lemma {:induction false} DecryptedEncrypted(key: Key, p: seq<bv8>, n: nat, k: nat)
    requires 16 * n <= |p| && k <= n
    ensures Decrypted(key, false, Encrypted(key, false, p, n), k) == p[..16 * k]
  {
    hide Encrypt, Decrypt, Encrypted;
    if k > 0 {
      DecryptedEncrypted(key, p, n, k - 1);
      BlockOfEncrypted(key, false, p, n, k - 1);
      DecryptInvertsEncrypt(key, BlockAt(p, k - 1));
      assert p[..16 * k] == p[..16 * (k - 1)] + BlockAt(p, k - 1);
    }
  }

  /** decrypt(encrypt(m)) is m, with its exact length, for every key and message. */
  lemma MessageRoundTrip(key: Key, m: seq<bv8>)
    ensures DecryptMessage(key, false, EncryptMessage(key, false, m)) == Some(m)
  {
    hide Encrypted, Decrypted, Pad, Unpad;
    var p := Pad(m);
    DecryptedEncrypted(key, p, |p| / 16, |p| / 16);
    assert p[..|p|] == p;
    UnpadPad(m);
  }

  // ---- With chaining: decrypt is the inverse of the standard's mode, section 6.2 of NIST SP 800-38A ----

  /** Cipher block i of the standard mode, with the key as initial vector. */
  function CbcBlock(key: Key, p: seq<bv8>, i: nat): Block
    requires 16 * i + 16 <= |p|
  {
    Encrypt(key, AddRoundKey(BlockAt(p, i), if i == 0 then key else CbcBlock(key, p, i - 1)))
  }

  function Cbc(key: Key, p: seq<bv8>, n: nat): (c: seq<bv8>)
    requires 16 * n <= |p|
    ensures |c| == 16 * n
  {
    if n == 0 then [] else Cbc(key, p, n - 1) + CbcBlock(key, p, n - 1)
  }

  lemma {:induction false} BlockOfCbc(key: Key, p: seq<bv8>, n: nat, i: nat)
    requires 16 * n <= |p| && i < n
    ensures BlockAt(Cbc(key, p, n), i) == CbcBlock(key, p, i)
  {
    hide CbcBlock;
    if i < n - 1 {
      BlockOfCbc(key, p, n - 1, i);
      assert BlockAt(Cbc(key, p, n), i) == BlockAt(Cbc(key, p, n - 1), i);
    }
  }

  lemma {:induction false} DecryptedCbc(key: Key, p: seq<bv8>, n: nat, k: nat)
    requires 16 * n <= |p| && k <= n
    ensures Decrypted(key, true, Cbc(key, p, n), k) == p[..16 * k]
  {
    hide Encrypt, Decrypt, Cbc, AddRoundKey;
    if k > 0 {
      DecryptedCbc(key, p, n, k - 1);
      BlockOfCbc(key, p, n, k - 1);
      var previous := if k == 1 then key else CbcBlock(key, p, k - 2);
      if k > 1 {
        BlockOfCbc(key, p, n, k - 2);
      }
      DecryptInvertsEncrypt(key, AddRoundKey(BlockAt(p, k - 1), previous));
      AddRoundKeyTwice(BlockAt(p, k - 1), previous);
      assert p[..16 * k] == p[..16 * (k - 1)] + BlockAt(p, k - 1);
    }
  }

  function CbcMessage(key: Key, m: seq<bv8>): (c: seq<bv8>)
    ensures |c| == |Pad(m)|
  {
    Cbc(key, Pad(m), |Pad(m)| / 16)
  }

  /** Only the standard's ciphertext is decrypted to a given text. */
  lemma {:induction false} DecryptsToExactly(key: Key, c: seq<bv8>, p: seq<bv8>, n: nat)
    requires |c| == |p| == 16 * n
    ensures Decrypted(key, true, c, n) == p <==> c == Cbc(key, p, n)
  {
    hide DecryptedBlock;
    DecryptedCbc(key, p, n, n);
    assert p[..16 * n] == p;
    if Decrypted(key, true, c, n) == p {
      CbcFromDecrypted(key, c, p, n, n);
      assert c[..16 * n] == c;
    }
  }

  lemma {:induction false} CbcFromDecrypted(key: Key, c: seq<bv8>, p: seq<bv8>, n: nat, k: nat)
    requires |c| == |p| == 16 * n && k <= n && Decrypted(key, true, c, n) == p
    ensures c[..16 * k] == Cbc(key, p, k)
  {
    hide DecryptedBlock, CbcBlock;
    if k > 0 {
      CbcFromDecrypted(key, c, p, n, k - 1);
      BlockOfDecrypted(key, true, c, n, k - 1);
      if k > 1 {
        BlockOfCbc(key, p, k - 1, k - 2);
        assert BlockAt(c[..16 * (k - 1)], k - 2) == BlockAt(c, k - 2);
      }
      BlockFromDecrypted(key, c, p, k - 1);
      assert c[..16 * k] == c[..16 * (k - 1)] + BlockAt(c, k - 1);
    }
  }

  lemma BlockFromDecrypted(key: Key, c: seq<bv8>, p: seq<bv8>, i: nat)
    requires 16 * i + 16 <= |c| && 16 * i + 16 <= |p|
    requires DecryptedBlock(key, true, c, i) == BlockAt(p, i)
    requires i > 0 ==> BlockAt(c, i - 1) == CbcBlock(key, p, i - 1)
    ensures BlockAt(c, i) == CbcBlock(key, p, i)
  {
    hide Encrypt, Decrypt, AddRoundKey;
    var previous := if i == 0 then key else BlockAt(c, i - 1);
    AddRoundKeyTwice(Decrypt(key, BlockAt(c, i)), previous);
    EncryptInvertsDecrypt(key, BlockAt(c, i));
  }

  lemma {:induction false} BlockOfDecrypted(key: Key, cbc: bool, c: seq<bv8>, n: nat, i: nat)
    requires 16 * n <= |c| && i < n
    ensures BlockAt(Decrypted(key, cbc, c, n), i) == DecryptedBlock(key, cbc, c, i)
  {
    hide DecryptedBlock;
    if i < n - 1 {
      BlockOfDecrypted(key, cbc, c, n - 1, i);
      assert BlockAt(Decrypted(key, cbc, c, n), i) == BlockAt(Decrypted(key, cbc, c, n - 1), i);
    }
  }

  /** With use_cbc decrypt gives back what encrypt was given, padding included, exactly when what
      encrypt wrote is the standard's ciphertext. */
  lemma ChainedTextExactly(key: Key, m: seq<bv8>)
    ensures AllDecrypted(key, true, EncryptMessage(key, true, m)) == Pad(m)
       <==> EncryptMessage(key, true, m) == CbcMessage(key, m)
  {
    hide Pad, Decrypted, Cbc, Encrypted;
    var n := |Pad(m)| / 16;
    DecryptsToExactly(key, EncryptMessage(key, true, m), Pad(m), n);
  }

  // ---- When a message comes back with chaining ----

  /** What decrypt chains block i with: the key, or the block that encrypt wrote before. */
  function Chained(key: Key, p: seq<bv8>, i: nat): Block
    requires 16 * i <= |p|
  {
    if i == 0 then key else EncryptedBlock(key, true, p, i - 1)
  }

  /** Block i is written as if it had been chained before the encryption, with the ciphertext. */
  ghost predicate Commutes(key: Key, p: seq<bv8>, i: nat)
    requires 16 * i + 16 <= |p|
  {
    EncryptedBlock(key, true, p, i) == Encrypt(key, AddRoundKey(BlockAt(p, i), Chained(key, p, i)))
  }

  /** What decrypt makes of block i of encrypt's text. */
  function BlockBack(key: Key, p: seq<bv8>, i: nat): Block
    requires 16 * i + 16 <= |p|
  {
    AddRoundKey(Decrypt(key, EncryptedBlock(key, true, p, i)), Chained(key, p, i))
  }

  lemma BackWhenCommutes(key: Key, p: seq<bv8>, i: nat)
    requires 16 * i + 16 <= |p|
    ensures BlockBack(key, p, i) == BlockAt(p, i) <==> Commutes(key, p, i)
  {
    hide Encrypt, Decrypt, AddRoundKey, EncryptedBlock, Chained, BlockAt;
    var c, prev := EncryptedBlock(key, true, p, i), Chained(key, p, i);
    AddRoundKeyTwice(Decrypt(key, c), prev);
    AddRoundKeyTwice(BlockAt(p, i), prev);
    EncryptInvertsDecrypt(key, c);
    DecryptInvertsEncrypt(key, AddRoundKey(BlockAt(p, i), prev));
  }

  /** encrypt and then decrypt, on padded text. */
  function TextBack(key: Key, p: seq<bv8>, n: nat): (d: seq<bv8>)
    requires 16 * n <= |p|
    ensures |d| == 16 * n
  {
    Decrypted(key, true, Encrypted(key, true, p, n), n)
  }

  lemma BackAt(key: Key, p: seq<bv8>, n: nat, i: nat)
    requires 16 * n <= |p| && i < n
    ensures BlockAt(TextBack(key, p, n), i) == BlockBack(key, p, i)
  {
    hide Encrypt, Decrypt, AddRoundKey, Encrypted, Decrypted, EncryptedBlock;
    var c := Encrypted(key, true, p, n);
    BlockOfEncrypted(key, true, p, n, i);
    BlockOfDecrypted(key, true, c, n, i);
    if i > 0 {
      BlockOfEncrypted(key, true, p, n, i - 1);
    }
  }

  /** A padded text gives a message exactly when it begins with it and its last byte counts the
      rest; the other bytes of the padding are not looked at. */
  lemma UnpadsTo(d: seq<bv8>, m: seq<bv8>)
    requires |d| == |Pad(m)|
    ensures Unpad(d) == Some(m) <==> d[..|m|] == m && d[|d| - 1] == Pad(m)[|d| - 1]
  {
    PadEnds(m);
    hide Pad;
  }

  ghost predicate SameBlocks(d: seq<bv8>, p: seq<bv8>, n: nat)
    requires |d| == |p| && 16 * n <= |p|
  {
    forall i | 0 <= i < n :: BlockAt(d, i) == BlockAt(p, i)
  }

  lemma PrefixToBlocks(d: seq<bv8>, p: seq<bv8>, n: nat, rest: nat)
    requires |d| == |p| == 16 * n + 16 && rest < 16 && d[..16 * n + rest] == p[..16 * n + rest]
    ensures SameBlocks(d, p, n) && BlockAt(d, n)[..rest] == BlockAt(p, n)[..rest]
  {
    forall i | 0 <= i < n
      ensures BlockAt(d, i) == BlockAt(p, i)
    {
      SameInside(d, p, 16 * n + rest, 16 * i, 16 * i + 16);
    }
    SameInside(d, p, 16 * n + rest, 16 * n, 16 * n + rest);
    assert BlockAt(d, n)[..rest] == d[16 * n..16 * n + rest];
    assert BlockAt(p, n)[..rest] == p[16 * n..16 * n + rest];
  }

  lemma BlocksToPrefix(d: seq<bv8>, p: seq<bv8>, n: nat, rest: nat)
    requires |d| == |p| == 16 * n + 16 && rest < 16
    requires SameBlocks(d, p, n) && BlockAt(d, n)[..rest] == BlockAt(p, n)[..rest]
    ensures d[..16 * n + rest] == p[..16 * n + rest]
  {
    forall k | 0 <= k < 16 * n + rest
      ensures d[k] == p[k]
    {
      var i, j := k / 16, k % 16;
      ByteOfBlock(d, i, j);
      ByteOfBlock(p, i, j);
      if i == n {
        assert BlockAt(d, n)[j] == BlockAt(d, n)[..rest][j] && BlockAt(p, n)[j] == BlockAt(p, n)[..rest][j];
      }
    }
  }

  lemma ByteOfBlock(d: seq<bv8>, i: nat, j: nat)
    requires 16 * i + 16 <= |d| && j < 16
    ensures d[16 * i + j] == BlockAt(d, i)[j]
  {
  }

  lemma SameInside(d: seq<bv8>, p: seq<bv8>, n: nat, from: nat, to: nat)
    requires from <= to <= n <= |d| && n <= |p| && d[..n] == p[..n]
    ensures d[from..to] == p[from..to]
  {
    forall k | from <= k < to
      ensures d[k] == p[k]
    {
      assert d[k] == d[..n][k] && p[k] == p[..n][k];
    }
  }

  lemma BlocksBack(key: Key, p: seq<bv8>, n: nat)
    requires |p| == 16 * n + 16
    ensures SameBlocks(TextBack(key, p, n + 1), p, n) <==> forall i | 0 <= i < n :: Commutes(key, p, i)
    ensures BlockAt(TextBack(key, p, n + 1), n) == BlockBack(key, p, n)
  {
    hide BlockBack, Commutes, BlockAt, TextBack;
    BackAt(key, p, n + 1, n);
    forall i | 0 <= i < n
      ensures BlockAt(TextBack(key, p, n + 1), i) == BlockAt(p, i) <==> Commutes(key, p, i)
    {
      BackAt(key, p, n + 1, i);
      BackWhenCommutes(key, p, i);
    }
  }

  lemma PrefixBack(key: Key, p: seq<bv8>, n: nat, rest: nat)
    requires |p| == 16 * n + 16 && rest < 16
    ensures TextBack(key, p, n + 1)[16 * n + 15] == BlockBack(key, p, n)[15]
    ensures TextBack(key, p, n + 1)[..16 * n + rest] == p[..16 * n + rest]
       <==> (forall i | 0 <= i < n :: Commutes(key, p, i)) && BlockBack(key, p, n)[..rest] == BlockAt(p, n)[..rest]
  {
    hide *;
    var d := TextBack(key, p, n + 1);
    BlocksBack(key, p, n);
    ByteOfBlock(d, n, 15);
    if d[..16 * n + rest] == p[..16 * n + rest] {
      PrefixToBlocks(d, p, n, rest);
    } else if SameBlocks(d, p, n) && BlockAt(d, n)[..rest] == BlockAt(p, n)[..rest] {
      BlocksToPrefix(d, p, n, rest);
      assert false;
    }
  }

  lemma PadShape(m: seq<bv8>)
    ensures var p, n, rest := Pad(m), |m| / 16, |m| % 16;
            && |p| == 16 * n + 16 && p[..16 * n + rest] == m && BlockAt(p, n)[..rest] == m[16 * n..]
  {
    PadEnds(m);
    hide Pad;
  }

  lemma MessageBackIsUnpad(key: Key, m: seq<bv8>, n: nat)
    requires |Pad(m)| == 16 * n + 16
    ensures DecryptMessage(key, true, EncryptMessage(key, true, m)) == Unpad(TextBack(key, Pad(m), n + 1))
  {
    hide Pad, Unpad, Encrypted, Decrypted;
  }

  /** With use_cbc a message comes back exactly when every whole block of it commutes with the
      chaining, and of the last block the bytes that belong to the message and the last byte come
      back. decrypt looks at no other byte of the padding. */
  lemma ChainedRoundTripExactly(key: Key, m: seq<bv8>)
    ensures
      var p, n, rest := Pad(m), |m| / 16, |m| % 16;
      && |p| == 16 * n + 16
      && (DecryptMessage(key, true, EncryptMessage(key, true, m)) == Some(m) <==>
          && (forall i | 0 <= i < n :: Commutes(key, p, i))
          && BlockBack(key, p, n)[..rest] == m[16 * n..]
          && BlockBack(key, p, n)[15] == p[|p| - 1])
  {
    hide *;
    var n, rest := |m| / 16, |m| % 16;
    PadShape(m);
    MessageBackIsUnpad(key, m, n);
    UnpadsTo(TextBack(key, Pad(m), n + 1), m);
    PrefixBack(key, Pad(m), n, rest);
  }

  const ZEROS: Block := seq(16, _ => 0)

  lemma ZerosAdded(b: Block)
    ensures AddRoundKey(b, ZEROS) == b
  {
  }

  lemma LastAdded(a: Block, b: Block)
    requires b[15] != 0
    ensures AddRoundKey(a, b)[15] != a[15]
  {
  }

  lemma AddedNotZero(a: Block, b: Block)
    requires a[15] != b[15]
    ensures AddRoundKey(a, b)[15] != 0
  {
  }

  /** A block of zeros before the last: the last is chained with nothing, and decrypted into the
      ciphertext of the zeros, which is chained with the block before them. */
  lemma LastBlockDecrypted(key: Key, p: seq<bv8>)
    requires |p| == 48 && BlockAt(p, 1) == ZEROS
    ensures BlockAt(Decrypted(key, true, Encrypted(key, true, p, 3), 3), 2)
         == AddRoundKey(BlockAt(p, 2), AddRoundKey(Encrypt(key, ZEROS), BlockAt(p, 0)))
  {
    hide Encrypt, Decrypt, AddRoundKey, Encrypted, Decrypted;
    BlockOfEncrypted(key, true, p, 3, 1);
    BlockOfEncrypted(key, true, p, 3, 2);
    BlockOfDecrypted(key, true, Encrypted(key, true, p, 3), 3, 2);
    ZerosAdded(Encrypt(key, BlockAt(p, 2)));
    DecryptInvertsEncrypt(key, BlockAt(p, 2));
  }

  /** For every key it is not for these messages of two blocks, the second zero: which first blocks
      fail depends on one byte. */
  lemma ChainedRoundTripFails(key: Key, m: seq<bv8>)
    requires |m| == 32 && BlockAt(m, 1) == ZEROS && m[15] != Encrypt(key, ZEROS)[15]
    ensures DecryptMessage(key, true, EncryptMessage(key, true, m)) != Some(m)
  {
    hide Encrypt, Decrypt, AddRoundKey, Encrypted, Decrypted;
    var p := Pad(m);
    PadEnds(m);
    hide Pad;
    assert BlockAt(p, 1) == BlockAt(m, 1) && BlockAt(p, 0)[15] == m[15];
    LastBlockDecrypted(key, p);
    var moved := AddRoundKey(Encrypt(key, ZEROS), BlockAt(p, 0));
    AddedNotZero(Encrypt(key, ZEROS), BlockAt(p, 0));
    LastAdded(BlockAt(p, 2), moved);
    var d := Decrypted(key, true, Encrypted(key, true, p, 3), 3);
    assert d[47] == BlockAt(d, 2)[15] != BlockAt(p, 2)[15] == p[47];
    assert d[47] as int != 16;
  }

  lemma EveryKeyFails(key: Key) returns (m: seq<bv8>)
    ensures |m| == 32 && DecryptMessage(key, true, EncryptMessage(key, true, m)) != Some(m)
  {
    hide *;
    var first := seq(15, _ => 0) + [Encrypt(key, ZEROS)[15] ^ 1];
    m := first + ZEROS;
    assert m[16..32] == ZEROS;
    BlockIs(m, 1);
    ChainedRoundTripFails(key, m);
  }

  lemma BlockIs(s: seq<bv8>, i: nat)
    requires 16 * i + 16 <= |s|
    ensures BlockAt(s, i) == s[16 * i..16 * i + 16]
  {
  }

  /** decrypt with use_cbc inverts standard CBC encryption with the key as initial vector. */
  lemma CbcRoundTrip(key: Key, m: seq<bv8>)
    ensures DecryptMessage(key, true, CbcMessage(key, m)) == Some(m)
  {
    hide Cbc, Decrypted, Pad, Unpad;
    var p := Pad(m);
    DecryptedCbc(key, p, |p| / 16, |p| / 16);
    assert p[..|p|] == p;
    UnpadPad(m);
  }
}
