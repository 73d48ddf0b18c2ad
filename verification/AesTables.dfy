/** The two substitution tables of the cipher, transcribed entry by entry, and the
    proof that they are the tables of FIPS 197. */
module AesTables {
  import opened GF256

  /** Entry n of one row of a table. */
  function Pick(n: bv8,
                v0: bv8, v1: bv8, v2: bv8, v3: bv8, v4: bv8, v5: bv8, v6: bv8, v7: bv8,
                v8: bv8, v9: bv8, va: bv8, vb: bv8, vc: bv8, vd: bv8, ve: bv8, vf: bv8): bv8
  {
    if n < 8 then
      (if n < 4 then (if n < 2 then (if n < 1 then v0 else v1) else (if n < 3 then v2 else v3)) else (if n < 6 then (if n < 5 then v4 else v5) else (if n < 7 then v6 else v7)))
    else
      (if n < 12 then (if n < 10 then (if n < 9 then v8 else v9) else (if n < 11 then va else vb)) else (if n < 14 then (if n < 13 then vc else vd) else (if n < 15 then ve else vf)))
  }

  /** Table scSbox, read through getSBoxValue. */
  function SBox(num: bv8): bv8 {
    var lo := num & 0x0f;
    match num & 0xf0
    case 0x00 => Pick(lo, 0x63, 0x7c, 0x77, 0x7b, 0xf2, 0x6b, 0x6f, 0xc5, 0x30, 0x01, 0x67, 0x2b, 0xfe, 0xd7, 0xab, 0x76)
    case 0x10 => Pick(lo, 0xca, 0x82, 0xc9, 0x7d, 0xfa, 0x59, 0x47, 0xf0, 0xad, 0xd4, 0xa2, 0xaf, 0x9c, 0xa4, 0x72, 0xc0)
    case 0x20 => Pick(lo, 0xb7, 0xfd, 0x93, 0x26, 0x36, 0x3f, 0xf7, 0xcc, 0x34, 0xa5, 0xe5, 0xf1, 0x71, 0xd8, 0x31, 0x15)
    case 0x30 => Pick(lo, 0x04, 0xc7, 0x23, 0xc3, 0x18, 0x96, 0x05, 0x9a, 0x07, 0x12, 0x80, 0xe2, 0xeb, 0x27, 0xb2, 0x75)
    case 0x40 => Pick(lo, 0x09, 0x83, 0x2c, 0x1a, 0x1b, 0x6e, 0x5a, 0xa0, 0x52, 0x3b, 0xd6, 0xb3, 0x29, 0xe3, 0x2f, 0x84)
    case 0x50 => Pick(lo, 0x53, 0xd1, 0x00, 0xed, 0x20, 0xfc, 0xb1, 0x5b, 0x6a, 0xcb, 0xbe, 0x39, 0x4a, 0x4c, 0x58, 0xcf)
    case 0x60 => Pick(lo, 0xd0, 0xef, 0xaa, 0xfb, 0x43, 0x4d, 0x33, 0x85, 0x45, 0xf9, 0x02, 0x7f, 0x50, 0x3c, 0x9f, 0xa8)
    case 0x70 => Pick(lo, 0x51, 0xa3, 0x40, 0x8f, 0x92, 0x9d, 0x38, 0xf5, 0xbc, 0xb6, 0xda, 0x21, 0x10, 0xff, 0xf3, 0xd2)
    case 0x80 => Pick(lo, 0xcd, 0x0c, 0x13, 0xec, 0x5f, 0x97, 0x44, 0x17, 0xc4, 0xa7, 0x7e, 0x3d, 0x64, 0x5d, 0x19, 0x73)
    case 0x90 => Pick(lo, 0x60, 0x81, 0x4f, 0xdc, 0x22, 0x2a, 0x90, 0x88, 0x46, 0xee, 0xb8, 0x14, 0xde, 0x5e, 0x0b, 0xdb)
    case 0xa0 => Pick(lo, 0xe0, 0x32, 0x3a, 0x0a, 0x49, 0x06, 0x24, 0x5c, 0xc2, 0xd3, 0xac, 0x62, 0x91, 0x95, 0xe4, 0x79)
    case 0xb0 => Pick(lo, 0xe7, 0xc8, 0x37, 0x6d, 0x8d, 0xd5, 0x4e, 0xa9, 0x6c, 0x56, 0xf4, 0xea, 0x65, 0x7a, 0xae, 0x08)
    case 0xc0 => Pick(lo, 0xba, 0x78, 0x25, 0x2e, 0x1c, 0xa6, 0xb4, 0xc6, 0xe8, 0xdd, 0x74, 0x1f, 0x4b, 0xbd, 0x8b, 0x8a)
    case 0xd0 => Pick(lo, 0x70, 0x3e, 0xb5, 0x66, 0x48, 0x03, 0xf6, 0x0e, 0x61, 0x35, 0x57, 0xb9, 0x86, 0xc1, 0x1d, 0x9e)
    case 0xe0 => Pick(lo, 0xe1, 0xf8, 0x98, 0x11, 0x69, 0xd9, 0x8e, 0x94, 0x9b, 0x1e, 0x87, 0xe9, 0xce, 0x55, 0x28, 0xdf)
    case _ => Pick(lo, 0x8c, 0xa1, 0x89, 0x0d, 0xbf, 0xe6, 0x42, 0x68, 0x41, 0x99, 0x2d, 0x0f, 0xb0, 0x54, 0xbb, 0x16)
  }

  /** Table scRsbox, read through getSBoxInvert. */
  function InvSBox(num: bv8): bv8 {
    var lo := num & 0x0f;
    match num & 0xf0
    case 0x00 => Pick(lo, 0x52, 0x09, 0x6a, 0xd5, 0x30, 0x36, 0xa5, 0x38, 0xbf, 0x40, 0xa3, 0x9e, 0x81, 0xf3, 0xd7, 0xfb)
    case 0x10 => Pick(lo, 0x7c, 0xe3, 0x39, 0x82, 0x9b, 0x2f, 0xff, 0x87, 0x34, 0x8e, 0x43, 0x44, 0xc4, 0xde, 0xe9, 0xcb)
    case 0x20 => Pick(lo, 0x54, 0x7b, 0x94, 0x32, 0xa6, 0xc2, 0x23, 0x3d, 0xee, 0x4c, 0x95, 0x0b, 0x42, 0xfa, 0xc3, 0x4e)
    case 0x30 => Pick(lo, 0x08, 0x2e, 0xa1, 0x66, 0x28, 0xd9, 0x24, 0xb2, 0x76, 0x5b, 0xa2, 0x49, 0x6d, 0x8b, 0xd1, 0x25)
    case 0x40 => Pick(lo, 0x72, 0xf8, 0xf6, 0x64, 0x86, 0x68, 0x98, 0x16, 0xd4, 0xa4, 0x5c, 0xcc, 0x5d, 0x65, 0xb6, 0x92)
    case 0x50 => Pick(lo, 0x6c, 0x70, 0x48, 0x50, 0xfd, 0xed, 0xb9, 0xda, 0x5e, 0x15, 0x46, 0x57, 0xa7, 0x8d, 0x9d, 0x84)
    case 0x60 => Pick(lo, 0x90, 0xd8, 0xab, 0x00, 0x8c, 0xbc, 0xd3, 0x0a, 0xf7, 0xe4, 0x58, 0x05, 0xb8, 0xb3, 0x45, 0x06)
    case 0x70 => Pick(lo, 0xd0, 0x2c, 0x1e, 0x8f, 0xca, 0x3f, 0x0f, 0x02, 0xc1, 0xaf, 0xbd, 0x03, 0x01, 0x13, 0x8a, 0x6b)
    case 0x80 => Pick(lo, 0x3a, 0x91, 0x11, 0x41, 0x4f, 0x67, 0xdc, 0xea, 0x97, 0xf2, 0xcf, 0xce, 0xf0, 0xb4, 0xe6, 0x73)
    case 0x90 => Pick(lo, 0x96, 0xac, 0x74, 0x22, 0xe7, 0xad, 0x35, 0x85, 0xe2, 0xf9, 0x37, 0xe8, 0x1c, 0x75, 0xdf, 0x6e)
    case 0xa0 => Pick(lo, 0x47, 0xf1, 0x1a, 0x71, 0x1d, 0x29, 0xc5, 0x89, 0x6f, 0xb7, 0x62, 0x0e, 0xaa, 0x18, 0xbe, 0x1b)
    case 0xb0 => Pick(lo, 0xfc, 0x56, 0x3e, 0x4b, 0xc6, 0xd2, 0x79, 0x20, 0x9a, 0xdb, 0xc0, 0xfe, 0x78, 0xcd, 0x5a, 0xf4)
    case 0xc0 => Pick(lo, 0x1f, 0xdd, 0xa8, 0x33, 0x88, 0x07, 0xc7, 0x31, 0xb1, 0x12, 0x10, 0x59, 0x27, 0x80, 0xec, 0x5f)
    case 0xd0 => Pick(lo, 0x60, 0x51, 0x7f, 0xa9, 0x19, 0xb5, 0x4a, 0x0d, 0x2d, 0xe5, 0x7a, 0x9f, 0x93, 0xc9, 0x9c, 0xef)
    case 0xe0 => Pick(lo, 0xa0, 0xe0, 0x3b, 0x4d, 0xae, 0x2a, 0xf5, 0xb0, 0xc8, 0xeb, 0xbb, 0x3c, 0x83, 0x53, 0x99, 0x61)
    case _ => Pick(lo, 0x17, 0x2b, 0x04, 0x7e, 0xba, 0x77, 0xd6, 0x26, 0xe1, 0x69, 0x14, 0x63, 0x55, 0x21, 0x0c, 0x7d)
  }

  lemma InvSBoxInverts00(x: bv8)
    requires x < 0x10
    ensures InvSBox(SBox(x)) == x
  {
  }

  lemma InvSBoxInverts10(x: bv8)
    requires 0x10 <= x < 0x20
    ensures InvSBox(SBox(x)) == x
  {
  }

  lemma InvSBoxInverts20(x: bv8)
    requires 0x20 <= x < 0x30
    ensures InvSBox(SBox(x)) == x
  {
  }

  lemma InvSBoxInverts30(x: bv8)
    requires 0x30 <= x < 0x40
    ensures InvSBox(SBox(x)) == x
  {
  }

  lemma InvSBoxInverts40(x: bv8)
    requires 0x40 <= x < 0x50
    ensures InvSBox(SBox(x)) == x
  {
  }

  lemma InvSBoxInverts50(x: bv8)
    requires 0x50 <= x < 0x60
    ensures InvSBox(SBox(x)) == x
  {
  }

  lemma InvSBoxInverts60(x: bv8)
    requires 0x60 <= x < 0x70
    ensures InvSBox(SBox(x)) == x
  {
  }

  lemma InvSBoxInverts70(x: bv8)
    requires 0x70 <= x < 0x80
    ensures InvSBox(SBox(x)) == x
  {
  }

  lemma InvSBoxInverts80(x: bv8)
    requires 0x80 <= x < 0x90
    ensures InvSBox(SBox(x)) == x
  {
  }

  lemma InvSBoxInverts90(x: bv8)
    requires 0x90 <= x < 0xa0
    ensures InvSBox(SBox(x)) == x
  {
  }

  lemma InvSBoxInvertsA0(x: bv8)
    requires 0xa0 <= x < 0xb0
    ensures InvSBox(SBox(x)) == x
  {
  }

  lemma InvSBoxInvertsB0(x: bv8)
    requires 0xb0 <= x < 0xc0
    ensures InvSBox(SBox(x)) == x
  {
  }

  lemma InvSBoxInvertsC0(x: bv8)
    requires 0xc0 <= x < 0xd0
    ensures InvSBox(SBox(x)) == x
  {
  }

  lemma InvSBoxInvertsD0(x: bv8)
    requires 0xd0 <= x < 0xe0
    ensures InvSBox(SBox(x)) == x
  {
  }

  lemma InvSBoxInvertsE0(x: bv8)
    requires 0xe0 <= x < 0xf0
    ensures InvSBox(SBox(x)) == x
  {
  }

  lemma InvSBoxInvertsF0(x: bv8)
    requires 0xf0 <= x
    ensures InvSBox(SBox(x)) == x
  {
  }

  /** The decryption table undoes the encryption table. */
  lemma InvSBoxInverts(x: bv8)
    ensures InvSBox(SBox(x)) == x
  {
    hide SBox, InvSBox;
    if x < 0x10 {
      InvSBoxInverts00(x);
    } else if x < 0x20 {
      InvSBoxInverts10(x);
    } else if x < 0x30 {
      InvSBoxInverts20(x);
    } else if x < 0x40 {
      InvSBoxInverts30(x);
    } else if x < 0x50 {
      InvSBoxInverts40(x);
    } else if x < 0x60 {
      InvSBoxInverts50(x);
    } else if x < 0x70 {
      InvSBoxInverts60(x);
    } else if x < 0x80 {
      InvSBoxInverts70(x);
    } else if x < 0x90 {
      InvSBoxInverts80(x);
    } else if x < 0xa0 {
      InvSBoxInverts90(x);
    } else if x < 0xb0 {
      InvSBoxInvertsA0(x);
    } else if x < 0xc0 {
      InvSBoxInvertsB0(x);
    } else if x < 0xd0 {
      InvSBoxInvertsC0(x);
    } else if x < 0xe0 {
      InvSBoxInvertsD0(x);
    } else if x < 0xf0 {
      InvSBoxInvertsE0(x);
    } else {
      InvSBoxInvertsF0(x);
    }
  }

  // ---- The tables are those of the standard ----

  /** The rotations and the constant of section 5.1.1 of FIPS 197. */
  function Affine(x: bv8): bv8 {
    x ^ ((x << 1) | (x >> 7)) ^ ((x << 2) | (x >> 6)) ^ ((x << 3) | (x >> 5)) ^ ((x << 4) | (x >> 4)) ^ 0x63
  }

  function InvAffine(x: bv8): bv8 {
    ((x << 1) | (x >> 7)) ^ ((x << 3) | (x >> 5)) ^ ((x << 6) | (x >> 2)) ^ 0x05
  }

  lemma AffineInverts(y: bv8)
    ensures Affine(InvAffine(y)) == y
  {
  }

  lemma EntryInverse00(x: bv8)
    requires 0x00 < x < 0x20
    ensures GfMul(x, InvAffine(SBox(x))) == 1
  {
  }

  lemma EntryInverse20(x: bv8)
    requires 0x20 <= x < 0x40
    ensures GfMul(x, InvAffine(SBox(x))) == 1
  {
  }

  lemma EntryInverse40(x: bv8)
    requires 0x40 <= x < 0x60
    ensures GfMul(x, InvAffine(SBox(x))) == 1
  {
  }

  lemma EntryInverse60(x: bv8)
    requires 0x60 <= x < 0x80
    ensures GfMul(x, InvAffine(SBox(x))) == 1
  {
  }

  lemma EntryInverse80(x: bv8)
    requires 0x80 <= x < 0xa0
    ensures GfMul(x, InvAffine(SBox(x))) == 1
  {
  }

  lemma EntryInverseA0(x: bv8)
    requires 0xa0 <= x < 0xc0
    ensures GfMul(x, InvAffine(SBox(x))) == 1
  {
  }

  lemma EntryInverseC0(x: bv8)
    requires 0xc0 <= x < 0xe0
    ensures GfMul(x, InvAffine(SBox(x))) == 1
  {
  }

  lemma EntryInverseE0(x: bv8)
    requires 0xe0 <= x
    ensures GfMul(x, InvAffine(SBox(x))) == 1
  {
  }

  /** Every entry of scSbox is the affine image of a field inverse (of zero, for zero):
      the definition of the S-box in section 5.1.1 of FIPS 197. */
  lemma SBoxIsAffineOfInverse(x: bv8)
    ensures exists y :: SBox(x) == Affine(y) && (if x == 0 then y == 0 else GfMul(x, y) == 1)
  {
    AffineInverts(SBox(x));
    if x == 0 {
    } else if x < 0x20 {
      EntryInverse00(x);
    } else if x < 0x40 {
      EntryInverse20(x);
    } else if x < 0x60 {
      EntryInverse40(x);
    } else if x < 0x80 {
      EntryInverse60(x);
    } else if x < 0xa0 {
      EntryInverse80(x);
    } else if x < 0xc0 {
      EntryInverseA0(x);
    } else if x < 0xe0 {
      EntryInverseC0(x);
    } else {
      EntryInverseE0(x);
    }
    assert SBox(x) == Affine(InvAffine(SBox(x)));
  }
}
