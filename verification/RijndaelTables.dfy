/** The substitution boxes of the source, and the example vectors of FIPS 197. */
module RijndaelTables {
  import opened RijndaelField
  import opened RijndaelCipher
  import opened RijndaelKeys
  import opened RijndaelModes
  import opened RijndaelCode
  import opened CrcDivision
  import Crc

  /** The entry of a row of a table. */
  function Of(k: uint8, v0: uint8, v1: uint8, v2: uint8, v3: uint8, v4: uint8, v5: uint8, v6: uint8, v7: uint8,
              v8: uint8, v9: uint8, v10: uint8, v11: uint8, v12: uint8, v13: uint8, v14: uint8, v15: uint8): uint8
  {
    if k < 8 then
      if k < 4 then if k < 2 then if k < 1 then v0 else v1 else if k < 3 then v2 else v3
      else if k < 6 then if k < 5 then v4 else v5 else if k < 7 then v6 else v7
    else
      if k < 12 then if k < 10 then if k < 9 then v8 else v9 else if k < 11 then v10 else v11
      else if k < 14 then if k < 13 then v12 else v13 else if k < 15 then v14 else v15
  }

  /** The substitution box. */
  function S(x: uint8): uint8 {
    var k := x & 0x0F;
    if x < 0x10 then
      Of(k, 0x63, 0x7C, 0x77, 0x7B, 0xF2, 0x6B, 0x6F, 0xC5, 0x30, 0x01, 0x67, 0x2B, 0xFE, 0xD7, 0xAB, 0x76)
    else if x < 0x20 then
      Of(k, 0xCA, 0x82, 0xC9, 0x7D, 0xFA, 0x59, 0x47, 0xF0, 0xAD, 0xD4, 0xA2, 0xAF, 0x9C, 0xA4, 0x72, 0xC0)
    else if x < 0x30 then
      Of(k, 0xB7, 0xFD, 0x93, 0x26, 0x36, 0x3F, 0xF7, 0xCC, 0x34, 0xA5, 0xE5, 0xF1, 0x71, 0xD8, 0x31, 0x15)
    else if x < 0x40 then
      Of(k, 0x04, 0xC7, 0x23, 0xC3, 0x18, 0x96, 0x05, 0x9A, 0x07, 0x12, 0x80, 0xE2, 0xEB, 0x27, 0xB2, 0x75)
    else if x < 0x50 then
      Of(k, 0x09, 0x83, 0x2C, 0x1A, 0x1B, 0x6E, 0x5A, 0xA0, 0x52, 0x3B, 0xD6, 0xB3, 0x29, 0xE3, 0x2F, 0x84)
    else if x < 0x60 then
      Of(k, 0x53, 0xD1, 0x00, 0xED, 0x20, 0xFC, 0xB1, 0x5B, 0x6A, 0xCB, 0xBE, 0x39, 0x4A, 0x4C, 0x58, 0xCF)
    else if x < 0x70 then
      Of(k, 0xD0, 0xEF, 0xAA, 0xFB, 0x43, 0x4D, 0x33, 0x85, 0x45, 0xF9, 0x02, 0x7F, 0x50, 0x3C, 0x9F, 0xA8)
    else if x < 0x80 then
      Of(k, 0x51, 0xA3, 0x40, 0x8F, 0x92, 0x9D, 0x38, 0xF5, 0xBC, 0xB6, 0xDA, 0x21, 0x10, 0xFF, 0xF3, 0xD2)
    else if x < 0x90 then
      Of(k, 0xCD, 0x0C, 0x13, 0xEC, 0x5F, 0x97, 0x44, 0x17, 0xC4, 0xA7, 0x7E, 0x3D, 0x64, 0x5D, 0x19, 0x73)
    else if x < 0xA0 then
      Of(k, 0x60, 0x81, 0x4F, 0xDC, 0x22, 0x2A, 0x90, 0x88, 0x46, 0xEE, 0xB8, 0x14, 0xDE, 0x5E, 0x0B, 0xDB)
    else if x < 0xB0 then
      Of(k, 0xE0, 0x32, 0x3A, 0x0A, 0x49, 0x06, 0x24, 0x5C, 0xC2, 0xD3, 0xAC, 0x62, 0x91, 0x95, 0xE4, 0x79)
    else if x < 0xC0 then
      Of(k, 0xE7, 0xC8, 0x37, 0x6D, 0x8D, 0xD5, 0x4E, 0xA9, 0x6C, 0x56, 0xF4, 0xEA, 0x65, 0x7A, 0xAE, 0x08)
    else if x < 0xD0 then
      Of(k, 0xBA, 0x78, 0x25, 0x2E, 0x1C, 0xA6, 0xB4, 0xC6, 0xE8, 0xDD, 0x74, 0x1F, 0x4B, 0xBD, 0x8B, 0x8A)
    else if x < 0xE0 then
      Of(k, 0x70, 0x3E, 0xB5, 0x66, 0x48, 0x03, 0xF6, 0x0E, 0x61, 0x35, 0x57, 0xB9, 0x86, 0xC1, 0x1D, 0x9E)
    else if x < 0xF0 then
      Of(k, 0xE1, 0xF8, 0x98, 0x11, 0x69, 0xD9, 0x8E, 0x94, 0x9B, 0x1E, 0x87, 0xE9, 0xCE, 0x55, 0x28, 0xDF)
    else
      Of(k, 0x8C, 0xA1, 0x89, 0x0D, 0xBF, 0xE6, 0x42, 0x68, 0x41, 0x99, 0x2D, 0x0F, 0xB0, 0x54, 0xBB, 0x16)
  }

  /** Its inverse. */
  function Si(x: uint8): uint8 {
    var k := x & 0x0F;
    if x < 0x10 then
      Of(k, 0x52, 0x09, 0x6A, 0xD5, 0x30, 0x36, 0xA5, 0x38, 0xBF, 0x40, 0xA3, 0x9E, 0x81, 0xF3, 0xD7, 0xFB)
    else if x < 0x20 then
      Of(k, 0x7C, 0xE3, 0x39, 0x82, 0x9B, 0x2F, 0xFF, 0x87, 0x34, 0x8E, 0x43, 0x44, 0xC4, 0xDE, 0xE9, 0xCB)
    else if x < 0x30 then
      Of(k, 0x54, 0x7B, 0x94, 0x32, 0xA6, 0xC2, 0x23, 0x3D, 0xEE, 0x4C, 0x95, 0x0B, 0x42, 0xFA, 0xC3, 0x4E)
    else if x < 0x40 then
      Of(k, 0x08, 0x2E, 0xA1, 0x66, 0x28, 0xD9, 0x24, 0xB2, 0x76, 0x5B, 0xA2, 0x49, 0x6D, 0x8B, 0xD1, 0x25)
    else if x < 0x50 then
      Of(k, 0x72, 0xF8, 0xF6, 0x64, 0x86, 0x68, 0x98, 0x16, 0xD4, 0xA4, 0x5C, 0xCC, 0x5D, 0x65, 0xB6, 0x92)
    else if x < 0x60 then
      Of(k, 0x6C, 0x70, 0x48, 0x50, 0xFD, 0xED, 0xB9, 0xDA, 0x5E, 0x15, 0x46, 0x57, 0xA7, 0x8D, 0x9D, 0x84)
    else if x < 0x70 then
      Of(k, 0x90, 0xD8, 0xAB, 0x00, 0x8C, 0xBC, 0xD3, 0x0A, 0xF7, 0xE4, 0x58, 0x05, 0xB8, 0xB3, 0x45, 0x06)
    else if x < 0x80 then
      Of(k, 0xD0, 0x2C, 0x1E, 0x8F, 0xCA, 0x3F, 0x0F, 0x02, 0xC1, 0xAF, 0xBD, 0x03, 0x01, 0x13, 0x8A, 0x6B)
    else if x < 0x90 then
      Of(k, 0x3A, 0x91, 0x11, 0x41, 0x4F, 0x67, 0xDC, 0xEA, 0x97, 0xF2, 0xCF, 0xCE, 0xF0, 0xB4, 0xE6, 0x73)
    else if x < 0xA0 then
      Of(k, 0x96, 0xAC, 0x74, 0x22, 0xE7, 0xAD, 0x35, 0x85, 0xE2, 0xF9, 0x37, 0xE8, 0x1C, 0x75, 0xDF, 0x6E)
    else if x < 0xB0 then
      Of(k, 0x47, 0xF1, 0x1A, 0x71, 0x1D, 0x29, 0xC5, 0x89, 0x6F, 0xB7, 0x62, 0x0E, 0xAA, 0x18, 0xBE, 0x1B)
    else if x < 0xC0 then
      Of(k, 0xFC, 0x56, 0x3E, 0x4B, 0xC6, 0xD2, 0x79, 0x20, 0x9A, 0xDB, 0xC0, 0xFE, 0x78, 0xCD, 0x5A, 0xF4)
    else if x < 0xD0 then
      Of(k, 0x1F, 0xDD, 0xA8, 0x33, 0x88, 0x07, 0xC7, 0x31, 0xB1, 0x12, 0x10, 0x59, 0x27, 0x80, 0xEC, 0x5F)
    else if x < 0xE0 then
      Of(k, 0x60, 0x51, 0x7F, 0xA9, 0x19, 0xB5, 0x4A, 0x0D, 0x2D, 0xE5, 0x7A, 0x9F, 0x93, 0xC9, 0x9C, 0xEF)
    else if x < 0xF0 then
      Of(k, 0xA0, 0xE0, 0x3B, 0x4D, 0xAE, 0x2A, 0xF5, 0xB0, 0xC8, 0xEB, 0xBB, 0x3C, 0x83, 0x53, 0x99, 0x61)
    else
      Of(k, 0x17, 0x2B, 0x04, 0x7E, 0xBA, 0x77, 0xD6, 0x26, 0xE1, 0x69, 0x14, 0x63, 0x55, 0x21, 0x0C, 0x7D)
  }

  function Tables(): Boxes { Boxes(S, Si) }

  lemma InverseAt(x: uint8)
    ensures Si(S(x)) == x
  {
    hide S, Si;
    if x < 0x80 {
      InverseLow(x);
    } else {
      InverseHigh(x);
    }
  }

  lemma InverseLow(x: uint8)
    requires x < 0x80
    ensures Si(S(x)) == x
  {
  }

  lemma InverseHigh(x: uint8)
    requires x >= 0x80
    ensures Si(S(x)) == x
  {
  }

  /** What the round trips ask of the boxes. */
  lemma TablesInverse()
    ensures Tables().Inverse()
  {
    forall x
      ensures Si(S(x)) == x
    {
      InverseAt(x);
    }
    hide S, Si;
  }

  // ---------------------------------------------------------------- one round, one row of keys

  function Hex(w: bv32): Word {
    Word((w >> 24) as uint8, ((w >> 16) & 0xFF) as uint8, ((w >> 8) & 0xFF) as uint8, (w & 0xFF) as uint8)
  }

  /** Four columns. */
  datatype Row = Row(c0: Word, c1: Word, c2: Word, c3: Word)

  /** The rows of the expanded key in appendix C.1 of FIPS 197. */
  function K0(): Row { Row(Hex(0x0001_0203), Hex(0x0405_0607), Hex(0x0809_0A0B), Hex(0x0C0D_0E0F)) }
  function K1(): Row { Row(Hex(0xD6AA_74FD), Hex(0xD2AF_72FA), Hex(0xDAA6_78F1), Hex(0xD6AB_76FE)) }
  function K2(): Row { Row(Hex(0xB692_CF0B), Hex(0x643D_BDF1), Hex(0xBE9B_C500), Hex(0x6830_B3FE)) }
  function K3(): Row { Row(Hex(0xB6FF_744E), Hex(0xD2C2_C9BF), Hex(0x6C59_0CBF), Hex(0x0469_BF41)) }
  function K4(): Row { Row(Hex(0x47F7_F7BC), Hex(0x9535_3E03), Hex(0xF96C_32BC), Hex(0xFD05_8DFD)) }
  function K5(): Row { Row(Hex(0x3CAA_A3E8), Hex(0xA99F_9DEB), Hex(0x50F3_AF57), Hex(0xADF6_22AA)) }
  function K6(): Row { Row(Hex(0x5E39_0F7D), Hex(0xF7A6_9296), Hex(0xA755_3DC1), Hex(0x0AA3_1F6B)) }
  function K7(): Row { Row(Hex(0x14F9_701A), Hex(0xE35F_E28C), Hex(0x440A_DF4D), Hex(0x4EA9_C026)) }
  function K8(): Row { Row(Hex(0x4743_8735), Hex(0xA41C_65B9), Hex(0xE016_BAF4), Hex(0xAEBF_7AD2)) }
  function K9(): Row { Row(Hex(0x5499_32D1), Hex(0xF085_5768), Hex(0x1093_ED9C), Hex(0xBE2C_974E)) }
  function K10(): Row { Row(Hex(0x1311_1D7F), Hex(0xE394_4A17), Hex(0xF307_A78B), Hex(0x4D2B_30C5)) }

  /** And the states behind the rounds. */
  function T0(): Row { Row(Hex(0x0010_2030), Hex(0x4050_6070), Hex(0x8090_A0B0), Hex(0xC0D0_E0F0)) }
  function T1(): Row { Row(Hex(0x89D8_10E8), Hex(0x855A_CE68), Hex(0x2D18_43D8), Hex(0xCB12_8FE4)) }
  function T2(): Row { Row(Hex(0x4915_598F), Hex(0x55E5_D7A0), Hex(0xDACA_94FA), Hex(0x1F0A_63F7)) }
  function T3(): Row { Row(Hex(0xFA63_6A28), Hex(0x25B3_39C9), Hex(0x4066_8A31), Hex(0x5724_4D17)) }
  function T4(): Row { Row(Hex(0x2472_4023), Hex(0x6966_B3FA), Hex(0x6ED2_7532), Hex(0x8842_5B6C)) }
  function T5(): Row { Row(Hex(0xC816_77BC), Hex(0x9B7A_C93B), Hex(0x2502_7992), Hex(0xB026_1996)) }
  function T6(): Row { Row(Hex(0xC62F_E109), Hex(0xF75E_EDC3), Hex(0xCC79_395D), Hex(0x84F9_CF5D)) }
  function T7(): Row { Row(Hex(0xD187_6C0F), Hex(0x79C4_300A), Hex(0xB455_94AD), Hex(0xD66F_F41F)) }
  function T8(): Row { Row(Hex(0xFDE3_BAD2), Hex(0x05E5_D0D7), Hex(0x3547_964E), Hex(0xF1FE_37F1)) }
  function T9(): Row { Row(Hex(0xBD6E_7C3D), Hex(0xF2B5_779E), Hex(0x0B61_216E), Hex(0x8B10_B689)) }
  function T10(): Row { Row(Hex(0x69C4_E0D8), Hex(0x6A7B_0430), Hex(0xD8CD_B780), Hex(0x70B4_C55A)) }

  /** Each row follows from the one before, word by word. */
  predicate KeyFollows(k: Row, k': Row, rcon: uint8) {
    && k'.c0 == Xor(k.c0, Xor(SubWord(S, RotWord(k.c3)), Word(rcon, 0, 0, 0)))
    && k'.c1 == Xor(k.c1, k'.c0) && k'.c2 == Xor(k.c2, k'.c1) && k'.c3 == Xor(k.c3, k'.c2)
  }

  predicate StateFollows(t: Row, t': Row, k: Row, mix: bool) {
    && t'.c0 == Column(t.c0, t.c1, t.c2, t.c3, k.c0, mix)
    && t'.c1 == Column(t.c1, t.c2, t.c3, t.c0, k.c1, mix)
    && t'.c2 == Column(t.c2, t.c3, t.c0, t.c1, k.c2, mix)
    && t'.c3 == Column(t.c3, t.c0, t.c1, t.c2, k.c3, mix)
  }

  /** A column of the next state, for blocks of four; the last round does not mix. */
  function Column(t0: Word, t1: Word, t2: Word, t3: Word, k: Word, mix: bool): Word {
    var t := Word(S(t0.b0), S(t1.b1), S(t2.b2), S(t3.b3));
    Xor(if mix then Mix(t) else t, k)
  }

  lemma Round1()
    ensures KeyFollows(K0(), K1(), 0x01) && StateFollows(T0(), T1(), K1(), true)
  {
  }

  lemma Round2()
    ensures KeyFollows(K1(), K2(), 0x02) && StateFollows(T1(), T2(), K2(), true)
  {
  }

  lemma Round3()
    ensures KeyFollows(K2(), K3(), 0x04) && StateFollows(T2(), T3(), K3(), true)
  {
  }

  lemma Round4()
    ensures KeyFollows(K3(), K4(), 0x08) && StateFollows(T3(), T4(), K4(), true)
  {
  }

  lemma Round5()
    ensures KeyFollows(K4(), K5(), 0x10) && StateFollows(T4(), T5(), K5(), true)
  {
  }

  lemma Round6()
    ensures KeyFollows(K5(), K6(), 0x20) && StateFollows(T5(), T6(), K6(), true)
  {
  }

  lemma Round7()
    ensures KeyFollows(K6(), K7(), 0x40) && StateFollows(T6(), T7(), K7(), true)
  {
  }

  lemma Round8()
    ensures KeyFollows(K7(), K8(), 0x80) && StateFollows(T7(), T8(), K8(), true)
  {
  }

  lemma Round9()
    ensures KeyFollows(K8(), K9(), 0x1B) && StateFollows(T8(), T9(), K9(), true)
  {
  }

  lemma Round10()
    ensures KeyFollows(K9(), K10(), 0x36) && StateFollows(T9(), T10(), K10(), false)
  {
  }

  // ---------------------------------------------------------------- the whole example

  function ExampleKey(): Bytes {
    [0x00, 0x01, 0x02, 0x03, 0x04, 0x05, 0x06, 0x07, 0x08, 0x09, 0x0A, 0x0B, 0x0C, 0x0D, 0x0E, 0x0F]
  }

  function Plain(): Bytes {
    [0x00, 0x11, 0x22, 0x33, 0x44, 0x55, 0x66, 0x77, 0x88, 0x99, 0xAA, 0xBB, 0xCC, 0xDD, 0xEE, 0xFF]
  }

  function Answer(): Bytes {
    [0x69, 0xC4, 0xE0, 0xD8, 0x6A, 0x7B, 0x04, 0x30, 0xD8, 0xCD, 0xB7, 0x80, 0x70, 0xB4, 0xC5, 0x5A]
  }

  function Columns(t: Row): State { [t.c0, t.c1, t.c2, t.c3] }

  /** `ke` is the expansion of a key of 128 bits for blocks of 128 bits. */
  ghost predicate Schedule(ke: seq<State>, key: seq<Word>) {
    && Keys(ke, 10, 4) && KeyWords(|key|)
    && forall r: nat, j: nat | r <= 10 && j < 4 :: ke[r][j] == Expanded(S, key, 4 * r + j)
  }

  /** A group of the expansion, from the one before. */
  lemma NextKeys(ke: seq<State>, key: seq<Word>, r: nat, k: Row, k': Row)
    requires Schedule(ke, key) && |key| == 4 && 0 < r <= 10
    requires ke[r - 1] == Columns(k) && KeyFollows(k, k', Rcon(r - 1))
    ensures ke[r] == Columns(k')
  {
    hide *;
    NextKey(ke, key, r, 0);
    NextKey(ke, key, r, 1);
    NextKey(ke, key, r, 2);
    NextKey(ke, key, r, 3);
    RowIs(ke[r - 1], ke[r], k, k', Rcon(r - 1));
  }

  lemma RowIs(p: State, q: State, k: Row, k': Row, rcon: uint8)
    requires |p| == |q| == 4 && p == Columns(k) && KeyFollows(k, k', rcon)
    requires q[0] == Xor(p[0], Xor(SubWord(S, RotWord(p[3])), Word(rcon, 0, 0, 0)))
    requires q[1] == Xor(p[1], q[0]) && q[2] == Xor(p[2], q[1]) && q[3] == Xor(p[3], q[2])
    ensures q == Columns(k')
  {
    hide SubWord, RotWord, Xor, S;
    assert p[0] == k.c0 && p[1] == k.c1 && p[2] == k.c2 && p[3] == k.c3;
  }

  lemma NextKey(ke: seq<State>, key: seq<Word>, r: nat, j: nat)
    requires Schedule(ke, key) && |key| == 4 && 0 < r <= 10 && j < 4
    ensures |ke| == 11 && |ke[r]| == |ke[r - 1]| == 4
    ensures ke[r][j] == Xor(ke[r - 1][j],
                            if j == 0 then Xor(SubWord(S, RotWord(ke[r - 1][3])), Word(Rcon(r - 1), 0, 0, 0))
                            else ke[r][j - 1])
  {
    hide *;
    NextWord(key, r, j);
    KeyAt(ke, key, r, j);
    KeyAt(ke, key, r - 1, j);
    if j == 0 {
      KeyAt(ke, key, r - 1, 3);
    } else {
      KeyAt(ke, key, r, j - 1);
    }
  }

  lemma KeyAt(ke: seq<State>, key: seq<Word>, r: nat, j: nat)
    requires Schedule(ke, key) && |key| == 4 && r <= 10 && j < 4
    ensures |ke| == 11 && |ke[r]| == 4 && ke[r][j] == Expanded(S, key, 4 * r + j)
  {
    hide Expanded;
  }

  lemma NextWord(key: seq<Word>, r: nat, j: nat)
    requires |key| == 4 && 0 < r && j < 4
    ensures var w, prev := Expanded(S, key, 4 * (r - 1) + j), Expanded(S, key, 4 * r + j - 1);
            Expanded(S, key, 4 * r + j) ==
            Xor(w, if j == 0 then Xor(SubWord(S, RotWord(prev)), Word(Rcon(r - 1), 0, 0, 0)) else prev)
  {
    hide SubWord, RotWord, Rcon, Xor, S;
  }

  lemma FourColumns(box: uint8 -> uint8, t: Row)
    ensures SubShift(box, EncOffsets(4), Columns(t)) ==
            [Word(box(t.c0.b0), box(t.c1.b1), box(t.c2.b2), box(t.c3.b3)),
             Word(box(t.c1.b0), box(t.c2.b1), box(t.c3.b2), box(t.c0.b3)),
             Word(box(t.c2.b0), box(t.c3.b1), box(t.c0.b2), box(t.c1.b3)),
             Word(box(t.c3.b0), box(t.c0.b1), box(t.c1.b2), box(t.c2.b3))]
  {
    var s, o := Columns(t), EncOffsets(4);
    assert ShiftedColumn(box, o, s, 0) == Word(box(t.c0.b0), box(t.c1.b1), box(t.c2.b2), box(t.c3.b3));
    assert ShiftedColumn(box, o, s, 1) == Word(box(t.c1.b0), box(t.c2.b1), box(t.c3.b2), box(t.c0.b3));
    assert ShiftedColumn(box, o, s, 2) == Word(box(t.c2.b0), box(t.c3.b1), box(t.c0.b2), box(t.c1.b3));
    assert ShiftedColumn(box, o, s, 3) == Word(box(t.c3.b0), box(t.c0.b1), box(t.c1.b2), box(t.c2.b3));
    hide ShiftedColumn, EncOffsets, Columns;
  }

  lemma NextState(t: Row, t': Row, k: Row, mix: bool)
    requires StateFollows(t, t', k, mix)
    ensures var s := SubShift(S, EncOffsets(4), Columns(t));
            Columns(t') == XorRow(if mix then MixRow(s) else s, Columns(k))
  {
    FourColumns(S, t);
    hide SubShift, EncOffsets, S, Mix, Xor;
  }

  /** After `r` rounds of the cipher. */
  ghost predicate Reached(ke: seq<State>, x: State, r: nat, t: Row, k: Row)
    requires Keys(ke, 10, 4)
  {
    r < 10 && |x| == 4 && Enciphered(Tables(), ke, 10, x, r) == Columns(t) && ke[r] == Columns(k)
  }

  lemma NextRound(ke: seq<State>, key: seq<Word>, x: State, r: nat, t: Row, t': Row, k: Row, k': Row)
    requires Schedule(ke, key) && |key| == 4 && 0 < r < 10 && Reached(ke, x, r - 1, t, k)
    requires KeyFollows(k, k', Rcon(r - 1)) && StateFollows(t, t', k', true)
    ensures Reached(ke, x, r, t', k')
  {
    NextKeys(ke, key, r, k, k');
    NextState(t, t', k', true);
    hide KeyFollows, StateFollows, SubShift, EncOffsets, S, Rcon, Columns, Expanded, XorRow, MixRow;
  }

  lemma LastRound(ke: seq<State>, key: seq<Word>, x: State, t: Row, t': Row, k: Row, k': Row)
    requires Schedule(ke, key) && |key| == 4 && Reached(ke, x, 9, t, k)
    requires KeyFollows(k, k', Rcon(9)) && StateFollows(t, t', k', false)
    ensures Cipher(Tables(), ke, 10, x) == Columns(t')
  {
    NextKeys(ke, key, 10, k, k');
    NextState(t, t', k', false);
    hide KeyFollows, StateFollows, SubShift, EncOffsets, S, Rcon, Columns, Expanded, XorRow, MixRow, Enciphered;
  }

  /** Appendix C.1 of FIPS 197: for the tables of the source, the block comes out as it does there. */
  lemma Fips197(ke: seq<State>)
    requires Schedule(ke, Pack(ExampleKey()))
    ensures CipherOn(Tables(), ke, Rounds(16, 16), 16)(Plain()) == Answer()
  {
    var key, x := Pack(ExampleKey()), Pack(Plain());
    Begin(ke);
    RconTable();
    Rounds1To9(ke, key, x);
    Round10();
    LastRound(ke, key, x, T9(), T10(), K9(), K10());
    AnswerIs();
    hide *;
  }

  lemma Begin(ke: seq<State>)
    requires Schedule(ke, Pack(ExampleKey()))
    ensures |Pack(ExampleKey())| == 4 && Reached(ke, Pack(Plain()), 0, T0(), K0())
  {
    var key, x := Pack(ExampleKey()), Pack(Plain());
    assert key == Columns(K0());
    assert ke[0] == key;
    assert XorRow(x, key) == Columns(T0());
  }

  lemma AnswerIs()
    ensures Unpack(Columns(T10())) == Answer()
  {
  }

  lemma Rounds1To9(ke: seq<State>, key: seq<Word>, x: State)
    requires Schedule(ke, key) && |key| == 4 && Keys(ke, 10, 4) && Reached(ke, x, 0, T0(), K0())
    ensures Reached(ke, x, 9, T9(), K9())
  {
    RconTable();
    hide *;
    Round1();
    NextRound(ke, key, x, 1, T0(), T1(), K0(), K1());
    Round2();
    NextRound(ke, key, x, 2, T1(), T2(), K1(), K2());
    Round3();
    NextRound(ke, key, x, 3, T2(), T3(), K2(), K3());
    Round4();
    NextRound(ke, key, x, 4, T3(), T4(), K3(), K4());
    Round5();
    NextRound(ke, key, x, 5, T4(), T5(), K4(), K5());
    Round6();
    NextRound(ke, key, x, 6, T5(), T6(), K5(), K6());
    Round7();
    NextRound(ke, key, x, 7, T6(), T7(), K6(), K7());
    Round8();
    NextRound(ke, key, x, 8, T7(), T8(), K7(), K8());
    Round9();
    NextRound(ke, key, x, 9, T8(), T9(), K8(), K9());
  }

  /** The round constants of the source are the powers of x. */
  lemma RconTable()
    ensures Rcon(0) == 0x01 && Rcon(1) == 0x02 && Rcon(2) == 0x04 && Rcon(3) == 0x08 && Rcon(4) == 0x10
    ensures Rcon(5) == 0x20 && Rcon(6) == 0x40 && Rcon(7) == 0x80 && Rcon(8) == 0x1B && Rcon(9) == 0x36
    ensures Rcon(10) == 0x6C && Rcon(11) == 0xD8 && Rcon(12) == 0xAB && Rcon(13) == 0x4D && Rcon(14) == 0x9A
    ensures Rcon(15) == 0x2F && Rcon(16) == 0x5E && Rcon(17) == 0xBC && Rcon(18) == 0x63 && Rcon(19) == 0xC6
    ensures Rcon(20) == 0x97 && Rcon(21) == 0x35 && Rcon(22) == 0x6A && Rcon(23) == 0xD4 && Rcon(24) == 0xB3
    ensures Rcon(25) == 0x7D && Rcon(26) == 0xFA && Rcon(27) == 0xEF && Rcon(28) == 0xC5 && Rcon(29) == 0x91
  {
  }

  /** The same for an object that has made the key. */
  lemma ObjectAnswers(c: CRijndael)
    requires c.Valid() && c.m_bKeyInit && c.box == Tables() && c.m_keylength == c.m_blockSize == 16
    requires c.Fit() && c.IsExpansion(Pack(ExampleKey()))
    ensures c.Enc()(Plain()) == Answer()
  {
    var key, ke := Pack(ExampleKey()), c.Rows(c.m_Ke);
    assert |key| == 4 && c.m_iROUNDS == 10;
    hide Expanded, S, Si, Pack, ExampleKey;
    forall r: nat, j: nat | r <= 10 && j < 4
      ensures ke[r][j] == Expanded(S, key, 4 * r + j)
    {
      assert ke[r][j] == c.m_Ke[r, j];
      assert At(r, j, 4) == 4 * r + j;
    }
    Fips197(ke);
  }

  // ---------------------------------------------------------------- the other sizes

  /** The number of rounds follows the longer of key and block (table 8 of the Rijndael proposal). */
  lemma RoundsAre(keylength: nat, blockSize: nat)
    requires Length(keylength) && Length(blockSize)
    ensures Rounds(keylength, blockSize) == (if keylength > blockSize then keylength else blockSize) / 4 + 6
  {
  }

  /** From which columns a column takes its bytes, for blocks of 4, 6 and 8 columns. */
  lemma ColumnsFrom(box: uint8 -> uint8, t: State, i: nat)
    requires BlockWords(|t|) && i < |t|
    ensures var n := |t|;
            SubShift(box, EncOffsets(n), t)[i] ==
            Word(box(t[i].b0), box(t[(i + 1) % n].b1), box(t[(i + if n == 8 then 3 else 2) % n].b2),
                 box(t[(i + if n == 8 then 4 else 3) % n].b3))
  {
  }

  /** The first new words of appendix A.2 of FIPS 197, for a key of 192 bits. */
  lemma Expansion192()
    ensures var key := [Hex(0x8E73_B0F7), Hex(0xDA0E_6452), Hex(0xC810_F32B), Hex(0x8090_79E5), Hex(0x62F8_EAD2),
                        Hex(0x522C_6B7B)];
            Expanded(S, key, 6) == Hex(0xFE0C_91F7) && Expanded(S, key, 7) == Hex(0x2402_F5A5)
  {
  }

  /** And of appendix A.3, for a key of 256 bits, as far as the word that is substituted without rotation. */
  lemma Expansion256()
    ensures var key := [Hex(0x603D_EB10), Hex(0x15CA_71BE), Hex(0x2B73_AEF0), Hex(0x857D_7781), Hex(0x1F35_2C07),
                        Hex(0x3B61_08D7), Hex(0x2D98_10A3), Hex(0x0914_DFF4)];
            Expanded(S, key, 11) == Hex(0x2067_FCDE) && Expanded(S, key, 12) == Hex(0xA8B0_9C1A)
  {
    var key := [Hex(0x603D_EB10), Hex(0x15CA_71BE), Hex(0x2B73_AEF0), Hex(0x857D_7781), Hex(0x1F35_2C07),
                Hex(0x3B61_08D7), Hex(0x2D98_10A3), Hex(0x0914_DFF4)];
    assert Expanded(S, key, 8) == Hex(0x9BA3_5411);
    assert Expanded(S, key, 9) == Hex(0x8E69_25AF);
    assert Expanded(S, key, 10) == Hex(0xA51A_8B5F);
    assert Expanded(S, key, 11) == Hex(0x2067_FCDE);
  }

  // ---------------------------------------------------------------- the field

  function BitsOf(a: uint8): (b: Bits)
    ensures |b| == 8 && forall i: nat | i < 8 :: b[i] == Crc.Bit(a, 7 - i)
  {
    seq(8, i requires 0 <= i < 8 => Crc.Bit(a, 7 - i))
  }

  /** x^8 + x^4 + x^3 + x + 1 without its leading 1. */
  function FieldPolynomial(): (g: Bits)
    ensures |g| == 8 && forall i | 0 <= i < 8 :: g[i] == (i in {3, 4, 6, 7})
  {
    [false, false, false, true, true, false, true, true]
  }

  /** `X2` is multiplication by x in the field (section 4.2.1 of FIPS 197). */
  lemma X2IsProduct(a: uint8)
    ensures BitsOf(X2(a)) == Remainder(FieldPolynomial(), BitsOf(a) + [false])
  {
    hide BitsOf, FieldPolynomial, X2, Crc.Bit;
    var g, d := FieldPolynomial(), BitsOf(a) + [false];
    RemainderNext(g, d);
    hide DivideStep;
    assert Remainder(g, DivideStep(g, d)) == DivideStep(g, d);
    hide Remainder;
    forall i: nat | i < 8
      ensures BitsOf(X2(a))[i] == DivideStep(g, d)[i]
    {
      X2Bit(a, 7 - i);
    }
  }

  lemma X2Bit(a: uint8, k: nat)
    requires k < 8
    ensures Crc.Bit(X2(a), k) == ((k > 0 && Crc.Bit(a, k - 1)) != (Crc.Bit(a, 7) && k in {0, 1, 3, 4}))
  {
  }
}
