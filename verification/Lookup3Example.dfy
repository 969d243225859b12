/** One hash worked out by hand: the value that the author of the hash function publishes for it. It fixes every
    constant and every rotation amount of src/HashTable.c's mixing. */
module Lookup3Example {
  import opened CTypes
  import opened Lookup3

  function Flip(p: nat, q: nat): nat {
    if p == q then 0 else 1
  }

  /** A hexadecimal digit without its bit of value w, if it has that. */
  function Below(p: nat, w: nat): nat {
    if p >= w then p - w else p
  }

  function Differ(p: nat, q: nat, w: nat): nat {
    if (p >= w) == (q >= w) then 0 else w
  }

  /** The exclusive or of two hexadecimal digits. */
  function Nibble(p: nat, q: nat): nat {
    Differ(p, q, 8) + Differ(Below(p, 8), Below(q, 8), 4) + Differ(Below(Below(p, 8), 4), Below(Below(q, 8), 4), 2)
    + Differ(Below(Below(Below(p, 8), 4), 2), Below(Below(Below(q, 8), 4), 2), 1)
  }

  lemma XorFourBits(x: nat, y: nat, a3: nat, a2: nat, a1: nat, a0: nat, b3: nat, b2: nat, b1: nat, b0: nat)
    requires a3 < 2 && a2 < 2 && a1 < 2 && a0 < 2 && b3 < 2 && b2 < 2 && b1 < 2 && b0 < 2
    ensures XorBits(16 * x + 8 * a3 + 4 * a2 + 2 * a1 + a0, 16 * y + 8 * b3 + 4 * b2 + 2 * b1 + b0)
         == Flip(a0, b0) + 2 * Flip(a1, b1) + 4 * Flip(a2, b2) + 8 * Flip(a3, b3) + 16 * XorBits(x, y)
  {
    hide XorBits;
    XorStep(x, a3, y, b3);
    XorStep(2 * x + a3, a2, 2 * y + b3, b2);
    XorStep(4 * x + 2 * a3 + a2, a1, 4 * y + 2 * b3 + b2, b1);
    XorStep(8 * x + 4 * a3 + 2 * a2 + a1, a0, 8 * y + 4 * b3 + 2 * b2 + b1, b0);
    assert 2 * (8 * x + 4 * a3 + 2 * a2 + a1) + a0 == 16 * x + 8 * a3 + 4 * a2 + 2 * a1 + a0;
    assert 2 * (8 * y + 4 * b3 + 2 * b2 + b1) + b0 == 16 * y + 8 * b3 + 4 * b2 + 2 * b1 + b0;
    assert 2 * (4 * x + 2 * a3 + a2) + a1 == 8 * x + 4 * a3 + 2 * a2 + a1;
    assert 2 * (4 * y + 2 * b3 + b2) + b1 == 8 * y + 4 * b3 + 2 * b2 + b1;
    assert 2 * (2 * x + a3) + a2 == 4 * x + 2 * a3 + a2;
    assert 2 * (2 * y + b3) + b2 == 4 * y + 2 * b3 + b2;
  }

  function Bit(p: nat, w: nat): nat {
    if p >= w then 1 else 0
  }

  lemma XorNibble(x: nat, y: nat, p: nat, q: nat)
    requires p < 16 && q < 16
    ensures XorBits(p + 16 * x, q + 16 * y) == Nibble(p, q) + 16 * XorBits(x, y)
  {
    hide XorBits;
    var p2, q2 := Below(p, 8), Below(q, 8);
    var p1, q1 := Below(p2, 4), Below(q2, 4);
    var p0, q0 := Below(p1, 2), Below(q1, 2);
    XorFourBits(x, y, Bit(p, 8), Bit(p2, 4), Bit(p1, 2), p0, Bit(q, 8), Bit(q2, 4), Bit(q1, 2), q0);
  }

  lemma XorIsBits(x: uint32, y: uint32)
    ensures Xor(x, y) == XorBits(x, y)
  {
    hide XorBits;
  }

  lemma XorKnown(x: uint32, y: uint32, p7: nat, p6: nat, p5: nat, p4: nat, p3: nat, p2: nat, p1: nat, p0: nat,
                 q7: nat, q6: nat, q5: nat, q4: nat, q3: nat, q2: nat, q1: nat, q0: nat)
    requires p7 < 16 && p6 < 16 && p5 < 16 && p4 < 16 && p3 < 16 && p2 < 16 && p1 < 16 && p0 < 16
    requires q7 < 16 && q6 < 16 && q5 < 16 && q4 < 16 && q3 < 16 && q2 < 16 && q1 < 16 && q0 < 16
    requires x == p0 + 16 * (p1 + 16 * (p2 + 16 * (p3 + 16 * (p4 + 16 * (p5 + 16 * (p6 + 16 * p7))))))
    requires y == q0 + 16 * (q1 + 16 * (q2 + 16 * (q3 + 16 * (q4 + 16 * (q5 + 16 * (q6 + 16 * q7))))))
    ensures Xor(x, y) == Nibble(p0, q0) + 16 * (Nibble(p1, q1) + 16 * (Nibble(p2, q2) + 16 * (Nibble(p3, q3)
                         + 16 * (Nibble(p4, q4) + 16 * (Nibble(p5, q5) + 16 * (Nibble(p6, q6) + 16 * Nibble(p7, q7)))))))
  {
    hide *;
    XorIsBits(x, y);
    var x6, y6 := p6 + 16 * p7, q6 + 16 * q7;
    var x5, y5 := p5 + 16 * x6, q5 + 16 * y6;
    var x4, y4 := p4 + 16 * x5, q4 + 16 * y5;
    var x3, y3 := p3 + 16 * x4, q3 + 16 * y4;
    var x2, y2 := p2 + 16 * x3, q2 + 16 * y3;
    var x1, y1 := p1 + 16 * x2, q1 + 16 * y2;
    XorNibble(x1, y1, p0, q0);
    XorNibble(x2, y2, p1, q1);
    XorNibble(x3, y3, p2, q2);
    XorNibble(x4, y4, p3, q3);
    XorNibble(x5, y5, p4, q4);
    XorNibble(x6, y6, p5, q5);
    XorNibble(p7, q7, p6, q6);
    var none: nat := 0;
    XorNibble(none, none, p7, q7);
    XorNone(none);
    assert p7 + 16 * none == p7 && q7 + 16 * none == q7;
  }

  lemma XorNone(x: nat)
    requires x == 0
    ensures XorBits(x, x) == 0
  {
  }

  /** The powers of two that the rotations shift by. */
  function Power(k: nat): nat {
    if k == 4 then 0x10 else if k == 6 then 0x40 else if k == 8 then 0x100 else if k == 11 then 0x800
    else if k == 14 then 0x4000 else if k == 16 then 0x1_0000 else if k == 19 then 0x8_0000
    else if k == 24 then 0x100_0000 else if k == 25 then 0x200_0000 else 1
  }

  lemma PowerIs(k: nat)
    requires k in {4, 6, 8, 11, 14, 16, 19, 24, 25}
    ensures Pow2(k) == Power(k)
  {
    assert Pow2(4) == 0x10;
    assert Pow2(8) == 0x100;
    assert Pow2(11) == 0x800;
    assert Pow2(14) == 0x4000;
    assert Pow2(19) == 0x8_0000;
  }

  lemma RotKnown(x: uint32, k: nat, p: nat, q: nat, upper: nat, lower: nat)
    requires k in {4, 6, 8, 11, 14, 16, 19, 24, 25} && p == Power(k) && p * q == WORD
    requires x == upper * q + lower && upper < p && lower < q
    ensures Rot(x, k) == lower * p + upper
  {
    PowersAdd(k, 32 - k);
    WordIsPow2();
    PowerIs(k);
    hide Pow2, Power, Rot;
    Cancel(p, Pow2(32 - k), q);
    Swapped(x, upper, lower, p, q);
    RotIs(x, k, p, q, lower * p, upper);
  }

  lemma Cancel(p: nat, a: nat, b: nat)
    requires p * a == p * b && 0 < p
    ensures a == b
  {
  }

  lemma LineIs(s: State, k: nat)
    requires k <= 32
    ensures MixLine(s, k) == State(s.b, Add(s.c, s.b), Xor(Sub(s.a, s.c), Rot(s.c, k)))
  {
    hide Xor, Rot;
  }

  lemma BlendIs(x: uint32, y: uint32, k: nat)
    requires k <= 32
    ensures Blend(x, y, k) == Sub(Xor(x, y), Rot(y, k))
  {
    hide Xor, Rot;
  }

  lemma Line1(s: State)
    requires s == State(0x5123_2e53, 0x4e11_322d, 0x3fce_247f)
    ensures MixLine(s, 4) == State(0x4e11_322d, 0x8ddf_56ac, 0xedb7_4e27)
  {
    hide Xor, Rot, MixLine;
    LineIs(s, 4);
    assert Rot(s.c, 4) == 0xfce2_47f3 by { RotKnown(s.c, 4, 0x10, 0x10000000, 0x3, 0xfce247f); }
    XorKnown(Sub(s.a, s.c), Rot(s.c, 4), 0x1, 0x1, 0x5, 0x5, 0x0, 0x9, 0xd, 0x4, 0xf, 0xc, 0xe, 0x2, 0x4, 0x7, 0xf, 0x3);
  }

  lemma Line2(s: State)
    requires s == State(0x4e11_322d, 0x8ddf_56ac, 0xedb7_4e27)
    ensures MixLine(s, 6) == State(0x8ddf_56ac, 0x7b96_a4d3, 0x0d8a_6dfd)
  {
    hide Xor, Rot, MixLine;
    LineIs(s, 6);
    assert Rot(s.c, 6) == 0x6dd3_89fb by { RotKnown(s.c, 6, 0x40, 0x4000000, 0x3b, 0x1b74e27); }
    XorKnown(Sub(s.a, s.c), Rot(s.c, 6), 0x6, 0x0, 0x5, 0x9, 0xe, 0x4, 0x0, 0x6, 0x6, 0xd, 0xd, 0x3, 0x8, 0x9, 0xf, 0xb);
  }

  lemma Line3(s: State)
    requires s == State(0x8ddf_56ac, 0x7b96_a4d3, 0x0d8a_6dfd)
    ensures MixLine(s, 8) == State(0x7b96_a4d3, 0x8921_12d0, 0x0a39_15a2)
  {
    hide Xor, Rot, MixLine;
    LineIs(s, 8);
    assert Rot(s.c, 8) == 0x8a6d_fd0d by { RotKnown(s.c, 8, 0x100, 0x1000000, 0xd, 0x8a6dfd); }
    XorKnown(Sub(s.a, s.c), Rot(s.c, 8), 0x8, 0x0, 0x5, 0x4, 0xe, 0x8, 0xa, 0xf, 0x8, 0xa, 0x6, 0xd, 0xf, 0xd, 0x0, 0xd);
  }

  lemma Line4(s: State)
    requires s == State(0x7b96_a4d3, 0x8921_12d0, 0x0a39_15a2)
    ensures MixLine(s, 16) == State(0x8921_12d0, 0x935a_2872, 0x64ff_8508)
  {
    hide Xor, Rot, MixLine;
    LineIs(s, 16);
    assert Rot(s.c, 16) == 0x15a2_0a39 by { RotKnown(s.c, 16, 0x10000, 0x10000, 0xa39, 0x15a2); }
    XorKnown(Sub(s.a, s.c), Rot(s.c, 16), 0x7, 0x1, 0x5, 0xd, 0x8, 0xf, 0x3, 0x1, 0x1, 0x5, 0xa, 0x2, 0x0, 0xa, 0x3, 0x9);
  }

  lemma Line5(s: State)
    requires s == State(0x8921_12d0, 0x935a_2872, 0x64ff_8508)
    ensures MixLine(s, 19) == State(0x935a_2872, 0xf859_ad7a, 0x0c62_aa34)
  {
    hide Xor, Rot, MixLine;
    LineIs(s, 19);
    assert Rot(s.c, 19) == 0x2843_27fc by { RotKnown(s.c, 19, 0x80000, 0x2000, 0x327fc, 0x508); }
    XorKnown(Sub(s.a, s.c), Rot(s.c, 19), 0x2, 0x4, 0x2, 0x1, 0x8, 0xd, 0xc, 0x8, 0x2, 0x8, 0x4, 0x3, 0x2, 0x7, 0xf, 0xc);
  }

  lemma Line6(s: State)
    requires s == State(0x935a_2872, 0xf859_ad7a, 0x0c62_aa34)
    ensures MixLine(s, 4) == State(0xf859_ad7a, 0x04bc_57ae, 0x40dd_dd7e)
  {
    hide Xor, Rot, MixLine;
    LineIs(s, 4);
    assert Rot(s.c, 4) == 0xc62a_a340 by { RotKnown(s.c, 4, 0x10, 0x10000000, 0x0, 0xc62aa34); }
    XorKnown(Sub(s.a, s.c), Rot(s.c, 4), 0x8, 0x6, 0xf, 0x7, 0x7, 0xe, 0x3, 0xe, 0xc, 0x6, 0x2, 0xa, 0xa, 0x3, 0x4, 0x0);
  }

  lemma Line7(s: State)
    requires s == State(0x6b7a_11e8, 0x7321_ce13, 0xa243_569e)
    ensures MixLine(s, 4) == State(0x7321_ce13, 0x1565_24b1, 0xed03_d2a0)
  {
    hide Xor, Rot, MixLine;
    LineIs(s, 4);
    assert Rot(s.c, 4) == 0x2435_69ea by { RotKnown(s.c, 4, 0x10, 0x10000000, 0xa, 0x243569e); }
    XorKnown(Sub(s.a, s.c), Rot(s.c, 4), 0xc, 0x9, 0x3, 0x6, 0xb, 0xb, 0x4, 0xa, 0x2, 0x4, 0x3, 0x5, 0x6, 0x9, 0xe, 0xa);
  }

  lemma Line8(s: State)
    requires s == State(0x7321_ce13, 0x1565_24b1, 0xed03_d2a0)
    ensures MixLine(s, 6) == State(0x1565_24b1, 0x0268_f751, 0xc6e9_5348)
  {
    hide Xor, Rot, MixLine;
    LineIs(s, 6);
    assert Rot(s.c, 6) == 0x40f4_a83b by { RotKnown(s.c, 6, 0x40, 0x4000000, 0x3b, 0x103d2a0); }
    XorKnown(Sub(s.a, s.c), Rot(s.c, 6), 0x8, 0x6, 0x1, 0xd, 0xf, 0xb, 0x7, 0x3, 0x4, 0x0, 0xf, 0x4, 0xa, 0x8, 0x3, 0xb);
  }

  lemma Line9(s: State)
    requires s == State(0x1565_24b1, 0x0268_f751, 0xc6e9_5348)
    ensures MixLine(s, 8) == State(0x0268_f751, 0xc952_4a99, 0xa728_99af)
  {
    hide Xor, Rot, MixLine;
    LineIs(s, 8);
    assert Rot(s.c, 8) == 0xe953_48c6 by { RotKnown(s.c, 8, 0x100, 0x1000000, 0xc6, 0xe95348); }
    XorKnown(Sub(s.a, s.c), Rot(s.c, 8), 0x4, 0xe, 0x7, 0xb, 0xd, 0x1, 0x6, 0x9, 0xe, 0x9, 0x5, 0x3, 0x4, 0x8, 0xc, 0x6);
  }

  lemma Line10(s: State)
    requires s == State(0x0268_f751, 0xc952_4a99, 0xa728_99af)
    ensures MixLine(s, 16) == State(0xc952_4a99, 0x707a_e448, 0xc2ef_fa8a)
  {
    hide Xor, Rot, MixLine;
    LineIs(s, 16);
    assert Rot(s.c, 16) == 0x99af_a728 by { RotKnown(s.c, 16, 0x10000, 0x10000, 0xa728, 0x99af); }
    XorKnown(Sub(s.a, s.c), Rot(s.c, 16), 0x5, 0xb, 0x4, 0x0, 0x5, 0xd, 0xa, 0x2, 0x9, 0x9, 0xa, 0xf, 0xa, 0x7, 0x2, 0x8);
  }

  lemma Line11(s: State)
    requires s == State(0xc952_4a99, 0x707a_e448, 0xc2ef_fa8a)
    ensures MixLine(s, 19) == State(0x707a_e448, 0x336a_ded2, 0xd234_4770)
  {
    hide Xor, Rot, MixLine;
    LineIs(s, 19);
    assert Rot(s.c, 19) == 0xd456_177f by { RotKnown(s.c, 19, 0x80000, 0x2000, 0x6177f, 0x1a8a); }
    XorKnown(Sub(s.a, s.c), Rot(s.c, 19), 0x0, 0x6, 0x6, 0x2, 0x5, 0x0, 0x0, 0xf, 0xd, 0x4, 0x5, 0x6, 0x1, 0x7, 0x7, 0xf);
  }

  lemma Line12(s: State)
    requires s == State(0x707a_e448, 0x336a_ded2, 0xd234_4770)
    ensures MixLine(s, 4) == State(0x336a_ded2, 0x059f_2642, 0xbd02_ebd5)
  {
    hide Xor, Rot, MixLine;
    LineIs(s, 4);
    assert Rot(s.c, 4) == 0x2344_770d by { RotKnown(s.c, 4, 0x10, 0x10000000, 0xd, 0x2344770); }
    XorKnown(Sub(s.a, s.c), Rot(s.c, 4), 0x9, 0xe, 0x4, 0x6, 0x9, 0xc, 0xd, 0x8, 0x2, 0x3, 0x4, 0x4, 0x7, 0x7, 0x0, 0xd);
  }

  lemma Line13(x: uint32, y: uint32)
    requires x == 0xbd02_ebd5 && y == 0x059f_95a9
    ensures Blend(x, y, 14) == 0xd333_3d15
  {
    hide Xor, Rot, Blend;
    BlendIs(x, y, 14);
    assert Rot(y, 14) == 0xe56a_4167 by { RotKnown(y, 14, 0x4000, 0x40000, 0x167, 0x395a9); }
    assert Xor(x, y) == 0xb89d_7e7c by { XorKnown(x, y, 0xb, 0xd, 0x0, 0x2, 0xe, 0xb, 0xd, 0x5, 0x0, 0x5, 0x9, 0xf, 0x9, 0x5, 0xa, 0x9); }
  }

  lemma Line14(x: uint32, y: uint32)
    requires x == 0x948b_5244 && y == 0xd333_3d15
    ensures Blend(x, y, 11) == 0xadcf_c0b8
  {
    hide Xor, Rot, Blend;
    BlendIs(x, y, 11);
    assert Rot(y, 11) == 0x99e8_ae99 by { RotKnown(y, 11, 0x800, 0x200000, 0x699, 0x133d15); }
    assert Xor(x, y) == 0x47b8_6f51 by { XorKnown(x, y, 0x9, 0x4, 0x8, 0xb, 0x5, 0x2, 0x4, 0x4, 0xd, 0x3, 0x3, 0x3, 0x3, 0xd, 0x1, 0x5); }
  }

  lemma Line15(x: uint32, y: uint32)
    requires x == 0x059f_95a9 && y == 0xadcf_c0b8
    ensures Blend(x, y, 25) == 0x36f4_b590
  {
    hide Xor, Rot, Blend;
    BlendIs(x, y, 25);
    assert Rot(y, 25) == 0x715b_9f81 by { RotKnown(y, 25, 0x2000000, 0x80, 0x15b9f81, 0x38); }
    assert Xor(x, y) == 0xa850_5511 by { XorKnown(x, y, 0x0, 0x5, 0x9, 0xf, 0x9, 0x5, 0xa, 0x9, 0xa, 0xd, 0xc, 0xf, 0xc, 0x0, 0xb, 0x8); }
  }

  lemma Line16(x: uint32, y: uint32)
    requires x == 0xd333_3d15 && y == 0x36f4_b590
    ensures Blend(x, y, 16) == 0x3037_5191
  {
    hide Xor, Rot, Blend;
    BlendIs(x, y, 16);
    assert Rot(y, 16) == 0xb590_36f4 by { RotKnown(y, 16, 0x10000, 0x10000, 0x36f4, 0xb590); }
    assert Xor(x, y) == 0xe5c7_8885 by { XorKnown(x, y, 0xd, 0x3, 0x3, 0x3, 0x3, 0xd, 0x1, 0x5, 0x3, 0x6, 0xf, 0x4, 0xb, 0x5, 0x9, 0x0); }
  }

  lemma Line17(x: uint32, y: uint32)
    requires x == 0xadcf_c0b8 && y == 0x3037_5191
    ensures Blend(x, y, 4) == 0x9a83_7816
  {
    hide Xor, Rot, Blend;
    BlendIs(x, y, 4);
    assert Rot(y, 4) == 0x0375_1913 by { RotKnown(y, 4, 0x10, 0x10000000, 0x3, 0x375191); }
    assert Xor(x, y) == 0x9df8_9129 by { XorKnown(x, y, 0xa, 0xd, 0xc, 0xf, 0xc, 0x0, 0xb, 0x8, 0x3, 0x0, 0x3, 0x7, 0x5, 0x1, 0x9, 0x1); }
  }

  lemma Line18(x: uint32, y: uint32)
    requires x == 0x36f4_b590 && y == 0x9a83_7816
    ensures Blend(x, y, 14) == 0xce72_26e6
  {
    hide Xor, Rot, Blend;
    BlendIs(x, y, 14);
    assert Rot(y, 14) == 0xde05_a6a0 by { RotKnown(y, 14, 0x4000, 0x40000, 0x26a0, 0x37816); }
    assert Xor(x, y) == 0xac77_cd86 by { XorKnown(x, y, 0x3, 0x6, 0xf, 0x4, 0xb, 0x5, 0x9, 0x0, 0x9, 0xa, 0x8, 0x3, 0x7, 0x8, 0x1, 0x6); }
  }

  lemma Line19(x: uint32, y: uint32)
    requires x == 0x3037_5191 && y == 0xce72_26e6
    ensures Blend(x, y, 24) == 0x1777_0551
  {
    hide Xor, Rot, Blend;
    BlendIs(x, y, 24);
    assert Rot(y, 24) == 0xe6ce_7226 by { RotKnown(y, 24, 0x1000000, 0x100, 0xce7226, 0xe6); }
    assert Xor(x, y) == 0xfe45_7777 by { XorKnown(x, y, 0x3, 0x0, 0x3, 0x7, 0x5, 0x1, 0x9, 0x1, 0xc, 0xe, 0x7, 0x2, 0x2, 0x6, 0xe, 0x6); }
  }

  /** "Four score a". */
  lemma FirstBlock(s0: State)
    requires s0 == State(0x5123_2e53, 0x4e11_322d, 0x3fce_247f)
    ensures Mix(s0) == State(0xf859_ad7a, 0x04bc_57ae, 0x40dd_dd7e)
  {
    hide MixLine;
    Line1(s0);
    var s1 := MixLine(s0, 4);
    Line2(s1);
    var s2 := MixLine(s1, 6);
    Line3(s2);
    var s3 := MixLine(s2, 8);
    Line4(s3);
    var s4 := MixLine(s3, 16);
    Line5(s4);
    var s5 := MixLine(s4, 19);
    Line6(s5);
    var s6 := MixLine(s5, 4);
  }

  /** "nd seven yea". */
  lemma SecondBlock(s0: State)
    requires s0 == State(0x6b7a_11e8, 0x7321_ce13, 0xa243_569e)
    ensures Mix(s0) == State(0x336a_ded2, 0x059f_2642, 0xbd02_ebd5)
  {
    hide MixLine;
    Line7(s0);
    var s1 := MixLine(s0, 4);
    Line8(s1);
    var s2 := MixLine(s1, 6);
    Line9(s2);
    var s3 := MixLine(s2, 8);
    Line10(s3);
    var s4 := MixLine(s3, 16);
    Line11(s4);
    var s5 := MixLine(s4, 19);
    Line12(s5);
    var s6 := MixLine(s5, 4);
  }

  /** "rs ago". */
  lemma Tail(s: State)
    requires s == State(0x948b_5244, 0x059f_95a9, 0xbd02_ebd5)
    ensures Final(s).c == 0x1777_0551
  {
    hide Blend;
    Line13(s.c, s.b);
    var c1 := Blend(s.c, s.b, 14);
    Line14(s.a, c1);
    var a1 := Blend(s.a, c1, 11);
    Line15(s.b, a1);
    var b1 := Blend(s.b, a1, 25);
    Line16(c1, b1);
    var c2 := Blend(c1, b1, 16);
    Line17(a1, c2);
    var a2 := Blend(a1, c2, 4);
    Line18(b1, a2);
    var b2 := Blend(b1, a2, 14);
    Line19(c2, b2);
    var c3 := Blend(c2, b2, 24);
  }

  lemma AbsorbSame(s: State, m: seq<byte>, n: seq<byte>)
    requires 12 <= |m| && 12 <= |n| && forall i | 0 <= i < 12 :: m[i] == n[i]
    ensures Absorb(s, m, 0) == Absorb(s, n, 0)
  {
  }

  lemma Unfolded(s: State, block: seq<byte>, rest: seq<byte>)
    requires |block| == 12 && rest != []
    ensures Digest(s, block + rest) == Digest(Mix(Absorb(s, block, 0)), rest)
  {
    hide Mix, Add, Word;
    assert (block + rest)[12..] == rest;
    assert forall i | 0 <= i < 12 :: (block + rest)[i] == block[i];
    AbsorbSame(s, block + rest, block);
  }

  lemma Absorbed(s: State, m: seq<byte>, x: uint32, y: uint32, z: uint32)
    requires |m| == 12 && x == Word(m, 0) && y == Word(m, 4) && z == Word(m, 8)
    ensures Absorb(s, m, 0) == State((s.a + x) % 0x1_0000_0000, (s.b + y) % 0x1_0000_0000, (s.c + z) % 0x1_0000_0000)
  {
    hide Word;
  }

  lemma FirstWords(m: seq<byte>)
    requires m == [70, 111, 117, 114, 32, 115, 99, 111, 114, 101, 32, 97]
    ensures Word(m, 0) == 0x7275_6f46 && Word(m, 4) == 0x6f63_7320 && Word(m, 8) == 0x6120_6572
  {
  }

  lemma SecondWords(m: seq<byte>)
    requires m == [110, 100, 32, 115, 101, 118, 101, 110, 32, 121, 101, 97]
    ensures Word(m, 0) == 0x7320_646e && Word(m, 4) == 0x6e65_7665 && Word(m, 8) == 0x6165_7920
  {
  }

  lemma LastWords(m: seq<byte>)
    requires m == [114, 115, 32, 97, 103, 111]
    ensures Word(Pad(m), 0) == 0x6120_7372 && Word(Pad(m), 4) == 0x0000_6f67 && Word(Pad(m), 8) == 0x0000_0000
  {
    assert Pad(m) == [114, 115, 32, 97, 103, 111, 0, 0, 0, 0, 0, 0];
  }

  lemma FromWords(first: seq<byte>, second: seq<byte>, last: seq<byte>)
    requires |first| == |second| == 12 && |last| == 6
    requires Word(first, 0) == 0x7275_6f46 && Word(first, 4) == 0x6f63_7320 && Word(first, 8) == 0x6120_6572
    requires Word(second, 0) == 0x7320_646e && Word(second, 4) == 0x6e65_7665 && Word(second, 8) == 0x6165_7920
    requires Word(Pad(last), 0) == 0x6120_7372 && Word(Pad(last), 4) == 0x0000_6f67 && Word(Pad(last), 8) == 0x0000_0000
    ensures Hash(first + (second + last), 0) == 0x1777_0551
  {
    hide *;
    var n, padded := |first + (second + last)|, Pad(last);
    var s := Seed(n, 0);
    HashIs(first + (second + last), n);
    Absorbed(s, first, Word(first, 0), Word(first, 4), Word(first, 8));
    Unfolded(s, first, second + last);
    var s1 := Absorb(s, first, 0);
    FirstBlock(s1);
    var s2 := Mix(s1);
    Absorbed(s2, second, Word(second, 0), Word(second, 4), Word(second, 8));
    Unfolded(s2, second, last);
    var s3 := Absorb(s2, second, 0);
    SecondBlock(s3);
    var s4 := Mix(s3);
    Absorbed(s4, padded, Word(padded, 0), Word(padded, 4), Word(padded, 8));
    LastBlock(s4, last);
    Tail(Absorb(s4, padded, 0));
  }

  /** hash("Four score and seven years ago") with initial value 0. */
  lemma KnownHash(first: seq<byte>, second: seq<byte>, last: seq<byte>)
    requires first == [70, 111, 117, 114, 32, 115, 99, 111, 114, 101, 32, 97]
    requires second == [110, 100, 32, 115, 101, 118, 101, 110, 32, 121, 101, 97]
    requires last == [114, 115, 32, 97, 103, 111]
    ensures Hash(first + (second + last), 0) == 0x1777_0551
  {
    FirstWords(first);
    SecondWords(second);
    LastWords(last);
    FromWords(first, second, last);
  }

  lemma HashIs(key: seq<byte>, n: nat)
    requires |key| == n == 30
    ensures Hash(key, 0) == Digest(Seed(n, 0), key).c
    ensures Seed(n, 0) == State(0xdead_bf0d, 0xdead_bf0d, 0xdead_bf0d)
  {
    hide Digest;
  }

  lemma LastBlock(s: State, last: seq<byte>)
    requires 0 < |last| <= 12
    ensures Digest(s, last) == Final(Absorb(s, Pad(last), 0))
  {
    hide Final;
  }
}
