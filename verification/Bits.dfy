/** The bit operators the code applies to unsigned values, defined by binary
    digits, and what its shifts and masks come to as arithmetic. */
module Bits {
  import opened Packet

  function And(x: nat, y: nat): nat
    decreases x
  {
    if x == 0 || y == 0 then 0
    else 2 * And(x / 2, y / 2) + if x % 2 == 1 && y % 2 == 1 then 1 else 0
  }

  function Or(x: nat, y: nat): nat
    decreases x + y
  {
    if x == 0 && y == 0 then 0
    else 2 * Or(x / 2, y / 2) + if x % 2 == 1 || y % 2 == 1 then 1 else 0
  }

  function Shl(x: nat, k: nat): nat
    decreases k
  {
    if k == 0 then x else 2 * Shl(x, k - 1)
  }

  function Shr(x: nat, k: nat): nat
    decreases k
  {
    if k == 0 then x else Shr(x, k - 1) / 2
  }

  // A mask of k one bits.
  function Ones(k: nat): nat
    decreases k
  {
    if k == 0 then 0 else 2 * Ones(k - 1) + 1
  }

  // ----- Laws for every width -----

  lemma {:induction false} ShrInside(x: nat, k: nat)
    ensures Shr(x, k + 1) == Shr(x / 2, k)
    decreases k
  {
    if k > 0 { ShrInside(x, k - 1); }
  }

  lemma {:induction false} ShlEven(x: nat, k: nat)
    ensures Shl(x, k + 1) / 2 == Shl(x, k) && Shl(x, k + 1) % 2 == 0
    decreases k
  {
  }

  lemma {:induction false} OrZero(y: nat)
    ensures Or(0, y) == y
    decreases y
  {
    if y > 0 { OrZero(y / 2); }
  }

  /** Or-ing a shifted value with bits below the shift adds them. */
  lemma {:induction false} OrBelow(x: nat, y: nat, k: nat)
    requires Shr(y, k) == 0
    ensures Or(Shl(x, k), y) == Shl(x, k) + y
    decreases k
  {
    if k == 0 {
      OrIsSymmetric(x, 0);
      OrZero(x);
    } else {
      ShrInside(y, k - 1);
      ShlEven(x, k - 1);
      OrBelow(x, y / 2, k - 1);
    }
  }

  lemma {:induction false} OrIsSymmetric(x: nat, y: nat)
    ensures Or(x, y) == Or(y, x)
    decreases x + y
  {
    if x != 0 || y != 0 { OrIsSymmetric(x / 2, y / 2); }
  }

  /** A mask of k one bits keeps what lies below the k-th bit. */
  lemma {:induction false} AndOnes(x: nat, k: nat)
    ensures x == Shl(Shr(x, k), k) + And(x, Ones(k))
    ensures And(x, Ones(k)) < Shl(1, k)
    decreases k
  {
    if k > 0 {
      AndOnes(x / 2, k - 1);
      ShrInside(x, k - 1);
    }
  }

  /** A shifted mask looks at the bits above the shift. */
  lemma {:induction false} AndShifted(x: nat, y: nat, k: nat)
    ensures And(x, Shl(y, k)) == Shl(And(Shr(x, k), y), k)
    decreases k
  {
    if k > 0 {
      ShlEven(y, k - 1);
      ShrInside(x, k - 1);
      AndShifted(x / 2, y, k - 1);
    }
  }

  lemma {:induction false} ShiftTwice(x: nat, j: nat, k: nat)
    ensures Shl(Shl(x, j), k) == Shl(x, j + k)
    ensures Shr(Shr(x, j), k) == Shr(x, j + k)
    decreases k
  {
    if k > 0 { ShiftTwice(x, j, k - 1); }
  }

  // ----- The shifts and masks of the code -----

  lemma Shl1(x: nat)
    ensures Shl(x, 1) == 0x02 * x
  {
    assert Shl(x, 1) == 2 * Shl(x, 0);
  }

  lemma Shl2(x: nat)
    ensures Shl(x, 2) == 0x04 * x
  {
    Shl1(x);
  }

  lemma Shl3(x: nat)
    ensures Shl(x, 3) == 0x08 * x
  {
    Shl2(x);
  }

  lemma Shl4(x: nat)
    ensures Shl(x, 4) == 0x10 * x
  {
    Shl3(x);
  }

  lemma Shl6(x: nat)
    ensures Shl(x, 6) == 0x40 * x
  {
    Shl4(x);
    assert Shl(x, 5) == 2 * Shl(x, 4);
  }

  lemma Shl7(x: nat)
    ensures Shl(x, 7) == 0x80 * x
  {
    Shl6(x);
  }

  lemma Shl8(x: nat)
    ensures Shl(x, 8) == 0x100 * x
  {
    Shl7(x);
  }

  lemma Shl16(x: nat)
    ensures Shl(x, 16) == 0x1_0000 * x
  {
    hide Shl, Shr;
    Shl8(x);
    Shl8(0x100 * x);
    ShiftTwice(x, 8, 8);
  }

  lemma Shl24(x: nat)
    ensures Shl(x, 24) == 0x100_0000 * x
  {
    hide Shl, Shr;
    Shl16(x);
    Shl8(0x1_0000 * x);
    ShiftTwice(x, 16, 8);
  }

  lemma Shr1(x: nat)
    ensures Shr(x, 1) == x / 0x02
  {
    assert Shr(x, 1) == Shr(x, 0) / 2;
  }

  lemma Shr2(x: nat)
    ensures Shr(x, 2) == x / 0x04
  {
    Shr1(x);
  }

  lemma Shr3(x: nat)
    ensures Shr(x, 3) == x / 0x08
  {
    Shr2(x);
  }

  lemma Shr4(x: nat)
    ensures Shr(x, 4) == x / 0x10
  {
    Shr3(x);
  }

  lemma Shr6(x: nat)
    ensures Shr(x, 6) == x / 0x40
  {
    Shr4(x);
    assert Shr(x, 5) == Shr(x, 4) / 2;
  }

  lemma Shr7(x: nat)
    ensures Shr(x, 7) == x / 0x80
  {
    Shr6(x);
  }

  lemma Shr8(x: nat)
    ensures Shr(x, 8) == x / 0x100
  {
    Shr7(x);
  }

  lemma Shr16(x: nat)
    ensures Shr(x, 16) == x / 0x1_0000
  {
    hide Shl, Shr;
    Shr8(x);
    Shr8(x / 0x100);
    ShiftTwice(x, 8, 8);
  }

  lemma Shr24(x: nat)
    ensures Shr(x, 24) == x / 0x100_0000
  {
    hide Shl, Shr;
    Shr16(x);
    Shr8(x / 0x1_0000);
    ShiftTwice(x, 16, 8);
  }

  lemma MaskWidths()
    ensures Ones(1) == 0x1 && Ones(2) == 0x3 && Ones(3) == 0x7 && Ones(4) == 0xF && Ones(6) == 0x3F && Ones(8) == 0xFF
  {
    assert Ones(5) == 0x1F && Ones(7) == 0x7F;
  }

  lemma Mask1(x: nat)
    ensures And(x, 0x1) == x % 0x2
  {
    hide And, Ones, Shl, Shr;
    MaskWidths(); AndOnes(x, 1); Shl1(1); Shl1(Shr(x, 1));
  }

  lemma Mask2(x: nat)
    ensures And(x, 0x3) == x % 0x4
  {
    hide And, Ones, Shl, Shr;
    MaskWidths(); AndOnes(x, 2); Shl2(1); Shl2(Shr(x, 2));
  }

  lemma Mask3(x: nat)
    ensures And(x, 0x7) == x % 0x8
  {
    hide And, Ones, Shl, Shr;
    MaskWidths(); AndOnes(x, 3); Shl3(1); Shl3(Shr(x, 3));
  }

  lemma Mask4(x: nat)
    ensures And(x, 0xF) == x % 0x10
  {
    hide And, Ones, Shl, Shr;
    MaskWidths(); AndOnes(x, 4); Shl4(1); Shl4(Shr(x, 4));
  }

  lemma Mask6(x: nat)
    ensures And(x, 0x3F) == x % 0x40
  {
    hide And, Ones, Shl, Shr;
    MaskWidths(); AndOnes(x, 6); Shl6(1); Shl6(Shr(x, 6));
  }

  lemma Mask8(x: nat)
    ensures And(x, 0xFF) == x % 0x100
  {
    hide And, Ones, Shl, Shr;
    MaskWidths(); AndOnes(x, 8); Shl8(1); Shl8(Shr(x, 8));
  }

  /** Or-ing one more field below the bits packed so far. */
  lemma PackField(packed: nat, field: nat, k: nat)
    requires field < Shl(1, k)
    ensures Or(Shl(packed, k), field) == Shl(packed, k) + field
  {
    hide Or, Shl;
    ShrOfSmall(field, k);
    OrBelow(packed, field, k);
  }

  lemma {:induction false} ShrOfSmall(x: nat, k: nat)
    requires x < Shl(1, k)
    ensures Shr(x, k) == 0
    decreases k
  {
    if k > 0 {
      ShrInside(x, k - 1);
      ShrOfSmall(x / 2, k - 1);
    }
  }

  /** The two octets of a 16-bit field. */
  lemma JoinTwo(high: nat, low: byte)
    ensures Or(Shl(high, 8), low) == high * 0x100 + low
  {
    hide Or, Shl;
    Shl8(1);
    Shl8(high);
    PackField(high, low, 8);
  }

  /** The four octets of a 32-bit field. */
  lemma JoinFour(b3: byte, b2: byte, b1: byte, b0: byte)
    ensures Or(Or(Or(Shl(b3, 24), Shl(b2, 16)), Shl(b1, 8)), b0) ==
            b3 * 0x100_0000 + b2 * 0x1_0000 + b1 * 0x100 + b0
  {
    hide Or, Shl;
    var top2: nat := b3 * 0x100 + b2;
    var top3: nat := top2 * 0x100 + b1;
    Shl24(1); Shl24(b3); Shl16(b2);
    PackField(b3, Shl(b2, 16), 24);
    Shl16(1); Shl16(top2); Shl8(b1);
    PackField(top2, Shl(b1, 8), 16);
    Shl8(top3);
    JoinTwo(top3, b0);
  }

  lemma SplitTwo(v: u16)
    ensures And(Shr(v, 8), 0xFF) == v / 0x100 && And(v, 0xFF) == v % 0x100
  {
    hide And, Shr;
    Shr8(v);
    Mask8(v / 0x100);
    Mask8(v);
  }

  lemma SplitFour(v: u32)
    ensures And(Shr(v, 24), 0xFF) == v / 0x100_0000
    ensures And(Shr(v, 16), 0xFF) == v / 0x1_0000 % 0x100
    ensures And(Shr(v, 8), 0xFF) == v / 0x100 % 0x100
    ensures And(v, 0xFF) == v % 0x100
  {
    hide And, Shr;
    Shr24(v); Mask8(v / 0x100_0000);
    Shr16(v); Mask8(v / 0x1_0000);
    Shr8(v); Mask8(v / 0x100);
    Mask8(v);
  }

  lemma UnpackFlags1(f: byte)
    ensures And(Shr(f, 7), 0x1) == f / 0x80
    ensures And(Shr(f, 3), 0xF) == f / 0x08 % 0x10
    ensures And(Shr(f, 2), 0x1) == f / 0x04 % 2
    ensures And(Shr(f, 1), 0x1) == f / 0x02 % 2
    ensures And(f, 0x1) == f % 2
  {
    hide And, Shr;
    Shr7(f); Mask1(f / 0x80);
    Shr3(f); Mask4(f / 0x08);
    Shr2(f); Mask1(f / 0x04);
    Shr1(f); Mask1(f / 0x02);
    Mask1(f);
  }

  lemma UnpackFlags2(f: byte)
    ensures And(Shr(f, 7), 0x1) == f / 0x80
    ensures And(Shr(f, 4), 0x7) == f / 0x10 % 0x08
    ensures And(f, 0xF) == f % 0x10
  {
    hide And, Shr;
    Shr7(f); Mask1(f / 0x80);
    Shr4(f); Mask3(f / 0x10);
    Mask4(f);
  }

  lemma PackFlags1(qr: bit, opcode: u4, aa: bit, tc: bit, rd: bit)
    ensures Or(Or(Or(Or(Shl(qr, 7), Shl(opcode, 3)), Shl(aa, 2)), Shl(tc, 1)), rd) ==
            0x80 * qr + 0x08 * opcode + 0x04 * aa + 0x02 * tc + rd
  {
    hide Or, Shl;
    var top2: nat := 0x10 * qr + opcode;
    var top3: nat := 2 * top2 + aa;
    var top4: nat := 2 * top3 + tc;
    Shl7(1); Shl7(qr); Shl3(opcode);
    PackField(qr, Shl(opcode, 3), 7);
    Shl3(1); Shl3(top2); Shl2(aa);
    PackField(top2, Shl(aa, 2), 3);
    Shl2(1); Shl2(top3); Shl1(tc);
    PackField(top3, Shl(tc, 1), 2);
    Shl1(1); Shl1(top4);
    PackField(top4, rd, 1);
  }

  lemma PackFlags2(ra: bit, z: u3, rcode: u4)
    ensures Or(Or(Shl(ra, 7), Shl(z, 4)), rcode) == 0x80 * ra + 0x10 * z + rcode
  {
    hide Or, Shl;
    var top2: nat := 0x08 * ra + z;
    Shl7(1); Shl7(ra); Shl4(z);
    PackField(ra, Shl(z, 4), 7);
    Shl4(1); Shl4(top2);
    PackField(top2, rcode, 4);
  }

  // ----- The octets of a name -----

  lemma TopTwoBits(x: byte)
    ensures And(x, 0xC0) == x / 0x40 * 0x40
  {
    hide And, Shl, Shr;
    Shl6(0x3);
    Shr6(x);
    AndShifted(x, 0x3, 6);
    Mask2(x / 0x40);
    Shl6(x / 0x40 % 0x4);
  }

  /** Both top bits mark a pointer; any of them rules out a plain label length. */
  lemma LengthOctet(x: byte)
    ensures And(x, 0xC0) == 0xC0 <==> x >= 0xC0
    ensures And(x, 0xC0) != 0x00 <==> x >= 0x40
  {
    hide And;
    TopTwoBits(x);
  }

  /** The 14-bit target behind the two marks of a pointer. */
  lemma PointerTarget(x: byte, low: byte)
    ensures Or(Shl(And(x, 0x3F), 8), low) == x % 0x40 * 0x100 + low
  {
    hide And, Or, Shl;
    Mask6(x);
    JoinTwo(x % 0x40, low);
  }
}
