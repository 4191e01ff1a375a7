/** Exclusive or of bytes, bit by bit. */
module Xor {
  import opened Bytes

  function Power2(n: nat): (p: nat)
    ensures p > 0
  {
    if n == 0 then 1 else 2 * Power2(n - 1)
  }

  /** The exclusive or of the low `n` bits. */
  function Bits(a: nat, b: nat, n: nat): nat {
    if n == 0 then 0 else 2 * Bits(a / 2, b / 2, n - 1) + (a + b) % 2
  }

  lemma {:induction false} BitsBound(a: nat, b: nat, n: nat)
    ensures Bits(a, b, n) < Power2(n)
  {
    if n > 0 {
      BitsBound(a / 2, b / 2, n - 1);
    }
  }

  lemma {:induction false} BitsUndo(a: nat, b: nat, n: nat)
    requires a < Power2(n)
    ensures Bits(Bits(a, b, n), b, n) == a
  {
    if n > 0 {
      var h := Bits(a / 2, b / 2, n - 1);
      BitsUndo(a / 2, b / 2, n - 1);
      Parity(h, a, b);
      assert Bits(a, b, n) == 2 * h + (a + b) % 2;
    }
  }

  lemma Parity(h: nat, a: nat, b: nat)
    ensures (2 * h + (a + b) % 2) / 2 == h
    ensures (2 * h + (a + b) % 2 + b) % 2 == a % 2
  {
  }

  lemma {:induction false} BitsSymmetric(a: nat, b: nat, n: nat)
    ensures Bits(a, b, n) == Bits(b, a, n)
  {
    if n > 0 {
      BitsSymmetric(a / 2, b / 2, n - 1);
    }
  }

  function XorByte(a: Byte, b: Byte): (r: Byte) {
    BitsBound(a, b, 8);
    PowersOf2();
    Bits(a, b, 8)
  }

  lemma PowersOf2()
    ensures Power2(4) == 16 && Power2(8) == 256
  {
  }

  lemma XorUndo(a: Byte, b: Byte)
    ensures XorByte(XorByte(a, b), b) == a
  {
    PowersOf2();
    BitsUndo(a, b, 8);
  }

  lemma XorInjective(a: Byte, b: Byte, c: Byte)
    requires XorByte(a, b) == XorByte(a, c)
    ensures b == c
  {
    BitsSymmetric(a, b, 8);
    BitsSymmetric(a, c, 8);
    XorUndo(b, a);
    XorUndo(c, a);
  }

  /** A mask of the four low bits leaves the four high bits alone. */
  lemma XorLow(a: Byte, b: Byte)
    requires b < 16
    ensures XorByte(a, b) / 16 == a / 16
  {
    hide Bits;
    HalfBits(a, b, 8);
    HalfBits(a / 2, b / 2, 7);
    HalfBits(a / 2 / 2, b / 2 / 2, 6);
    HalfBits(a / 2 / 2 / 2, b / 2 / 2 / 2, 5);
    assert a / 2 / 2 / 2 / 2 == a / 16 && b / 2 / 2 / 2 / 2 == 0;
    PowersOf2();
    BitsZero(a / 16, 4);
  }

  lemma HalfBits(a: nat, b: nat, n: nat)
    requires n > 0
    ensures Bits(a, b, n) / 2 == Bits(a / 2, b / 2, n - 1)
  {
  }

  lemma {:induction false} BitsZero(a: nat, n: nat)
    requires a < Power2(n)
    ensures Bits(a, 0, n) == a
  {
    if n > 0 {
      BitsZero(a / 2, n - 1);
    }
  }
}
