/** The AEAD nonce of a packet (section 5.3 of RFC 9001). */
module Nonce {
  import opened Bytes
  import opened Xor

  function XorSeq(a: seq<Byte>, b: seq<Byte>): (r: seq<Byte>)
    requires |a| == |b|
    ensures |r| == |a|
  {
    seq(|a|, i requires 0 <= i < |a| => XorByte(a[i], b[i]))
  }

  /** The packet number in network byte order, padded on the left to the IV, exclusive-ored with it. */
  function NonceOf(iv: seq<Byte>, pn: nat): (r: seq<Byte>)
    requires |iv| == 12
    ensures |r| == 12
  {
    XorSeq(iv, [0, 0, 0, 0] + BigEndian(pn, 8))
  }

  /** `pn >> (8 * i)`. */
  function Shift(pn: nat, i: nat): nat {
    if i == 0 then pn else Shift(pn, i - 1) / 256
  }

  lemma {:induction false} ShiftFirst(pn: nat, i: nat)
    requires i > 0
    ensures Shift(pn, i) == Shift(pn / 256, i - 1)
  {
    if i > 1 {
      ShiftFirst(pn, i - 1);
    }
  }

  lemma {:induction false} BigEndianAt(pn: nat, n: nat, i: nat)
    requires i < n
    ensures BigEndian(pn, n)[n - 1 - i] == Shift(pn, i) % 256
  {
    if i > 0 {
      BigEndianAt(pn / 256, n - 1, i - 1);
      ShiftFirst(pn, i);
    }
  }

  lemma XorZero(a: Byte)
    ensures XorByte(a, 0) == a
  {
    PowersOf2();
    BitsZero(a, 8);
  }

  method BuildIV(iv: array<Byte>, pn: nat)
    requires iv.Length == 12
    modifies iv
    ensures iv[..] == NonceOf(old(iv[..]), pn)
  {
    ghost var pad := [0, 0, 0, 0] + BigEndian(pn, 8);
    var i := 0;
    while i < 8
      invariant 0 <= i <= 8
      invariant forall k :: 0 <= k < 12 - i ==> iv[k] == old(iv[k])
      invariant forall k :: 12 - i <= k < 12 ==> iv[k] == XorByte(old(iv[k]), pad[k])
    {
      BigEndianAt(pn, 8, i);
      iv[11 - i] := XorByte(iv[11 - i], Shift(pn, i) % 256);
      i := i + 1;
    }
    forall k | 0 <= k < 4
      ensures iv[k] == XorByte(old(iv[k]), pad[k])
    {
      XorZero(iv[k]);
    }
  }

  /** Building twice restores the IV. */
  lemma NonceTwice(iv: seq<Byte>, pn: nat)
    requires |iv| == 12
    ensures NonceOf(NonceOf(iv, pn), pn) == iv
  {
    hide XorByte;
    var pad := [0, 0, 0, 0] + BigEndian(pn, 8);
    forall k | 0 <= k < 12
      ensures NonceOf(NonceOf(iv, pn), pn)[k] == iv[k]
    {
      XorUndo(iv[k], pad[k]);
    }
  }

  /** Under one IV, distinct 64-bit packet numbers get distinct nonces. */
  lemma NonceInjective(iv: seq<Byte>, m: nat, n: nat)
    requires |iv| == 12 && m < 0x1_0000_0000_0000_0000 && n < 0x1_0000_0000_0000_0000
    requires NonceOf(iv, m) == NonceOf(iv, n)
    ensures m == n
  {
    hide XorByte;
    forall k | 0 <= k < 8
      ensures BigEndian(m, 8)[k] == BigEndian(n, 8)[k]
    {
      assert NonceOf(iv, m)[4 + k] == XorByte(iv[4 + k], BigEndian(m, 8)[k]);
      assert NonceOf(iv, n)[4 + k] == XorByte(iv[4 + k], BigEndian(n, 8)[k]);
      XorInjective(iv[4 + k], BigEndian(m, 8)[k], BigEndian(n, 8)[k]);
    }
    PowersOf256();
    BigEndianInjective(m, n, 8);
  }

  /** The nonce is the IV, but for its last eight bytes: there the packet number lies over it in network byte order. */
  lemma NonceCarries(iv: seq<Byte>, pn: nat)
    requires |iv| == 12 && pn < 0x1_0000_0000_0000_0000
    ensures NonceOf(iv, pn)[..4] == iv[..4] && FromBigEndian(XorSeq(NonceOf(iv, pn), iv)[4..]) == pn
  {
    hide XorByte;
    var n, pad := NonceOf(iv, pn), [0, 0, 0, 0] + BigEndian(pn, 8);
    forall k | 0 <= k < 12
      ensures XorSeq(n, iv)[k] == pad[k] && (k < 4 ==> n[k] == iv[k])
    {
      XorBack(iv[k], pad[k]);
      XorZero(iv[k]);
    }
    assert XorSeq(n, iv)[4..] == BigEndian(pn, 8);
    PowersOf256();
    BigEndianRoundTrip(pn, 8);
  }

  lemma XorBack(a: Byte, b: Byte)
    ensures XorByte(XorByte(a, b), a) == b
  {
    BitsSymmetric(a, b, 8);
    XorUndo(b, a);
  }
}
