/** Bytes and big-endian integers. */
module Bytes {

  type Byte = x: int | 0 <= x < 256

  /** The big-endian value of a byte sequence. */
  function FromBigEndian(s: seq<Byte>): (v: nat) {
    if s == [] then 0 else FromBigEndian(s[..|s| - 1]) * 256 + s[|s| - 1]
  }

  /** The low `n` bytes of `v`, big-endian. */
  function BigEndian(v: nat, n: nat): (s: seq<Byte>)
    ensures |s| == n
  {
    if n == 0 then [] else BigEndian(v / 256, n - 1) + [v % 256]
  }

  lemma SliceOfPrefix<T>(a: seq<T>, b: seq<T>, i: nat, j: nat)
    requires i <= j <= |a|
    ensures (a + b)[i..j] == a[i..j]
  {
  }

  lemma SliceOfMiddle<T>(a: seq<T>, x: seq<T>, b: seq<T>)
    ensures (a + x + b)[|a|..|a| + |x|] == x
  {
  }

  function Pow256(n: nat): (p: nat)
    ensures p > 0
  {
    if n == 0 then 1 else 256 * Pow256(n - 1)
  }

  lemma {:induction false} BigEndianRoundTrip(v: nat, n: nat)
    requires v < Pow256(n)
    ensures FromBigEndian(BigEndian(v, n)) == v
  {
    if n > 0 {
      BigEndianRoundTrip(v / 256, n - 1);
      var s := BigEndian(v, n);
      assert s[..n - 1] == BigEndian(v / 256, n - 1);
    }
  }

  lemma {:induction false} FromBigEndianRoundTrip(s: seq<Byte>)
    ensures FromBigEndian(s) < Pow256(|s|)
    ensures BigEndian(FromBigEndian(s), |s|) == s
  {
    if s == [] {
    } else {
      FromBigEndianRoundTrip(s[..|s| - 1]);
      assert s == s[..|s| - 1] + [s[|s| - 1]];
    }
  }

  lemma BigEndianInjective(v: nat, w: nat, n: nat)
    requires v < Pow256(n) && w < Pow256(n) && BigEndian(v, n) == BigEndian(w, n)
    ensures v == w
  {
    BigEndianRoundTrip(v, n);
    BigEndianRoundTrip(w, n);
  }

  lemma PowersOf256()
    ensures Pow256(1) == 0x100 && Pow256(2) == 0x1_0000 && Pow256(4) == 0x1_0000_0000
    ensures Pow256(8) == 0x1_0000_0000_0000_0000
  {
  }

  /** Up to `n` bytes from the front. */
  function Take(s: seq<Byte>, n: nat): (r: seq<Byte>)
    ensures |r| == if n <= |s| then n else |s|
  {
    if n <= |s| then s[..n] else s
  }

  /** What `Take` leaves. */
  function Drop(s: seq<Byte>, n: nat): (r: seq<Byte>)
    ensures |r| == if n <= |s| then |s| - n else 0
  {
    if n <= |s| then s[n..] else []
  }

  lemma TakeDropConcat(s: seq<Byte>, t: seq<Byte>, n: nat)
    ensures Take(s + t, n) == if n < |s| then Take(s, n) else s + Take(t, n - |s|)
    ensures Drop(s + t, n) == if n < |s| then Drop(s, n) + t else Drop(t, n - |s|)
    ensures n >= |s| ==> Take(s, n) == s && Drop(s, n) == []
  {
  }

}
