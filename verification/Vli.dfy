/** Variable-length integers (section 16 of RFC 9000). */
module Vli {
  import opened Bytes

  /** The width that the two high bits of the first byte announce. */
  function Width(first: Byte): (n: nat)
    ensures n in {1, 2, 4, 8}
  {
    match first / 64
    case 0 => 1
    case 1 => 2
    case 2 => 4
    case _ => 8
  }

  /** Clears the two high bits of the first byte. */
  function Unset(s: seq<Byte>): (r: seq<Byte>)
    ensures |r| == |s|
  {
    if s == [] then [] else [s[0] % 64] + s[1..]
  }

  /** A read of `n` bytes into a zeroed slice whose count is ignored. */
  function ReadPadded(s: seq<Byte>, n: nat): (r: seq<Byte>)
    ensures |r| == n
  {
    if |s| >= n then s[..n] else s + seq(n - |s|, _ => 0)
  }

  lemma PaddedTake(s: seq<Byte>, n: nat)
    ensures ReadPadded(Take(s, n), n) == ReadPadded(s, n)
  {
  }

  datatype Next = Value(v: nat, n: nat, rest: seq<Byte>) | Eof

  /** What `ReadNextVLI` does to a reader that holds `s`. */
  function NextVli(s: seq<Byte>): (r: Next)
    ensures r.Value? ==> |r.rest| < |s|
  {
    if s == [] then Eof else
      var n := Width(s[0]);
      if n > 1 && |s| == 1 then Eof
      else Value(FromBigEndian(Unset(ReadPadded(s, n))), n, Drop(s, n))
  }

  method DecodeLoop(s: seq<Byte>) returns (v: nat)
    ensures v == FromBigEndian(Unset(s))
  {
    var e := Unset(s);
    v := 0;
    var i := 0;
    while i < |e|
      invariant 0 <= i <= |e|
      invariant v == FromBigEndian(e[..i])
    {
      assert e[..i + 1][..i] == e[..i];
      v := v * 256 + e[i];
      i := i + 1;
    }
    assert e[..|e|] == e;
  }

  datatype Decoded = Ok(v: nat) | Invalid

  /** `DecodeVLI`: the slice must hold one integer and nothing else. */
  function Decode(s: seq<Byte>): Decoded {
    match NextVli(s)
    case Eof => Invalid
    case Value(v, n, _) => if n != |s| then Invalid else Ok(v)
  }

  // ----- The encoding, in any legal width -----

  predicate Fits(v: nat, w: nat) {
    match w
    case 1 => v < 0x40
    case 2 => v < 0x4000
    case 4 => v < 0x4000_0000
    case 8 => v < 0x4000_0000_0000_0000
    case _ => false
  }

  function Prefix(w: nat): (p: nat) {
    match w
    case 1 => 0
    case 2 => 1
    case 4 => 2
    case _ => 3
  }

  lemma {:induction false} FirstByte(v: nat, n: nat)
    requires n > 0 && v < 64 * Pow256(n - 1)
    ensures BigEndian(v, n)[0] < 64
  {
    if n > 1 {
      assert v / 256 < 64 * Pow256(n - 2) by {
        assert Pow256(n - 1) == 256 * Pow256(n - 2);
      }
      FirstByte(v / 256, n - 1);
    }
  }

  lemma FitsFirstByte(v: nat, w: nat)
    requires Fits(v, w)
    ensures w > 0 && v < Pow256(w) && BigEndian(v, w)[0] < 64
  {
    PowersOf256();
    assert Pow256(3) == 256 * Pow256(2) && Pow256(8) == 256 * Pow256(7);
    FirstByte(v, w);
  }

  function Encode(v: nat, w: nat): (s: seq<Byte>)
    requires Fits(v, w)
    ensures |s| == w
  {
    FitsFirstByte(v, w);
    var s := BigEndian(v, w);
    [s[0] + 64 * Prefix(w)] + s[1..]
  }

  lemma EncodeShape(v: nat, w: nat)
    requires Fits(v, w)
    ensures Width(Encode(v, w)[0]) == w
    ensures Unset(Encode(v, w)) == BigEndian(v, w)
    ensures FromBigEndian(Unset(Encode(v, w))) == v
    ensures Encode(v, w)[0] == 0 ==> v == 0 && w == 1
  {
    FitsFirstByte(v, w);
    BigEndianRoundTrip(v, w);
    var s := BigEndian(v, w);
    assert s == [s[0]] + s[1..];
    assert w == 1 ==> s[0] == v;
  }

  /** Reading undoes encoding, and stops where the encoding ends. */
  lemma NextInvertsEncode(v: nat, w: nat, rest: seq<Byte>)
    requires Fits(v, w)
    ensures NextVli(Encode(v, w) + rest) == Value(v, w, rest)
  {
    EncodeShape(v, w);
    var s := Encode(v, w) + rest;
    assert s[..w] == Encode(v, w) && s[w..] == rest;
  }

  lemma {:induction false} ValueBound(s: seq<Byte>, n: nat)
    requires |s| == n > 0
    ensures FromBigEndian(s) < (s[0] + 1) * Pow256(n - 1)
    ensures n > 1 ==> FromBigEndian(s[..n - 1]) < (s[0] + 1) * Pow256(n - 2)
  {
    if n > 1 {
      ValueBound(s[..n - 1], n - 1);
      assert (s[0] + 1) * Pow256(n - 1) == ((s[0] + 1) * Pow256(n - 2)) * 256;
    } else {
      assert FromBigEndian(s[..0]) == 0;
    }
  }

  lemma DecodeAccepts(s: seq<Byte>)
    ensures Decode(s).Ok? <==> s != [] && Width(s[0]) == |s|
    ensures Decode(s).Ok? ==> Decode(s).v == FromBigEndian(Unset(s))
  {
    if s != [] && Width(s[0]) == |s| {
      assert ReadPadded(s, |s|) == s;
    }
  }

  lemma UnsetFits(s: seq<Byte>)
    requires s != [] && Width(s[0]) == |s|
    ensures Fits(FromBigEndian(Unset(s)), |s|)
  {
    hide FromBigEndian;
    var n, u := |s|, Unset(s);
    ValueBound(u, n);
    PowersOf256();
    assert Pow256(3) == 256 * Pow256(2) && Pow256(8) == 256 * Pow256(7);
    assert (u[0] + 1) * Pow256(n - 1) <= 64 * Pow256(n - 1);
  }

  lemma EncodeUnset(s: seq<Byte>)
    requires s != [] && Width(s[0]) == |s| && Fits(FromBigEndian(Unset(s)), |s|)
    ensures s == Encode(FromBigEndian(Unset(s)), |s|)
  {
    hide FromBigEndian, BigEndian, Fits;
    FromBigEndianRoundTrip(Unset(s));
    assert s == [s[0]] + s[1..];
  }

  /** `Decode` accepts just the slices that are an encoding, and yields the value encoded. */
  lemma DecodeIff(s: seq<Byte>, v: nat)
    ensures Decode(s).Ok? <==> s != [] && Width(s[0]) == |s|
    ensures Decode(s) == Ok(v) <==> Fits(v, |s|) && s == Encode(v, |s|)
  {
    hide FromBigEndian, Unset, Encode, Fits, Decode;
    DecodeAccepts(s);
    if Decode(s).Ok? {
      UnsetFits(s);
      EncodeUnset(s);
    }
    if Fits(v, |s|) && s == Encode(v, |s|) {
      EncodeShape(v, |s|);
    }
  }

  /** An encoding cut off after its first byte is an error; cut off later, it is read with zeros for what is missing. */
  lemma NextCutOff(v: nat, w: nat, k: nat)
    requires Fits(v, w) && 0 < k < w
    ensures var r := NextVli(Encode(v, w)[..k]);
            if k == 1 then r == Eof
            else r == Value(FromBigEndian(BigEndian(v, w)[..k] + seq(w - k, _ => 0)), w, [])
  {
    hide FromBigEndian, BigEndian, Fits;
    EncodeShape(v, w);
    var s := Encode(v, w)[..k];
    assert s[0] == Encode(v, w)[0];
    if k > 1 {
      var pad := s + seq(w - k, _ => 0);
      assert ReadPadded(s, w) == pad;
      assert Unset(pad) == Unset(Encode(v, w))[..k] + seq(w - k, _ => 0);
    }
  }

  /** What is read before the input ends is an encoding, and what is left is what follows it. */
  lemma NextOnlyEncoded(s: seq<Byte>)
    requires NextVli(s).Value? && NextVli(s).rest != []
    ensures var r := NextVli(s); Fits(r.v, r.n) && s == Encode(r.v, r.n) + r.rest
  {
    hide FromBigEndian, Unset, Encode, Fits;
    var n := Width(s[0]);
    var e := s[..n];
    assert ReadPadded(s, n) == e && s == e + s[n..];
    UnsetFits(e);
    EncodeUnset(e);
  }

  // ----- The second decoder -----

  const TWO64: nat := 0x1_0000_0000_0000_0000

  /** The big-endian fold of `vliToU64`, in 64-bit arithmetic. */
  function ToU64(s: seq<Byte>): (v: nat)
    ensures v < TWO64
  {
    if s == [] then 0 else (ToU64(s[..|s| - 1]) * 256 + s[|s| - 1]) % TWO64
  }

  lemma {:induction false} ToU64Small(s: seq<Byte>)
    requires |s| <= 8
    ensures ToU64(s) == FromBigEndian(s) < Pow256(|s|) <= TWO64
  {
    if s == [] {
    } else {
      ToU64Small(s[..|s| - 1]);
    }
    FromBigEndianRoundTrip(s);
    PowersOf256();
    PowerMonotone(|s|, 8);
  }

  lemma {:induction false} PowerMonotone(m: nat, n: nat)
    requires m <= n
    ensures Pow256(m) <= Pow256(n)
  {
    if m < n {
      PowerMonotone(m, n - 1);
    }
  }

  /** The two decoders agree on every slice that is an encoding. */
  lemma DecodersAgree(s: seq<Byte>)
    requires Decode(s).Ok?
    ensures ToU64(Unset(s)) == Decode(s).v
  {
    assert s != [] && Width(s[0]) == |s| && ReadPadded(s, |s|) == s;
    ToU64Small(Unset(s));
  }
}
