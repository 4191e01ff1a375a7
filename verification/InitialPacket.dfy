/**
  Decoding a protected Initial packet (section 17.2.2 of RFC 9000, section 5.4
  of RFC 9001). The mask and the opening of the payload are parameters.
 */
module InitialPacket {
  import opened Bytes
  import opened Frames
  import opened FrameParser
  import opened HeaderPreimage
  import opened Reader
  import opened Vli
  import opened Xor

  type Mask = s: seq<Byte> | |s| == 5 witness [0, 0, 0, 0, 0]

  datatype Opened = Plaintext(bytes: seq<Byte>) | Forged

  /** Both are functions of the connection ID, from which the keys are derived. */
  datatype Crypto = Crypto(
    mask: (seq<Byte>, seq<Byte>) -> Mask,
    open: (seq<Byte>, nat, seq<Byte>, seq<Byte>, seq<Byte>) -> Opened)

  datatype Error = TooShort | NotLongHeader | NotInitial | UnsupportedVersion | Malformed | NotAuthentic | BadFrames

  // ----- Splitting the datagram -----

  datatype Split = Split(head: seq<Byte>, tail: seq<Byte>) | NoSplit

  /** A field with a one-byte length. */
  function ReadPrefixed(s: seq<Byte>): (r: Split)
    ensures r.Split? ==> |r.head| <= 255 && |r.head| + 1 + |r.tail| == |s|
  {
    if s == [] || |s| - 1 < s[0] then NoSplit else Split(s[1..1 + s[0]], s[1 + s[0]..])
  }

  /** The token: an exhausted reader is an error even when no byte is wanted. */
  function ReadToken(s: seq<Byte>): (r: Split)
    ensures r.Split? ==> |r.head| + |r.tail| < |s|
  {
    match NextVli(s)
    case Eof => NoSplit
    case Value(n, _, rest) => if n > |rest| || rest == [] then NoSplit else Split(rest[..n], rest[n..])
  }

  /** The packet number, ciphertext and tag; what follows belongs to other packets. */
  function ReadPayload(s: seq<Byte>): (r: Split)
    ensures r.Split? ==> |r.head| >= 20 && |r.head| + |r.tail| < |s|
  {
    match NextVli(s)
    case Eof => NoSplit
    case Value(n, _, rest) => if n < 20 || n > |rest| then NoSplit else Split(rest[..n], rest[n..])
  }

  datatype Parts = Parts(dcid: seq<Byte>, scidLength: nat, tokenLength: nat, payload: seq<Byte>, headerLength: nat)

  datatype Result<T> = Success(value: T) | Failure(error: Error)

  function SplitPacket(p: seq<Byte>): (r: Result<Parts>)
    ensures r.Success? ==> |p| >= 7 && |r.value.payload| >= 20 && 5 < r.value.headerLength <= |p|
  {
    if |p| < 7 then Failure(TooShort)
    else if p[0] / 64 != 3 then Failure(NotLongHeader)
    else if p[0] / 16 % 4 != 0 then Failure(NotInitial)
    else if FromBigEndian(p[1..5]) != 1 then Failure(UnsupportedVersion)
    else
      var d := ReadPrefixed(p[5..]);
      if d.NoSplit? then Failure(Malformed) else
      var c := ReadPrefixed(d.tail);
      if c.NoSplit? then Failure(Malformed) else
      var t := ReadToken(c.tail);
      if t.NoSplit? then Failure(Malformed) else
      var b := ReadPayload(t.tail);
      if b.NoSplit? then Failure(Malformed)
      else Success(Parts(d.head, |c.head|, |t.head|, b.head, |p| - |b.tail| - |b.head|))
  }

  // ----- Removing header protection -----

  datatype Unprotected = Unprotected(
    header: Header, pnBytes: seq<Byte>, associated: seq<Byte>, ciphertext: seq<Byte>, tag: seq<Byte>)

  /** The first `n` bytes under the mask; masking is its own inverse. */
  function MaskNumber(payload: seq<Byte>, hp: Mask, n: nat): (s: seq<Byte>)
    requires n <= 4 <= |payload|
    ensures |s| == n
  {
    if n == 0 then [] else MaskNumber(payload, hp, n - 1) + [XorByte(payload[n - 1], hp[n])]
  }

  function Unprotect(p: seq<Byte>, x: Parts, hp: Mask): Unprotected
    requires |x.payload| >= 20 && 5 < x.headerLength <= |p|
  {
    var first := XorByte(p[0], hp[0] % 16);
    var n := first % 4 + 1;
    var pnBytes := MaskNumber(x.payload, hp, n);
    var end := |x.payload| - 16;
    Unprotected(
      Header(p[1..5], |x.dcid|, x.scidLength, n, FromBigEndian(pnBytes), x.tokenLength > 0),
      pnBytes, [first] + p[1..x.headerLength] + pnBytes, x.payload[n..end], x.payload[end..])
  }

  function Decode(crypto: Crypto, p: seq<Byte>): Result<Packet> {
    var parts := SplitPacket(p);
    if parts.Failure? then Failure(parts.error) else
      var x := parts.value;
      var u := Unprotect(p, x, crypto.mask(x.dcid, x.payload[4..20]));
      match crypto.open(x.dcid, u.header.pn, u.ciphertext, u.associated, u.tag)
      case Forged => Failure(NotAuthentic)
      case Plaintext(bytes) =>
        match Parse(bytes)
        case Failed => Failure(BadFrames)
        case Done(frames) => Success(Packet(u.header, frames))
  }

  method UnmaskNumber(payload: seq<Byte>, hp: Mask, n: nat, head: seq<Byte>)
    returns (recdata: seq<Byte>, pn: nat, pnBytes: seq<Byte>)
    requires n <= 4 <= |payload|
    ensures pnBytes == MaskNumber(payload, hp, n)
    ensures pn == FromBigEndian(pnBytes)
    ensures recdata == head + pnBytes
  {
    hide XorByte;
    recdata, pn, pnBytes := head, 0, [];
    var i := 0;
    while i < n
      invariant 0 <= i <= n
      invariant pnBytes == MaskNumber(payload, hp, i) && pn == FromBigEndian(pnBytes)
      invariant recdata == head + pnBytes
    {
      var b := XorByte(payload[i], hp[i + 1]);
      recdata := recdata + [b];
      pn := pn * 256 + b;
      assert (pnBytes + [b])[..i] == pnBytes;
      pnBytes := pnBytes + [b];
      i := i + 1;
    }
  }

  method RemoveProtection(p: seq<Byte>, x: Parts, hp: Mask) returns (u: Unprotected)
    requires |x.payload| >= 20 && 5 < x.headerLength <= |p|
    ensures u == Unprotect(p, x, hp)
  {
    hide XorByte, MaskNumber;
    var first := XorByte(p[0], hp[0] % 16);
    var head := p[..x.headerLength][0 := first];
    assert head == [first] + p[1..x.headerLength];
    var n := first % 4 + 1;
    var recdata, pn, pnBytes := UnmaskNumber(x.payload, hp, n, head);
    var end := |x.payload| - 16;
    var header := Header(p[1..5], |x.dcid|, x.scidLength, n, pn, x.tokenLength > 0);
    u := Unprotected(header, pnBytes, recdata, x.payload[n..end], x.payload[end..]);
  }

  method DecodeQUICHeaderAndFrames(crypto: Crypto, p: seq<Byte>) returns (r: Result<Packet>)
    ensures r == Decode(crypto, p)
  {
    var parts := SplitPacket(p);
    if parts.Failure? {
      return Failure(parts.error);
    }
    var x := parts.value;
    var u := RemoveProtection(p, x, crypto.mask(x.dcid, x.payload[4..20]));
    var plain := crypto.open(x.dcid, u.header.pn, u.ciphertext, u.associated, u.tag);
    if plain.Forged? {
      return Failure(NotAuthentic);
    }
    var reader := new ByteReader.Buffer(plain.bytes);
    var parsed := ReadAllFrames(reader);
    if parsed.Failed? {
      return Failure(BadFrames);
    }
    return Success(Packet(u.header, parsed.frames));
  }

  // ----- A packet as the standard builds it -----

  /** `low` is the four protected bits of the first byte; its two low bits give the packet number length. */
  datatype Initial = Initial(
    low: nat, dcid: seq<Byte>, scid: seq<Byte>, token: seq<Byte>, tokenWidth: nat, lengthWidth: nat,
    pnBytes: seq<Byte>, body: seq<Byte>)
  {
    predicate Legal() {
      && low < 16 && |dcid| <= 255 && |scid| <= 255
      && Fits(|token|, tokenWidth)
      && Fits(|pnBytes| + |body|, lengthWidth)
      && |pnBytes| == low % 4 + 1 && |pnBytes| + |body| >= 20
    }

    /** All between the first byte and the packet number. */
    function Middle(): seq<Byte>
      requires Legal()
    {
      [0, 0, 0, 1] + ([|dcid|] + dcid + ([|scid|] + scid + (Encode(|token|, tokenWidth) + token
      + Encode(|pnBytes| + |body|, lengthWidth))))
    }

    /** The unprotected header, packet number included. */
    function HeaderBytes(): seq<Byte>
      requires Legal()
    {
      [0xC0 + low] + Middle() + pnBytes
    }

    function Sample(): seq<Byte>
      requires Legal()
    {
      (pnBytes + body)[4..20]
    }

    /** The protected packet. */
    function Protect(hp: Mask): seq<Byte>
      requires Legal()
    {
      [XorByte(0xC0 + low, hp[0] % 16)] + Middle() + MaskNumber(pnBytes + body, hp, |pnBytes|) + body
    }
  }

  // ----- Splitting undoes building -----

  lemma PrefixedInverts(x: seq<Byte>, t: seq<Byte>)
    requires |x| <= 255
    ensures ReadPrefixed([|x|] + x + t) == Split(x, t)
  {
  }

  lemma TokenInverts(x: seq<Byte>, w: nat, t: seq<Byte>)
    requires Fits(|x|, w) && t != []
    ensures ReadToken(Encode(|x|, w) + x + t) == Split(x, t)
  {
    hide NextVli, Encode;
    assert Encode(|x|, w) + x + t == Encode(|x|, w) + (x + t);
    NextInvertsEncode(|x|, w, x + t);
    assert (x + t)[..|x|] == x && (x + t)[|x|..] == t;
  }

  lemma PayloadInverts(x: seq<Byte>, w: nat, t: seq<Byte>)
    requires Fits(|x|, w) && |x| >= 20
    ensures ReadPayload(Encode(|x|, w) + (x + t)) == Split(x, t)
  {
    hide NextVli, Encode;
    NextInvertsEncode(|x|, w, x + t);
    assert (x + t)[..|x|] == x && (x + t)[|x|..] == t;
  }

  /** The datagram after the version. */
  function Fields(i: Initial, payload: seq<Byte>, t: seq<Byte>): seq<Byte>
    requires i.Legal()
  {
    [|i.dcid|] + i.dcid + ([|i.scid|] + i.scid + (Encode(|i.token|, i.tokenWidth) + i.token
    + (Encode(|i.pnBytes| + |i.body|, i.lengthWidth) + (payload + t))))
  }

  lemma MiddleFields(i: Initial, payload: seq<Byte>, t: seq<Byte>)
    requires i.Legal()
    ensures i.Middle() + (payload + t) == [0, 0, 0, 1] + Fields(i, payload, t)
  {
  }

  lemma SplitInverts(i: Initial, first: Byte, payload: seq<Byte>, t: seq<Byte>)
    requires i.Legal() && first / 16 == 12 && |payload| == |i.pnBytes| + |i.body|
    ensures SplitPacket([first] + i.Middle() + payload + t)
         == Success(Parts(i.dcid, |i.scid|, |i.token|, payload, 1 + |i.Middle()|))
  {
    hide Encode, ReadPrefixed, ReadToken, ReadPayload, Initial.Middle;
    var p := [first] + i.Middle() + payload + t;
    MiddleFields(i, payload, t);
    assert p == [first] + (i.Middle() + (payload + t));
    assert p == [first] + ([0, 0, 0, 1] + Fields(i, payload, t));
    assert p[1..5] == [0, 0, 0, 1] && p[5..] == Fields(i, payload, t);
    assert FromBigEndian([0, 0, 0, 1]) == 1 by {
      assert [0, 0, 0, 1][..3] == [0, 0, 0] && [0, 0, 0][..2] == [0, 0] && [0, 0][..1] == [0] && [0][..0] == [];
    }
    var s4 := Encode(|payload|, i.lengthWidth) + (payload + t);
    var s3 := Encode(|i.token|, i.tokenWidth) + i.token + s4;
    var s2 := [|i.scid|] + i.scid + s3;
    PrefixedInverts(i.dcid, s2);
    PrefixedInverts(i.scid, s3);
    TokenInverts(i.token, i.tokenWidth, s4);
    PayloadInverts(payload, i.lengthWidth, t);
  }

  // ----- Unmasking undoes masking -----

  lemma {:induction false} MaskTwice(s: seq<Byte>, body: seq<Byte>, hp: Mask, k: nat)
    requires k <= |s| <= 4 <= |s| + |body|
    ensures MaskNumber(MaskNumber(s + body, hp, |s|) + body, hp, k) == s[..k]
  {
    if k > 0 {
      MaskTwice(s, body, hp, k - 1);
      MaskAt(s + body, hp, |s|, k - 1);
      XorUndo(s[k - 1], hp[k]);
      assert s[..k] == s[..k - 1] + [s[k - 1]];
    }
  }

  lemma {:induction false} MaskAt(s: seq<Byte>, hp: Mask, n: nat, k: nat)
    requires k < n <= 4 <= |s|
    ensures MaskNumber(s, hp, n)[k] == XorByte(s[k], hp[k + 1])
  {
    if k < n - 1 {
      MaskAt(s, hp, n - 1, k);
    }
  }

  /** The packet number, masked, and the body. */
  function Payload(i: Initial, hp: Mask): seq<Byte>
    requires i.Legal()
  {
    MaskNumber(i.pnBytes + i.body, hp, |i.pnBytes|) + i.body
  }

  lemma ProtectSplits(i: Initial, hp: Mask, t: seq<Byte>)
    requires i.Legal()
    ensures SplitPacket(i.Protect(hp) + t)
         == Success(Parts(i.dcid, |i.scid|, |i.token|, Payload(i, hp), 1 + |i.Middle()|))
    ensures Payload(i, hp)[4..20] == i.Sample()
  {
    hide SplitPacket, Initial.Middle, XorByte, MaskNumber;
    var first := XorByte(0xC0 + i.low, hp[0] % 16);
    XorLow(0xC0 + i.low, hp[0] % 16);
    assert i.Protect(hp) + t == [first] + i.Middle() + Payload(i, hp) + t;
    SplitInverts(i, first, Payload(i, hp), t);
  }

  /** What the decoder is to recover. */
  function Recovered(i: Initial): Unprotected
    requires i.Legal()
  {
    Unprotected(
      Header([0, 0, 0, 1], |i.dcid|, |i.scid|, |i.pnBytes|, FromBigEndian(i.pnBytes), i.token != []),
      i.pnBytes, i.HeaderBytes(), i.body[..|i.body| - 16], i.body[|i.body| - 16..])
  }

  lemma ProtectedHead(i: Initial, hp: Mask, t: seq<Byte>)
    requires i.Legal()
    ensures var p := i.Protect(hp) + t;
            && p[0] == XorByte(0xC0 + i.low, hp[0] % 16)
            && p[1..1 + |i.Middle()|] == i.Middle()
            && |i.Middle()| > 5 && p[1..5] == [0, 0, 0, 1]
  {
  }

  lemma UnprotectParts(i: Initial, hp: Mask, t: seq<Byte>)
    requires i.Legal() && |i.Protect(hp) + t| >= 1 + |i.Middle()| > 5
    ensures Unprotect(i.Protect(hp) + t, Parts(i.dcid, |i.scid|, |i.token|, Payload(i, hp), 1 + |i.Middle()|), hp)
         == Recovered(i)
  {
    hide XorByte, MaskNumber, Initial.Middle, Initial.Protect;
    ProtectedHead(i, hp, t);
    XorUndo(0xC0 + i.low, hp[0] % 16);
    MaskTwice(i.pnBytes, i.body, hp, |i.pnBytes|);
    assert i.pnBytes[..|i.pnBytes|] == i.pnBytes;
    var n, end := |i.pnBytes|, |Payload(i, hp)| - 16;
    assert Payload(i, hp)[n..end] == i.body[..|i.body| - 16];
    assert Payload(i, hp)[end..] == i.body[|i.body| - 16..];
  }

  /**
    For every Initial and every mask function, with any bytes after it: the
    decoder recovers the header fields, the packet number and the split into
    ciphertext and tag, its associated data is the unprotected header, and so
    it yields the frames of the opened payload.
   */
  lemma DecodeInvertsProtect(i: Initial, crypto: Crypto, t: seq<Byte>)
    requires i.Legal()
    ensures var p := i.Protect(crypto.mask(i.dcid, i.Sample())) + t;
            var plain := crypto.open(
              i.dcid, FromBigEndian(i.pnBytes), i.body[..|i.body| - 16], i.HeaderBytes(), i.body[|i.body| - 16..]);
            Decode(crypto, p) ==
              if plain.Forged? then Failure(NotAuthentic)
              else if Parse(plain.bytes).Failed? then Failure(BadFrames)
              else Success(Packet(Recovered(i).header, Parse(plain.bytes).frames))
  {
    hide Initial.Protect, Initial.Middle, SplitPacket, Unprotect, Parse;
    var hp := crypto.mask(i.dcid, i.Sample());
    ProtectSplits(i, hp, t);
    ProtectedHead(i, hp, t);
    UnprotectParts(i, hp, t);
  }

  // ----- Nothing else is decoded -----

  lemma PrefixedOnly(s: seq<Byte>)
    requires ReadPrefixed(s).Split?
    ensures var r := ReadPrefixed(s); s == [|r.head|] + r.head + r.tail
  {
  }

  lemma TokenOnly(s: seq<Byte>) returns (w: nat)
    requires ReadToken(s).Split?
    ensures var r := ReadToken(s); Fits(|r.head|, w) && s == Encode(|r.head|, w) + r.head + r.tail
  {
    hide NextVli, Encode, Fits;
    NextOnlyEncoded(s);
    var next := NextVli(s);
    w := next.n;
    assert next.rest == next.rest[..next.v] + next.rest[next.v..];
  }

  lemma PayloadOnly(s: seq<Byte>) returns (w: nat)
    requires ReadPayload(s).Split?
    ensures var r := ReadPayload(s); Fits(|r.head|, w) && s == Encode(|r.head|, w) + (r.head + r.tail)
  {
    hide NextVli, Encode, Fits;
    NextOnlyEncoded(s);
    var next := NextVli(s);
    w := next.n;
    assert next.rest == next.rest[..next.v] + next.rest[next.v..];
  }

  lemma VersionOne(v: seq<Byte>)
    requires |v| == 4
    ensures FromBigEndian(v) == 1 <==> v == [0, 0, 0, 1]
  {
    FromBigEndianRoundTrip(v);
    FromBigEndianRoundTrip([0, 0, 0, 1]);
    assert [0, 0, 0, 1][..3] == [0, 0, 0] && [0, 0, 0][..2] == [0, 0] && [0, 0][..1] == [0] && [0][..0] == [];
  }

  /** What a datagram that can be split is made of, whatever its payload is to be split into. */
  lemma SplitOnly(p: seq<Byte>, low: nat, pnBytes: seq<Byte>, body: seq<Byte>) returns (i: Initial, t: seq<Byte>)
    requires SplitPacket(p).Success? && low < 16 && |pnBytes| == low % 4 + 1
    requires |pnBytes| + |body| == |SplitPacket(p).value.payload|
    ensures i.Legal() && p[0] / 16 == 12
    ensures var x := SplitPacket(p).value;
            && i.low == low && i.pnBytes == pnBytes && i.body == body && i.dcid == x.dcid
            && p == [p[0]] + i.Middle() + x.payload + t
  {
    hide Encode, Fits, ReadPrefixed, ReadToken, ReadPayload;
    var x := SplitPacket(p).value;
    var d := ReadPrefixed(p[5..]);
    var c := ReadPrefixed(d.tail);
    var token := ReadToken(c.tail);
    var b := ReadPayload(token.tail);
    PrefixedOnly(p[5..]);
    PrefixedOnly(d.tail);
    var tw := TokenOnly(c.tail);
    var lw := PayloadOnly(token.tail);
    i, t := Initial(low, d.head, c.head, token.head, tw, lw, pnBytes, body), b.tail;
    VersionOne(p[1..5]);
    assert p == [p[0]] + (p[1..5] + p[5..]);
    assert p[5..] == Fields(i, x.payload, t);
    MiddleFields(i, x.payload, t);
    assert [p[0]] + (i.Middle() + (x.payload + t)) == [p[0]] + i.Middle() + x.payload + t;
  }

  /** The datagram is this Initial, protected, with `t` after it. */
  ghost predicate IsInitial(crypto: Crypto, p: seq<Byte>, i: Initial, t: seq<Byte>) {
    i.Legal() && p == i.Protect(crypto.mask(i.dcid, i.Sample())) + t
  }

  lemma FirstByte(first: Byte, m: Byte)
    requires first / 16 == 12 && m < 16
    ensures var low := XorByte(first, m) - 0xC0; 0 <= low < 16 && XorByte(0xC0 + low, m) == first
  {
    XorLow(first, m);
    XorUndo(first, m);
  }

  lemma Remask(payload: seq<Byte>, hp: Mask, n: nat)
    requires n <= 4 <= |payload|
    ensures MaskNumber(MaskNumber(payload, hp, n) + payload[n..], hp, n) == payload[..n]
  {
    hide MaskNumber;
    assert payload[..n] + payload[n..] == payload;
    MaskTwice(payload[..n], payload[n..], hp, n);
    assert payload[..n][..n] == payload[..n];
  }

  /** Every datagram that can be split is a protected Initial. */
  lemma SplitIsInitial(crypto: Crypto, p: seq<Byte>) returns (i: Initial, t: seq<Byte>)
    requires SplitPacket(p).Success?
    ensures IsInitial(crypto, p, i, t)
  {
    hide SplitPacket, MaskNumber, XorByte, Initial.Middle;
    var x := SplitPacket(p).value;
    var hp := crypto.mask(x.dcid, x.payload[4..20]);
    SplitFirst(p);
    FirstByte(p[0], hp[0] % 16);
    var low: nat := XorByte(p[0], hp[0] % 16) - 0xC0;
    var n := low % 4 + 1;
    var pnBytes, body := MaskNumber(x.payload, hp, n), x.payload[n..];
    i, t := SplitOnly(p, low, pnBytes, body);
    Remask(x.payload, hp, n);
    assert i.Sample() == x.payload[4..20];
    assert x.payload == x.payload[..n] + body;
    assert i.Protect(hp) + t == [p[0]] + i.Middle() + (x.payload[..n] + body) + t;
  }

  lemma SplitFirst(p: seq<Byte>)
    requires SplitPacket(p).Success?
    ensures p[0] / 16 == 12
  {
    hide ReadPrefixed, ReadToken, ReadPayload, FromBigEndian;
  }

  /**
    Which error each datagram gives. One that is long enough, of the right kind
    and of version 1 is malformed just when it is not an Initial, protected,
    with whatever bytes after it.
   */
  lemma DecodeErrors(crypto: Crypto, p: seq<Byte>)
    ensures Decode(crypto, p) == Failure(TooShort) <==> |p| < 7
    ensures Decode(crypto, p) == Failure(NotLongHeader) <==> |p| >= 7 && p[0] < 0xC0
    ensures Decode(crypto, p) == Failure(NotInitial) <==> |p| >= 7 && p[0] >= 0xD0
    ensures Decode(crypto, p) == Failure(UnsupportedVersion) <==>
              |p| >= 7 && 0xC0 <= p[0] < 0xD0 && p[1..5] != [0, 0, 0, 1]
    ensures Decode(crypto, p) == Failure(Malformed) <==>
              |p| >= 7 && 0xC0 <= p[0] < 0xD0 && p[1..5] == [0, 0, 0, 1] && !exists i, t :: IsInitial(crypto, p, i, t)
  {
    hide ReadPrefixed, ReadToken, ReadPayload, Unprotect, Parse, IsInitial;
    if |p| >= 7 {
      VersionOne(p[1..5]);
    }
    if SplitPacket(p).Success? {
      var i, t := SplitIsInitial(crypto, p);
    }
    if i, t :| IsInitial(crypto, p, i, t) {
      InitialSplits(crypto, p, i, t);
    }
  }

  lemma InitialSplits(crypto: Crypto, p: seq<Byte>, i: Initial, t: seq<Byte>)
    requires IsInitial(crypto, p, i, t)
    ensures SplitPacket(p).Success?
  {
    hide SplitPacket, Initial.Protect;
    ProtectSplits(i, crypto.mask(i.dcid, i.Sample()), t);
  }

  /** The Initial opens to frames that can be read, and `packet` holds its header and these frames. */
  ghost predicate OpensTo(crypto: Crypto, i: Initial, packet: Packet)
    requires i.Legal()
  {
    var plain := crypto.open(
      i.dcid, FromBigEndian(i.pnBytes), i.body[..|i.body| - 16], i.HeaderBytes(), i.body[|i.body| - 16..]);
    plain.Plaintext? && Parse(plain.bytes).Done? && packet == Packet(Recovered(i).header, Parse(plain.bytes).frames)
  }

  /** Decoding yields a packet just when the datagram is an Initial, protected, that opens to it. */
  lemma DecodeIff(crypto: Crypto, p: seq<Byte>, packet: Packet)
    ensures Decode(crypto, p) == Success(packet) <==>
            exists i, t :: IsInitial(crypto, p, i, t) && i.Legal() && OpensTo(crypto, i, packet)
  {
    hide Decode, IsInitial, OpensTo;
    if Decode(crypto, p) == Success(packet) {
      DecodedSplits(crypto, p);
      var i, t := SplitIsInitial(crypto, p);
      InitialLegal(crypto, p, i, t);
      InitialOpens(crypto, p, i, t, packet);
    }
    if i, t :| IsInitial(crypto, p, i, t) && i.Legal() && OpensTo(crypto, i, packet) {
      InitialOpens(crypto, p, i, t, packet);
    }
  }

  lemma InitialLegal(crypto: Crypto, p: seq<Byte>, i: Initial, t: seq<Byte>)
    requires IsInitial(crypto, p, i, t)
    ensures i.Legal()
  {
  }

  lemma InitialOpens(crypto: Crypto, p: seq<Byte>, i: Initial, t: seq<Byte>, packet: Packet)
    requires IsInitial(crypto, p, i, t) && i.Legal()
    ensures Decode(crypto, p) == Success(packet) <==> OpensTo(crypto, i, packet)
  {
    hide Decode, Initial.Protect, Parse, Recovered, Initial.HeaderBytes;
    DecodeInvertsProtect(i, crypto, t);
  }

  lemma DecodedSplits(crypto: Crypto, p: seq<Byte>)
    requires Decode(crypto, p).Success?
    ensures SplitPacket(p).Success?
  {
  }

  // ----- Frame types -----

  lemma {:induction false} TypesAt(fs: seq<Frame>)
    ensures |FrameTypes(fs)| == |fs| && forall i :: 0 <= i < |fs| ==> FrameTypes(fs)[i] == fs[i].FrameType()
  {
    if fs == [] {
    } else {
      TypesAt(fs[1..]);
    }
  }

  lemma TypesMember(fs: seq<Frame>, x: Byte)
    ensures x in FrameTypes(fs) <==> exists i :: 0 <= i < |fs| && fs[i].FrameType() == x
  {
    hide FrameTypes;
    TypesAt(fs);
  }

  lemma {:induction false} MergeKeepsTypes(fs: seq<Frame>, x: Byte)
    ensures x in FrameTypes(MergePadding(fs)) <==> x in FrameTypes(fs)
    decreases |fs|
  {
    if |fs| <= 1 {
    } else if fs[0].Padding? && fs[1].Padding? {
      var merged := [Padding(fs[0].length + fs[1].length)] + fs[2..];
      MergeKeepsTypes(merged, x);
      assert merged[1..] == fs[2..] == fs[1..][1..];
    } else {
      MergeKeepsTypes(fs[1..], x);
      assert ([fs[0]] + MergePadding(fs[1..]))[1..] == MergePadding(fs[1..]);
    }
  }

  /** The type of a frame on the wire is the integer that it begins with. */
  ghost predicate HasWireType(w: Wire, x: nat)
    requires w.Legal()
  {
    NextVli(w.Written()).Value? && NextVli(w.Written()).v == x
  }

  lemma WireTypeIs(w: Wire)
    requires w.Legal()
    ensures forall x: nat :: HasWireType(w, x) <==> w.Meaning().FrameType() == x
  {
    hide Encode, Fits;
    match w
    case Zeros(n) =>
      var s := w.Written();
      assert s[0] == 0 && ReadPadded(s, 1) == [0] && Unset([0]) == [0] && FromBigEndian([0][..0]) == 0;
    case PingAs(t) =>
      NextInvertsEncode(1, t, []);
      assert Encode(1, t) + [] == Encode(1, t);
    case CryptoAs(f, t, o, l) =>
      NextInvertsEncode(6, t, Encode(f.offset, o) + (Encode(|f.data|, l) + f.data));
  }

  /** The frame types that are hashed are just those on the wire. */
  lemma TypesOnWire(ws: seq<Wire>, x: Byte)
    requires FrameParser.AllLegal(ws)
    ensures x in FrameTypes(MergePadding(FramesOf(ws))) <==> exists i :: 0 <= i < |ws| && HasWireType(ws[i], x)
  {
    hide HasWireType, Wire.Legal, Wire.Written, FrameTypes;
    MergeKeepsTypes(FramesOf(ws), x);
    TypesMember(FramesOf(ws), x);
    if i :| 0 <= i < |ws| && HasWireType(ws[i], x) {
      WireTypeIs(ws[i]);
      assert FramesOf(ws)[i].FrameType() == x;
    }
    if i :| 0 <= i < |ws| && FramesOf(ws)[i].FrameType() == x {
      WireTypeIs(ws[i]);
      assert HasWireType(ws[i], x);
    }
  }
}
