/** Reading every frame of a decrypted payload, and the serialisation that it undoes. */
module FrameParser {
  import opened Bytes
  import opened Frames
  import opened Reader
  import opened Vli

  // ----- What the loop computes -----

  datatype Parsed = Done(frames: seq<Frame>) | Failed

  function Cons(f: Frame, p: Parsed): Parsed {
    if p.Failed? then Failed else Done([f] + p.frames)
  }

  function LeadingZeros(s: seq<Byte>): (z: nat)
    ensures z <= |s|
  {
    if s != [] && s[0] == 0 then 1 + LeadingZeros(s[1..]) else 0
  }

  datatype CryptoRead = CryptoRead(fragment: Fragment, rest: seq<Byte>) | CryptoFailed

  /** The offset, the length and the data of a CRYPTO frame; a short read leaves zeros. */
  function NextCrypto(s: seq<Byte>): (r: CryptoRead)
    ensures r.CryptoRead? ==> |r.rest| < |s|
  {
    match NextVli(s)
    case Eof => CryptoFailed
    case Value(offset, _, s1) =>
      match NextVli(s1)
      case Eof => CryptoFailed
      case Value(length, _, s2) =>
        if length > 0 && s2 == [] then CryptoFailed
        else CryptoRead(Fragment(offset, ReadPadded(s2, length)), Drop(s2, length))
  }

  datatype FrameRead = Got(frame: Frame, rest: seq<Byte>) | End | Bad

  /** One round of the loop. */
  function NextFrame(s: seq<Byte>): (r: FrameRead)
    ensures r.Got? ==> |r.rest| < |s|
  {
    match NextVli(s)
    case Eof => End
    case Value(t, _, rest) =>
      if t == 0 then
        var z := LeadingZeros(rest);
        Got(Padding(1 + z), rest[z..])
      else if t == 1 then Got(Ping, rest)
      else if t == 6 then
        match NextCrypto(rest)
        case CryptoFailed => Bad
        case CryptoRead(f, rest') => Got(Crypto(f), rest')
      else Bad
  }

  function Parse(s: seq<Byte>): Parsed
    decreases |s|
  {
    match NextFrame(s)
    case End => Done([])
    case Bad => Failed
    case Got(f, rest) => Cons(f, Parse(rest))
  }

  // ----- The reading methods -----

  method ReadNextVLI(r: ByteReader) returns (v: nat, n: nat, eof: bool)
    requires r.Valid() && r.Pushed <= 1
    modifies r.Repr
    ensures r.Valid() && r.Repr == old(r.Repr) && r.Pushed <= 1
    ensures !eof ==> NextVli(old(r.Remaining)) == Value(v, n, r.Remaining) && r.Pushed == 0
    ensures eof ==> NextVli(old(r.Remaining)) == Next.Eof
  {
    ghost var s := r.Remaining;
    v, n := 0, 0;
    var first;
    first, eof := r.Read(1);
    if eof {
      return;
    }
    assert first == [s[0]] && r.Remaining == s[1..];
    n := Width(first[0]);
    var bytes := first;
    if n > 1 {
      var more;
      more, eof := r.Read(n - 1);
      if eof {
        return;
      }
      bytes := first + ReadPadded(more, n - 1);
      assert bytes == ReadPadded(s, n);
    } else {
      assert bytes == ReadPadded(s, n);
    }
    assert r.Remaining == Drop(s, n);
    v := DecodeLoop(bytes);
  }

  lemma ZerosFrom(s: seq<Byte>, k: nat)
    requires k <= |s|
    ensures LeadingZeros(s[k..]) == if k < |s| && s[k] == 0 then 1 + LeadingZeros(s[k + 1..]) else 0
  {
    if k < |s| {
      assert s[k..][0] == s[k] && s[k..][1..] == s[k + 1..];
    }
  }

  lemma ReadOne(s: seq<Byte>, k: nat)
    requires k <= |s|
    ensures k < |s| ==> Take(s[k..], 1) == [s[k]] && Drop(s[k..], 1) == s[k + 1..] && [s[k]] + s[k + 1..] == s[k..]
    ensures k == |s| ==> Take(s[k..], 1) == [] && Drop(s[k..], 1) == s[k..]
  {
  }

  method ReadPadding(r: ByteReader) returns (length: nat, rr: ByteReader)
    requires r.Valid() && r.Pushed == 0
    modifies r.Repr
    ensures rr.Valid() && rr.Pushed <= 1 && fresh(rr.Repr - r.Repr) && r.Repr == old(r.Repr)
    ensures var z := LeadingZeros(old(r.Remaining));
            length == 1 + z && rr.Remaining == old(r.Remaining)[z..]
  {
    hide LeadingZeros, Take, Drop;
    ghost var s := r.Remaining;
    assert s[0..] == s;
    length := 1;
    while true
      invariant r.Valid() && r.Repr == old(r.Repr) && r.Pushed == 0
      invariant 1 <= length <= |s| + 1 && r.Remaining == s[length - 1..]
      invariant LeadingZeros(s) == length - 1 + LeadingZeros(s[length - 1..])
      decreases |r.Remaining|
    {
      ZerosFrom(s, length - 1);
      ReadOne(s, length - 1);
      var b, eof := r.Read(1);
      if eof {
        return length, r;
      }
      if b[0] != 0 {
        rr := ByteReader.RewindReader(r, b);
        assert rr.Remaining == s[length - 1..];
        return;
      }
      length := length + 1;
    }
  }

  method ReadCrypto(r: ByteReader) returns (f: Fragment, failed: bool)
    requires r.Valid() && r.Pushed == 0
    modifies r.Repr
    ensures r.Valid() && r.Repr == old(r.Repr) && r.Pushed <= 1
    ensures !failed ==> NextCrypto(old(r.Remaining)) == CryptoRead(f, r.Remaining) && r.Pushed == 0
    ensures failed ==> NextCrypto(old(r.Remaining)) == CryptoFailed
  {
    hide NextVli, Take, Drop, ReadPadded, Width;
    f := Fragment(0, []);
    var offset, _, failed1 := ReadNextVLI(r);
    if failed1 {
      return f, true;
    }
    var length, _, failed2 := ReadNextVLI(r);
    if failed2 {
      return f, true;
    }
    var data;
    PaddedTake(r.Remaining, length);
    data, failed := r.Read(length);
    f := Fragment(offset, ReadPadded(data, length));
  }

  datatype Round = One(frame: Frame) | AtEnd | Unreadable

  method ReadFrame(r: ByteReader) returns (o: Round, rr: ByteReader)
    requires r.Valid() && r.Pushed <= 1
    modifies r.Repr
    ensures rr.Valid() && rr.Pushed <= 1 && fresh(rr.Repr - r.Repr) && r.Repr == old(r.Repr)
    ensures match o
            case AtEnd => NextFrame(old(r.Remaining)) == End
            case Unreadable => NextFrame(old(r.Remaining)) == Bad
            case One(f) => NextFrame(old(r.Remaining)) == Got(f, rr.Remaining)
  {
    var t, _, eof := ReadNextVLI(r);
    if eof {
      return AtEnd, r;
    }
    if t == 0 {
      var length;
      length, rr := ReadPadding(r);
      return One(Padding(length)), rr;
    } else if t == 1 {
      return One(Ping), r;
    } else if t == 6 {
      var f, failed := ReadCrypto(r);
      if failed {
        return Unreadable, r;
      }
      return One(Crypto(f)), r;
    } else {
      return Unreadable, r;
    }
  }

  ghost function Append(frames: seq<Frame>, p: Parsed): Parsed {
    if p.Failed? then Failed else Done(frames + p.frames)
  }

  lemma AppendNothing(p: Parsed)
    ensures Append([], p) == p
  {
  }

  /** One round of the loop, after `frames` have been read. */
  lemma ParseStep(s: seq<Byte>, frames: seq<Frame>)
    ensures Append(frames, Parse(s)) ==
              match NextFrame(s)
              case End => Done(frames)
              case Bad => Failed
              case Got(f, rest) => Append(frames + [f], Parse(rest))
  {
    hide NextFrame;
    if NextFrame(s).Got? && Parse(NextFrame(s).rest).Done? {
      var f, fs := NextFrame(s).frame, Parse(NextFrame(s).rest).frames;
      assert frames + ([f] + fs) == frames + [f] + fs;
    }
  }

  method ReadAllFrames(input: ByteReader) returns (p: Parsed)
    requires input.Valid() && input.Pushed == 0
    modifies input.Repr
    ensures p == Parse(old(input.Remaining))
  {
    hide Parse, Append, NextFrame;
    var r, frames := input, [];
    ghost var s := input.Remaining;
    AppendNothing(Parse(s));
    while true
      invariant r.Valid() && r.Pushed <= 1 && fresh(r.Repr - old(input.Repr))
      invariant Parse(s) == Append(frames, Parse(r.Remaining))
      decreases |r.Remaining|
    {
      ParseStep(r.Remaining, frames);
      var o, rr := ReadFrame(r);
      match o {
        case AtEnd => return Done(frames);
        case Unreadable => return Failed;
        case One(f) => r, frames := rr, frames + [f];
      }
    }
  }

  // ----- Serialisation -----

  function ZeroBytes(n: nat): (s: seq<Byte>)
    ensures |s| == n && forall i :: 0 <= i < n ==> s[i] == 0
  {
    seq(n, _ => 0)
  }

  /** A frame as written: padding as zero bytes, integers in a chosen width. */
  datatype Wire =
    | Zeros(n: nat)
    | PingAs(typeWidth: nat)
    | CryptoAs(fragment: Fragment, typeWidth: nat, offsetWidth: nat, lengthWidth: nat)
  {
    predicate Legal() {
      match this
      case Zeros(n) => n > 0
      case PingAs(w) => Fits(1, w)
      case CryptoAs(f, w, o, l) => Fits(6, w) && Fits(f.offset, o) && Fits(|f.data|, l)
    }

    function Written(): seq<Byte>
      requires Legal()
    {
      match this
      case Zeros(n) => ZeroBytes(n)
      case PingAs(w) => Encode(1, w)
      case CryptoAs(f, w, o, l) => Encode(6, w) + (Encode(f.offset, o) + (Encode(|f.data|, l) + f.data))
    }

    function Meaning(): Frame {
      match this
      case Zeros(n) => Padding(n)
      case PingAs(_) => Ping
      case CryptoAs(f, _, _, _) => Crypto(f)
    }
  }

  ghost predicate AllLegal(ws: seq<Wire>) {
    forall i :: 0 <= i < |ws| ==> ws[i].Legal()
  }

  function Serialise(ws: seq<Wire>): seq<Byte>
    requires forall i :: 0 <= i < |ws| ==> ws[i].Legal()
  {
    if ws == [] then [] else ws[0].Written() + Serialise(ws[1..])
  }

  function FramesOf(ws: seq<Wire>): seq<Frame> {
    seq(|ws|, i requires 0 <= i < |ws| => ws[i].Meaning())
  }

  /** Adjacent PADDING frames become one. */
  function MergePadding(fs: seq<Frame>): seq<Frame>
    decreases |fs|
  {
    if |fs| <= 1 then fs
    else if fs[0].Padding? && fs[1].Padding? then MergePadding([Padding(fs[0].length + fs[1].length)] + fs[2..])
    else [fs[0]] + MergePadding(fs[1..])
  }

  lemma {:induction false} LeadingZerosOf(n: nat, t: seq<Byte>)
    requires t == [] || t[0] != 0
    ensures LeadingZeros(ZeroBytes(n) + t) == n
  {
    if n > 0 {
      LeadingZerosOf(n - 1, t);
      assert (ZeroBytes(n) + t)[1..] == ZeroBytes(n - 1) + t;
    } else {
      assert ZeroBytes(0) + t == t;
    }
  }

  lemma ZerosParse(n: nat, t: seq<Byte>)
    requires n > 0 && (t == [] || t[0] != 0)
    ensures NextFrame(ZeroBytes(n) + t) == Got(Padding(n), t)
  {
    var s := ZeroBytes(n) + t;
    assert s[0] == 0;
    var rest := ZeroBytes(n - 1) + t;
    assert s[1..] == rest;
    assert ReadPadded(s, 1) == [0] && Unset([0]) == [0];
    assert FromBigEndian([0][..0]) == 0;
    assert NextVli(s) == Value(0, 1, rest);
    LeadingZerosOf(n - 1, t);
    assert rest[n - 1..] == t;
  }

  lemma PingParses(w: nat, t: seq<Byte>)
    requires Fits(1, w)
    ensures NextFrame(Encode(1, w) + t) == Got(Ping, t)
    ensures Encode(1, w)[0] != 0
  {
    NextInvertsEncode(1, w, t);
    EncodeShape(1, w);
  }

  lemma NextCryptoInverts(f: Fragment, o: nat, l: nat, t: seq<Byte>)
    requires Fits(f.offset, o) && Fits(|f.data|, l)
    ensures NextCrypto(Encode(f.offset, o) + (Encode(|f.data|, l) + (f.data + t))) == CryptoRead(f, t)
  {
    hide NextVli, Encode;
    var s3 := f.data + t;
    NextInvertsEncode(f.offset, o, Encode(|f.data|, l) + s3);
    NextInvertsEncode(|f.data|, l, s3);
    assert s3[..|f.data|] == f.data && s3[|f.data|..] == t;
  }

  lemma CryptoParses(x: Wire, t: seq<Byte>)
    requires x.CryptoAs? && x.Legal()
    ensures NextFrame(x.Written() + t) == Got(Crypto(x.fragment), t)
    ensures x.Written()[0] != 0
  {
    hide NextVli, Encode, NextCrypto;
    var CryptoAs(f, w, o, l) := x;
    var s1 := Encode(f.offset, o) + (Encode(|f.data|, l) + (f.data + t));
    assert x.Written() + t == Encode(6, w) + s1;
    NextInvertsEncode(6, w, s1);
    EncodeShape(6, w);
    NextCryptoInverts(f, o, l, t);
  }

  /** One frame is read back, unless it is padding and a zero byte follows. */
  lemma WireParses(x: Wire, t: seq<Byte>)
    requires x.Legal()
    ensures (x.Zeros? && t != [] && t[0] == 0) || NextFrame(x.Written() + t) == Got(x.Meaning(), t)
    ensures !x.Zeros? ==> x.Written()[0] != 0
  {
    match x
    case Zeros(n) =>
      if t == [] || t[0] != 0 {
        ZerosParse(n, t);
      }
    case PingAs(w) => PingParses(w, t);
    case CryptoAs(_, _, _, _) => CryptoParses(x, t);
  }

  function Merged(ws: seq<Wire>): seq<Wire>
    requires |ws| > 1 && ws[0].Zeros? && ws[1].Zeros?
  {
    [Zeros(ws[0].n + ws[1].n)] + ws[2..]
  }

  lemma MergedWritten(ws: seq<Wire>)
    requires AllLegal(ws) && |ws| > 1 && ws[0].Zeros? && ws[1].Zeros?
    ensures AllLegal(Merged(ws)) && Serialise(Merged(ws)) == Serialise(ws)
  {
  }

  lemma MergedMeaning(ws: seq<Wire>)
    requires |ws| > 1 && ws[0].Zeros? && ws[1].Zeros?
    ensures MergePadding(FramesOf(Merged(ws))) == MergePadding(FramesOf(ws))
  {
    assert FramesOf(Merged(ws)) == [Padding(ws[0].n + ws[1].n)] + FramesOf(ws)[2..];
  }

  lemma FirstMeaning(ws: seq<Wire>)
    requires ws != [] && !(|ws| > 1 && ws[0].Zeros? && ws[1].Zeros?)
    ensures MergePadding(FramesOf(ws)) == [ws[0].Meaning()] + MergePadding(FramesOf(ws[1..]))
  {
    assert FramesOf(ws)[1..] == FramesOf(ws[1..]);
  }

  /** Bytes that do not go on with padding. */
  predicate NoPadding(rest: seq<Byte>) {
    rest == [] || rest[0] != 0
  }

  lemma FirstParses(ws: seq<Wire>, rest: seq<Byte>)
    requires AllLegal(ws) && ws != [] && !(|ws| > 1 && ws[0].Zeros? && ws[1].Zeros?) && NoPadding(rest)
    ensures NextFrame(Serialise(ws) + rest) == Got(ws[0].Meaning(), Serialise(ws[1..]) + rest)
  {
    hide NextFrame, Wire.Written, Wire.Meaning, Serialise, NoPadding;
    var tail := Serialise(ws[1..]) + rest;
    SerialiseFirst(ws);
    assert Serialise(ws) + rest == ws[0].Written() + tail;
    if ws[0].Zeros? {
      TailStarts(ws[1..], rest);
    }
    FirstOf(ws[0], tail);
  }

  lemma SerialiseFirst(ws: seq<Wire>)
    requires AllLegal(ws) && ws != []
    ensures Serialise(ws) == ws[0].Written() + Serialise(ws[1..])
  {
  }

  lemma FirstOf(x: Wire, t: seq<Byte>)
    requires x.Legal() && (x.Zeros? ==> NoPadding(t))
    ensures NextFrame(x.Written() + t) == Got(x.Meaning(), t)
  {
    hide NextFrame, Wire.Written, Wire.Meaning;
    WireParses(x, t);
  }

  lemma TailStarts(ws: seq<Wire>, rest: seq<Byte>)
    requires AllLegal(ws) && NoPadding(rest) && (ws == [] || !ws[0].Zeros?)
    ensures NoPadding(Serialise(ws) + rest)
  {
    hide NextFrame, Wire.Written, Wire.Meaning;
    if ws == [] {
      assert Serialise(ws) + rest == rest;
    } else {
      WireParses(ws[0], []);
      assert |ws[0].Written()| > 0 by { WrittenSomething(ws[0]); }
      assert (Serialise(ws) + rest)[0] == ws[0].Written()[0];
    }
  }

  lemma WrittenSomething(x: Wire)
    requires x.Legal()
    ensures |x.Written()| > 0
  {
    hide Encode;
  }

  /** Written frames are read one by one, whatever follows them, even what fails. */
  lemma {:induction false} ParsePrefix(ws: seq<Wire>, rest: seq<Byte>)
    requires AllLegal(ws) && NoPadding(rest)
    ensures Parse(Serialise(ws) + rest) == Append(MergePadding(FramesOf(ws)), Parse(rest))
    decreases |ws|
  {
    hide NextFrame, Wire.Meaning, Parse, Append;
    if ws == [] {
      assert Serialise(ws) + rest == rest;
      AppendNothing(Parse(rest));
    } else if |ws| > 1 && ws[0].Zeros? && ws[1].Zeros? {
      MergedWritten(ws);
      MergedMeaning(ws);
      ParsePrefix(Merged(ws), rest);
    } else {
      FirstParses(ws, rest);
      FirstMeaning(ws);
      ParsePrefix(ws[1..], rest);
      ParseFirst(Serialise(ws) + rest);
      AppendCons(ws[0].Meaning(), MergePadding(FramesOf(ws[1..])), Parse(rest));
    }
  }

  lemma ParseFirst(s: seq<Byte>)
    requires NextFrame(s).Got?
    ensures Parse(s) == Cons(NextFrame(s).frame, Parse(NextFrame(s).rest))
  {
    hide NextFrame;
  }

  lemma AppendCons(f: Frame, fs: seq<Frame>, p: Parsed)
    ensures Cons(f, Append(fs, p)) == Append([f] + fs, p)
  {
    if p.Done? {
      assert [f] + (fs + p.frames) == [f] + fs + p.frames;
    }
  }

  /** Reading all frames undoes serialisation, up to the split of padding into frames. */
  lemma ParseInvertsSerialise(ws: seq<Wire>)
    requires AllLegal(ws)
    ensures Parse(Serialise(ws)) == Done(MergePadding(FramesOf(ws)))
  {
    ParsePrefix(ws, []);
    assert Serialise(ws) + [] == Serialise(ws);
  }

  /** A frame of any type but PADDING (0), PING (1) and CRYPTO (6) fails the whole payload, wherever it comes. */
  lemma UnknownFails(ws: seq<Wire>, kind: nat, w: nat, rest: seq<Byte>)
    requires AllLegal(ws) && Fits(kind, w) && kind != 0 && kind != 1 && kind != 6
    ensures Parse(Serialise(ws) + (Encode(kind, w) + rest)) == Failed
  {
    hide Encode, Fits;
    EncodeShape(kind, w);
    NextInvertsEncode(kind, w, rest);
    var s := Encode(kind, w) + rest;
    assert s[0] == Encode(kind, w)[0];
    ParsePrefix(ws, s);
  }

  /** The frame with the first `n` bytes of its data and no more. */
  function CutOff(x: Wire, n: nat): seq<Byte>
    requires x.CryptoAs? && x.Legal() && n < |x.fragment.data|
  {
    x.Written()[..|x.Written()| - |x.fragment.data| + n]
  }

  /** What is made of it: zeros for what is missing. */
  function FilledUp(f: Fragment, n: nat): Fragment
    requires n < |f.data|
  {
    Fragment(f.offset, f.data[..n] + ZeroBytes(|f.data| - n))
  }

  lemma CutOffCrypto(f: Fragment, o: nat, l: nat, n: nat)
    requires Fits(f.offset, o) && Fits(|f.data|, l) && n < |f.data|
    ensures NextCrypto(Encode(f.offset, o) + (Encode(|f.data|, l) + f.data[..n])) ==
              if n == 0 then CryptoFailed else CryptoRead(FilledUp(f, n), [])
  {
    hide NextVli, Encode, Fits;
    NextInvertsEncode(f.offset, o, Encode(|f.data|, l) + f.data[..n]);
    NextInvertsEncode(|f.data|, l, f.data[..n]);
    if n > 0 {
      assert ReadPadded(f.data[..n], |f.data|) == f.data[..n] + ZeroBytes(|f.data| - n);
    }
  }

  lemma CutOffFrame(x: Wire, n: nat)
    requires x.CryptoAs? && x.Legal() && n < |x.fragment.data|
    ensures NoPadding(CutOff(x, n)) && CutOff(x, n) != []
    ensures NextFrame(CutOff(x, n)) == if n == 0 then Bad else Got(Crypto(FilledUp(x.fragment, n)), [])
  {
    hide NextVli, Encode, Fits, NextCrypto, FilledUp;
    var CryptoAs(f, w, o, l) := x;
    var s1 := Encode(f.offset, o) + (Encode(|f.data|, l) + f.data[..n]);
    assert CutOff(x, n) == Encode(6, w) + s1;
    EncodeShape(6, w);
    assert CutOff(x, n)[0] == Encode(6, w)[0];
    NextInvertsEncode(6, w, s1);
    CutOffCrypto(f, o, l, n);
  }

  /** A CRYPTO frame cut off in its data is filled up with zeros, and fails if none of its data is there. */
  lemma CryptoCutOff(ws: seq<Wire>, x: Wire, n: nat)
    requires AllLegal(ws) && x.CryptoAs? && x.Legal() && n < |x.fragment.data|
    ensures Parse(Serialise(ws) + CutOff(x, n)) ==
              if n == 0 then Failed else Done(MergePadding(FramesOf(ws)) + [Crypto(FilledUp(x.fragment, n))])
  {
    hide NextFrame, CutOff, FilledUp, MergePadding, FramesOf, NoPadding, Serialise;
    CutOffFrame(x, n);
    ParsePrefix(ws, CutOff(x, n));
    NothingToParse();
  }

  lemma NothingToParse()
    ensures Parse([]) == Done([])
  {
  }
}
