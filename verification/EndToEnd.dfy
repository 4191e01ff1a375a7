/** From protected datagrams, in whatever order, to the ClientHello that the client sent. */
module EndToEnd {
  import opened Bytes
  import opened Frames
  import opened FrameParser
  import opened Gathering
  import opened InitialPacket
  import opened Options
  import opened Reassembly
  import opened Sorting

  datatype Datagram = Datagram(bytes: seq<Byte>, now: int)

  /** `HandlePacket` once the gatherer is chosen: what does not decode is dropped. */
  function Handle<H>(crypto: Crypto, env: Env<H>, limits: Limits, g: Gather<H>, d: Datagram): Gather<H> {
    match Decode(crypto, d.bytes)
    case Failure(_) => g
    case Success(p) => Arrive(env, limits, g, p, d.now).0
  }

  ghost function HandleAll<H>(crypto: Crypto, env: Env<H>, limits: Limits, ds: seq<Datagram>): Gather<H> {
    if ds == [] then Start()
    else Handle(crypto, env, limits, HandleAll(crypto, env, limits, ds[..|ds| - 1]), ds[|ds| - 1])
  }

  ghost function Arrivals(crypto: Crypto, ds: seq<Datagram>): seq<Arrival> {
    if ds == [] then [] else
      var before, last := Arrivals(crypto, ds[..|ds| - 1]), ds[|ds| - 1];
      match Decode(crypto, last.bytes)
      case Failure(_) => before
      case Success(p) => before + [Arrival(p, last.now)]
  }

  lemma {:induction false} HandleAllIsRun<H>(crypto: Crypto, env: Env<H>, limits: Limits, ds: seq<Datagram>)
    ensures HandleAll(crypto, env, limits, ds) == Gathering.Run(env, limits, Arrivals(crypto, ds))
  {
    hide Decode, Arrive;
    if ds == [] {
    } else {
      HandleAllIsRun(crypto, env, limits, ds[..|ds| - 1]);
    }
  }

  /** An Initial as the client sent it: its header and sealed body, and the frames that were sealed. */
  datatype Sent = Sent(initial: Initial, frames: seq<Wire>)

  /** The packet is well formed, and its body opens to the frames. */
  ghost predicate Sealed(crypto: Crypto, s: Sent) {
    var i := s.initial;
    && i.Legal()
    && FrameParser.AllLegal(s.frames)
    && crypto.open(i.dcid, FromBigEndian(i.pnBytes), i.body[..|i.body| - 16], i.HeaderBytes(), i.body[|i.body| - 16..])
       == Plaintext(FrameParser.Serialise(s.frames))
  }

  /** On the wire, after header protection. */
  function Wired(crypto: Crypto, s: Sent): seq<Byte>
    requires s.initial.Legal()
  {
    s.initial.Protect(crypto.mask(s.initial.dcid, s.initial.Sample()))
  }

  /** The packet to be gathered. */
  function PacketOf(s: Sent): Packet
    requires s.initial.Legal()
  {
    HeaderPreimage.Packet(Recovered(s.initial).header, MergePadding(FramesOf(s.frames)))
  }

  lemma DecodeSent(crypto: Crypto, s: Sent, t: seq<Byte>)
    requires Sealed(crypto, s)
    ensures Decode(crypto, Wired(crypto, s) + t) == Success(PacketOf(s))
  {
    hide Decode, Initial.Protect, Initial.HeaderBytes, Parse, FrameParser.Serialise, Recovered;
    DecodeInvertsProtect(s.initial, crypto, t);
    ParseInvertsSerialise(s.frames);
  }

  /** A datagram that carries one of the packets, with any bytes after it. */
  ghost predicate Carries(crypto: Crypto, d: Datagram, s: Sent)
    requires s.initial.Legal()
  {
    Wired(crypto, s) <= d.bytes
  }

  lemma CarriedDecodes(crypto: Crypto, d: Datagram, s: Sent)
    requires Sealed(crypto, s) && Carries(crypto, d, s)
    ensures Decode(crypto, d.bytes) == Success(PacketOf(s))
  {
    hide Decode, Wired, PacketOf;
    var n := |Wired(crypto, s)|;
    assert d.bytes == Wired(crypto, s) + d.bytes[n..];
    DecodeSent(crypto, s, d.bytes[n..]);
  }

  lemma {:induction false} ArrivalsMembers(crypto: Crypto, ds: seq<Datagram>)
    ensures forall p :: p in PacketsOf(Arrivals(crypto, ds)) <==>
              exists d :: d in ds && Decode(crypto, d.bytes) == Success(p)
    ensures forall a :: a in Arrivals(crypto, ds) ==> exists d :: d in ds && a.now == d.now
  {
    hide Decode;
    if ds == [] {
    } else {
      var before, last := ds[..|ds| - 1], ds[|ds| - 1];
      ArrivalsMembers(crypto, before);
      assert ds == before + [last];
      assert forall d :: d in ds <==> d in before || d == last;
    }
  }

  ghost predicate AllSealed(crypto: Crypto, ss: seq<Sent>) {
    forall i :: 0 <= i < |ss| ==> Sealed(crypto, ss[i])
  }

  ghost function PacketsSent(crypto: Crypto, ss: seq<Sent>): (ps: seq<Packet>)
    requires AllSealed(crypto, ss)
    ensures |ps| == |ss| && forall i :: 0 <= i < |ss| ==> ps[i] == PacketOf(ss[i])
  {
    seq(|ss|, i requires 0 <= i < |ss| => PacketOf(ss[i]))
  }

  /** Datagrams that carry each packet at least once, amid any that do not decode, all before the deadline. */
  ghost predicate Traffic(crypto: Crypto, limits: Limits, ss: seq<Sent>, ds: seq<Datagram>)
    requires AllSealed(crypto, ss)
  {
    && (forall d :: d in ds ==> d.now <= limits.deadline)
    && (forall d :: d in ds ==>
          Decode(crypto, d.bytes).Failure? || exists i :: 0 <= i < |ss| && Carries(crypto, d, ss[i]))
    && (forall i :: 0 <= i < |ss| ==> exists d :: d in ds && Carries(crypto, d, ss[i]))
  }

  lemma TrafficMembers(crypto: Crypto, limits: Limits, ss: seq<Sent>, ds: seq<Datagram>)
    requires AllSealed(crypto, ss) && Traffic(crypto, limits, ss, ds)
    ensures forall p :: p in PacketsOf(Arrivals(crypto, ds)) <==> p in PacketsSent(crypto, ss)
    ensures forall a :: a in Arrivals(crypto, ds) ==> a.now <= limits.deadline
  {
    hide Decode, Carries, PacketOf, Arrivals, PacketsOf;
    ArrivalsMembers(crypto, ds);
    var ps := PacketsSent(crypto, ss);
    forall p | p in PacketsOf(Arrivals(crypto, ds))
      ensures p in ps
    {
      var d :| d in ds && Decode(crypto, d.bytes) == Success(p);
      var i :| 0 <= i < |ss| && Carries(crypto, d, ss[i]);
      CarriedDecodes(crypto, d, ss[i]);
      assert ps[i] == p;
    }
    forall p | p in ps
      ensures p in PacketsOf(Arrivals(crypto, ds))
    {
      var i :| 0 <= i < |ss| && ps[i] == p;
      var d :| d in ds && Carries(crypto, d, ss[i]);
      CarriedDecodes(crypto, d, ss[i]);
    }
  }

  /** The CRYPTO fragments that the datagrams bring, by first arrival of their packets. */
  ghost function Brought(crypto: Crypto, ds: seq<Datagram>): seq<Fragment> {
    Fragments(FirstArrivals(Arrivals(crypto, ds)))
  }

  /**
    A client may cut its ClientHello `m` into any number of CRYPTO frames. From
    any traffic that carries them the gatherer ends with the client's packets,
    and it recovers `m` just when the fragments come in an order that flows.
   */
  lemma RecoveredIff<H>(
    crypto: Crypto, env: Env<H>, limits: Limits, ss: seq<Sent>, m: seq<Byte>, ds: seq<Datagram>)
    requires AllSealed(crypto, ss) && Spans(limits, PacketsSent(crypto, ss), m) && Traffic(crypto, limits, ss, ds)
    ensures var g, sorted := HandleAll(crypto, env, limits, ds), Sort(PacketsSent(crypto, ss), ByNumber);
            var fs := Brought(crypto, ds);
            && g.packets == sorted != []
            && (Flows(fs, |fs|) ==> Recovers(env, g, sorted, m))
            && (!Flows(fs, |fs|) ==> Reconstructed(g.stream) == [] && g.hello == None && !g.completed)
  {
    hide HandleAll, Spans, Traffic, Sort, Gathering.Run, Reconstructed, Recovers, Flows, Fragments, Arrivals;
    HandleAllIsRun(crypto, env, limits, ds);
    TrafficMembers(crypto, limits, ss, ds);
    GathersIff(env, limits, PacketsSent(crypto, ss), m, Arrivals(crypto, ds));
  }

  /**
    Let a client cut its ClientHello `m` into CRYPTO frames, spread them over
    Initials with padding and pings in between, and protect each. Whatever the
    order in which the datagrams arrive, however often, with whatever bytes
    appended and whatever undecodable datagrams among them, the gatherer ends
    with the same packets and reads back `m`.
   */
  lemma ClientHelloRecovered<H>(
    crypto: Crypto, env: Env<H>, limits: Limits, ss: seq<Sent>, m: seq<Byte>, ds: seq<Datagram>)
    requires AllSealed(crypto, ss) && Spread(limits, PacketsSent(crypto, ss), m) && Traffic(crypto, limits, ss, ds)
    ensures var g, sorted := HandleAll(crypto, env, limits, ds), Sort(PacketsSent(crypto, ss), ByNumber);
            sorted != [] && Recovers(env, g, sorted, m)
  {
    hide HandleAll, Spread, Traffic, Sort, Gathering.Run, Recovers, Arrivals;
    HandleAllIsRun(crypto, env, limits, ds);
    TrafficMembers(crypto, limits, ss, ds);
    OrderIndependence(env, limits, PacketsSent(crypto, ss), m, Arrivals(crypto, ds));
  }

  /** Merging padding, as the frame parser does, leaves the CRYPTO fragments as sent. */
  lemma {:induction false} MergeKeepsCrypto(fs: seq<Frame>)
    ensures CryptoOf(MergePadding(fs)) == CryptoOf(fs)
    decreases |fs|
  {
    if |fs| > 1 {
      if fs[0].Padding? && fs[1].Padding? {
        var merged := [Padding(fs[0].length + fs[1].length)] + fs[2..];
        MergeKeepsCrypto(merged);
        assert merged[1..] == fs[2..] == fs[1..][1..];
      } else {
        MergeKeepsCrypto(fs[1..]);
        assert ([fs[0]] + MergePadding(fs[1..]))[1..] == MergePadding(fs[1..]);
      }
    }
  }

  lemma OnePacketSpread(limits: Limits, p: Packet, m: seq<Byte>)
    requires CryptoOf(p.frames) == [Fragment(0, m)] && limits.maxPacketCount > 0
    requires 4 < |m| <= 65536 && DeclaredLength(m) == |m|
    ensures Spread(limits, [p], m)
  {
    hide CryptoOf;
    var fs := Fragments([p]);
    FragmentsConcat([], [p]);
    assert [] + [p] == [p] && [p][..0] == [];
    assert fs == [Fragment(0, m)];
    assert m[0..|m|] == m;
    forall i: nat | i < |m|
      ensures Covered(fs, i)
    {
      assert fs[0].Covers(i);
    }
  }

  /** A ClientHello that fits in one Initial is read back as soon as its datagram is handled. */
  lemma OneInitialSuffices<H>(
    crypto: Crypto, env: Env<H>, limits: Limits, s: Sent, m: seq<Byte>, t: seq<Byte>, now: int)
    requires Sealed(crypto, s) && CryptoOf(FramesOf(s.frames)) == [Fragment(0, m)]
    requires 4 < |m| <= 65536 && DeclaredLength(m) == |m|
    requires limits.maxPacketCount > 0 && now <= limits.deadline
    ensures var g := HandleAll(crypto, env, limits, [Datagram(Wired(crypto, s) + t, now)]);
            Reconstructed(g.stream) == m && g.hello == env.parse(m)
  {
    hide Wired, PacketOf, HandleAll, Spread, Reconstructed, FramesOf, MergePadding, Decode, Carries;
    var d := Datagram(Wired(crypto, s) + t, now);
    assert PacketsSent(crypto, [s]) == [PacketOf(s)];
    SentCrypto(crypto, s);
    OnePacketSpread(limits, PacketOf(s), m);
    CarriesItself(crypto, d, s, t);
    assert d in [d] && [s][0] == s;
    assert forall e :: e in [d] ==> e == d;
    assert Traffic(crypto, limits, [s], [d]);
    ClientHelloRecovered(crypto, env, limits, [s], m, [d]);
  }

  lemma CarriesItself(crypto: Crypto, d: Datagram, s: Sent, t: seq<Byte>)
    requires s.initial.Legal() && d.bytes == Wired(crypto, s) + t
    ensures Carries(crypto, d, s)
  {
  }

  lemma SentCrypto(crypto: Crypto, s: Sent)
    requires Sealed(crypto, s)
    ensures CryptoOf(PacketOf(s).frames) == CryptoOf(FramesOf(s.frames))
  {
    MergeKeepsCrypto(FramesOf(s.frames));
  }
}
