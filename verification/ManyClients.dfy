/** What the fingerprinter makes of many sources at once: each source fares as if it were alone. */
module ManyClients {
  import opened EndToEnd
  import opened Fingerprinter
  import opened Gathering
  import opened InitialPacket
  import opened Options
  import opened Reassembly
  import opened Sorting
  import opened Bytes
  import opened Frames

  /** What the fingerprinter is given: datagrams, and removals by a timer or by `Pop`. */
  datatype Input = Input(from: Key, datagram: Option<Datagram>)

  function EventOf(crypto: Crypto, i: Input): Event {
    match i.datagram
    case None => Removed(i.from)
    case Some(d) => Received(i.from, Decode(crypto, d.bytes), d.now)
  }

  ghost function SlotsAfter<H>(c: Config<H>, inputs: seq<Input>): map<Key, Slot<H>> {
    if inputs == [] then map[]
    else Next(c, SlotsAfter(c, inputs[..|inputs| - 1]), EventOf(c.crypto, inputs[|inputs| - 1]))
  }

  /** The datagrams of source `k` since it was last removed. */
  ghost function Since(inputs: seq<Input>, k: Key): seq<Datagram> {
    if inputs == [] then [] else
      var before := Since(inputs[..|inputs| - 1], k);
      var last := inputs[|inputs| - 1];
      if last.from != k then before else if last.datagram == None then [] else before + [last.datagram.value]
  }

  /** When the first of the datagrams that decode came. */
  ghost function FirstDecoded(crypto: Crypto, ds: seq<Datagram>): Option<int> {
    if ds == [] then None else
      var before, last := FirstDecoded(crypto, ds[..|ds| - 1]), ds[|ds| - 1];
      if before.Some? then before else if Decode(crypto, last.bytes).Success? then Some(last.now) else None
  }

  lemma {:induction false} NoneDecoded<H>(c: Config<H>, limits: Limits, ds: seq<Datagram>)
    requires FirstDecoded(c.crypto, ds) == None
    ensures HandleAll(c.crypto, c.env, limits, ds) == Start()
  {
    hide Decode, Arrive;
    if ds == [] {
    } else {
      NoneDecoded(c, limits, ds[..|ds| - 1]);
    }
  }

  /** At most 4 packets, numbered at most 32 apart, until the timeout has run; with none set, until the zero time. */
  function LimitsFrom(timeout: nat, first: int): Limits {
    Limits(32, 4, if timeout == 0 then 0 else first + timeout)
  }

  /** The slot of a source is what its own datagrams make of a new gatherer. */
  ghost predicate OwnSlot<H>(c: Config<H>, slots: map<Key, Slot<H>>, k: Key, ds: seq<Datagram>) {
    var first := FirstDecoded(c.crypto, ds);
    && (k in slots <==> first.Some?)
    && (first.Some? ==>
          var limits := LimitsFrom(c.timeout, first.value);
          slots[k] == Slot(limits, HandleAll(c.crypto, c.env, limits, ds)))
  }

  lemma OwnDatagram<H>(c: Config<H>, slots: map<Key, Slot<H>>, k: Key, ds: seq<Datagram>, d: Datagram)
    requires OwnSlot(c, slots, k, ds)
    ensures OwnSlot(c, Next(c, slots, Received(k, Decode(c.crypto, d.bytes), d.now)), k, ds + [d])
  {
    hide Decode, Arrive;
    var all := ds + [d];
    assert all[..|all| - 1] == ds;
    if FirstDecoded(c.crypto, ds) == None {
      NoneDecoded(c, LimitsFrom(c.timeout, d.now), ds);
    }
  }

  lemma OtherEvent<H>(c: Config<H>, slots: map<Key, Slot<H>>, k: Key, ds: seq<Datagram>, e: Event)
    requires OwnSlot(c, slots, k, ds) && e.from != k
    ensures OwnSlot(c, Next(c, slots, e), k, ds)
  {
    hide Decode, Arrive, FirstDecoded, HandleAll;
  }

  /**
    Whatever the interleaving of sources and removals, the map holds a source
    just when one of its datagrams has decoded since it was last removed; and
    its gatherer is what those datagrams alone make of a new one, with the
    deadline set by the first that decoded.
   */
  lemma {:induction false} SourceAlone<H>(c: Config<H>, inputs: seq<Input>, k: Key)
    ensures OwnSlot(c, SlotsAfter(c, inputs), k, Since(inputs, k))
  {
    hide OwnSlot, Next;
    if inputs == [] {
      NewSource(c, map[], k);
    } else {
      var before, e := inputs[..|inputs| - 1], inputs[|inputs| - 1];
      SourceAlone(c, before, k);
      if e.from != k {
        OtherEvent(c, SlotsAfter(c, before), k, Since(before, k), EventOf(c.crypto, e));
      } else if e.datagram == None {
        RemovedAbsent(c, SlotsAfter(c, before), k);
        NewSource(c, SlotsAfter(c, inputs), k);
      } else {
        OwnDatagram(c, SlotsAfter(c, before), k, Since(before, k), e.datagram.value);
      }
    }
  }

  lemma RemovedAbsent<H>(c: Config<H>, slots: map<Key, Slot<H>>, k: Key)
    ensures k !in Next(c, slots, Removed(k))
  {
  }

  lemma NewSource<H>(c: Config<H>, slots: map<Key, Slot<H>>, k: Key)
    requires k !in slots
    ensures OwnSlot(c, slots, k, [])
  {
  }

  /** A client: the Initials it sent and the message they carry. */
  datatype Client = Client(sent: seq<Sent>, message: seq<Byte>)

  /** At most 4 sealed Initials, numbered at most 32 apart, each with some of the message and all of it between them. */
  ghost predicate WellSent(crypto: Crypto, client: Client) {
    && AllSealed(crypto, client.sent) && |client.sent| <= 4
    && var ps, m := PacketsSent(crypto, client.sent), client.message;
       && (forall i, j :: 0 <= i < j < |ps| ==> ps[i].header.pn != ps[j].header.pn)
       && (forall p, q :: p in ps && q in ps ==> p.header.pn <= q.header.pn + 32)
       && (forall p :: p in ps ==> CryptoOf(p.frames) != [])
       && Tiles(Fragments(ps), m) && 4 < |m| <= 65536 && m == Handshake(m[0], m[4..])
  }

  /**
    The datagrams carry all that the client sent, amid any that do not decode,
    and none is later than the timeout allows from the first that decodes.
   */
  ghost predicate Delivered<H>(c: Config<H>, client: Client, ds: seq<Datagram>) {
    var first := FirstDecoded(c.crypto, ds);
    && c.timeout > 0 && first.Some? && WellSent(c.crypto, client)
    && Traffic(c.crypto, Limits(32, 4, first.value + c.timeout), client.sent, ds)
  }

  lemma WellSentSpans(crypto: Crypto, client: Client, deadline: int)
    requires WellSent(crypto, client)
    ensures Spans(Limits(32, 4, deadline), PacketsSent(crypto, client.sent), client.message)
  {
    hide Tiles, Fragments, PacketsSent, Handshake, AllSealed;
    DeclaresItselfIff(client.message);
    DistinctNumbers(PacketsSent(crypto, client.sent));
  }

  lemma DistinctNumbers(ps: seq<Packet>)
    requires forall i, j :: 0 <= i < j < |ps| ==> ps[i].header.pn != ps[j].header.pn
    ensures KeysDistinct(ps, ByNumber)
  {
  }

  ghost predicate Fingerprinted<H>(c: Config<H>, client: Client, g: Gather<H>)
    requires AllSealed(c.crypto, client.sent)
  {
    var sorted := Sort(PacketsSent(c.crypto, client.sent), ByNumber);
    sorted != [] && Recovers(c.env, g, sorted, client.message)
  }

  /** The source is in the map, and its gatherer has the client's message just when the fragments flowed. */
  ghost predicate RecoveredJust<H>(c: Config<H>, client: Client, slots: map<Key, Slot<H>>, k: Key, ds: seq<Datagram>) {
    var fs := Brought(c.crypto, ds);
    k in slots && AllSealed(c.crypto, client.sent) &&
    (Fingerprinted(c, client, slots[k].gather) <==> Flows(fs, |fs|))
  }

  /**
    Any number of clients at once, their datagrams interleaved in any way, with
    those of others and with removals: each client whose datagrams were
    delivered since its last removal has its ClientHello recovered just when
    its fragments came in an order that flows.
   */
  lemma EveryClientRecovered<H>(c: Config<H>, inputs: seq<Input>, clients: map<Key, Client>)
    requires forall k :: k in clients ==> Delivered(c, clients[k], Since(inputs, k))
    ensures forall k :: k in clients ==> RecoveredJust(c, clients[k], SlotsAfter(c, inputs), k, Since(inputs, k))
  {
    hide SlotsAfter, Since, RecoveredJust, Delivered, OwnSlot;
    forall k | k in clients
      ensures RecoveredJust(c, clients[k], SlotsAfter(c, inputs), k, Since(inputs, k))
    {
      SourceAlone(c, inputs, k);
      ClientRecovered(c, SlotsAfter(c, inputs), k, clients[k], Since(inputs, k));
    }
  }

  lemma ClientRecovered<H>(c: Config<H>, slots: map<Key, Slot<H>>, k: Key, client: Client, ds: seq<Datagram>)
    requires OwnSlot(c, slots, k, ds) && Delivered(c, client, ds)
    ensures RecoveredJust(c, client, slots, k, ds)
  {
    hide HandleAll, FirstDecoded, Brought, Flows, Sort, Reconstructed, Spans, Traffic, WellSent;
    var limits := LimitsFrom(c.timeout, FirstDecoded(c.crypto, ds).value);
    WellSentSpans(c.crypto, client, limits.deadline);
    SentSealed(c.crypto, client);
    RecoveredIff(c.crypto, c.env, limits, client.sent, client.message, ds);
  }

  lemma SentSealed(crypto: Crypto, client: Client)
    requires WellSent(crypto, client)
    ensures AllSealed(crypto, client.sent) && |client.message| > 4
  {
  }

  // ----- After the deadline -----

  lemma LateArrival<H>(env: Env<H>, limits: Limits, g: Gather<H>, p: Packet, now: int)
    requires now > limits.deadline
    ensures Arrive(env, limits, g, p, now).0 == g
  {
  }

  /** A datagram later than the timeout allows from the first of its source that decoded changes nothing. */
  lemma LateChangesNothing<H>(c: Config<H>, inputs: seq<Input>, k: Key, d: Datagram)
    requires c.timeout > 0 && FirstDecoded(c.crypto, Since(inputs, k)).Some?
    requires d.now > FirstDecoded(c.crypto, Since(inputs, k)).value + c.timeout
    ensures SlotsAfter(c, inputs + [Input(k, Some(d))]) == SlotsAfter(c, inputs)
  {
    hide Decode, Arrive, HandleAll, FirstDecoded, Since;
    var slots, last := SlotsAfter(c, inputs), Input(k, Some(d));
    SourceAlone(c, inputs, k);
    assert (inputs + [last])[..|inputs|] == inputs;
    var decoded := Decode(c.crypto, d.bytes);
    if decoded.Success? {
      LateArrival(c.env, slots[k].limits, slots[k].gather, decoded.value, d.now);
    }
  }

  lemma {:induction false} LateGathersNothing<H>(c: Config<H>, limits: Limits, ds: seq<Datagram>)
    requires forall d :: d in ds ==> d.now > limits.deadline
    ensures HandleAll(c.crypto, c.env, limits, ds) == Start()
  {
    hide Decode, Arrive;
    if ds == [] {
    } else {
      var n := |ds| - 1;
      assert ds[n] in ds && forall d :: d in ds[..n] ==> d in ds;
      LateGathersNothing(c, limits, ds[..n]);
      var decoded := Decode(c.crypto, ds[n].bytes);
      if decoded.Success? {
        LateArrival(c.env, limits, HandleAll(c.crypto, c.env, limits, ds[..n]), decoded.value, ds[n].now);
      }
    }
  }

  /** With no timeout set no source ever gathers a packet, since every time is after the zero time. */
  lemma NoTimeoutGathersNothing<H>(c: Config<H>, inputs: seq<Input>, k: Key)
    requires c.timeout == 0 && k in SlotsAfter(c, inputs)
    requires forall d :: d in Since(inputs, k) ==> d.now > 0
    ensures SlotsAfter(c, inputs)[k].gather == Start()
  {
    hide SlotsAfter, Since, FirstDecoded, HandleAll;
    SourceAlone(c, inputs, k);
    LateGathersNothing(c, Limits(32, 4, 0), Since(inputs, k));
  }
}
