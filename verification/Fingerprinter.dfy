/**
  The QUIC fingerprinter: datagrams of many sources, each source with its own
  gatherer, whose deadline runs from the first datagram that decodes.
 */
module Fingerprinter {
  import opened Bytes
  import opened Gathering
  import opened InitialPacket

  type Key = string

  datatype Slot<H> = Slot(limits: Limits, gather: Gather<H>)

  /** A datagram comes with what it decodes to; a removal is by a timer or by `Pop`. */
  datatype Event = Received(from: Key, decoded: InitialPacket.Result<Packet>, now: int) | Removed(from: Key)

  /** A zero timeout leaves the deadline unset. */
  function NewLimits(timeout: nat, now: int): Limits {
    if timeout == 0 then DEFAULT_LIMITS else DEFAULT_LIMITS.(deadline := now + timeout)
  }

  datatype Config<!H> = Config(crypto: Crypto, env: Env<H>, timeout: nat)

  function SlotFor<H>(c: Config<H>, slots: map<Key, Slot<H>>, from: Key, now: int): Slot<H> {
    if from in slots then slots[from] else Slot(NewLimits(c.timeout, now), Start())
  }

  function Fed<H>(c: Config<H>, slot: Slot<H>, p: Packet, now: int): Slot<H> {
    slot.(gather := Arrive(c.env, slot.limits, slot.gather, p, now).0)
  }

  function Next<H>(c: Config<H>, slots: map<Key, Slot<H>>, e: Event): map<Key, Slot<H>> {
    match e
    case Removed(from) => slots - {from}
    case Received(from, decoded, now) =>
      if decoded.Failure? then slots
      else slots[from := Fed(c, SlotFor(c, slots, from, now), decoded.value, now)]
  }

  // ----- The object -----

  datatype Outcome = Closed | Ignored | Undecodable(error: Error) | Added(result: Gathering.Result)

  /** What a call returns for what the datagram decodes to. */
  function Handled<H>(
    c: Config<H>, slots: map<Key, Slot<H>>, from: Key, decoded: InitialPacket.Result<Packet>, now: int): Outcome
  {
    match decoded
    case Failure(e) => if e in {NotLongHeader, NotInitial, UnsupportedVersion} then Ignored else Undecodable(e)
    case Success(p) =>
      var slot := SlotFor(c, slots, from, now);
      Added(Arrive(c.env, slot.limits, slot.gather, p, now).1)
  }

  class QUICFingerprinter<H> {
    const config: Config<H>
    var gatherers: map<Key, Slot<H>>
    var closed: bool

    constructor (config: Config<H>)
      ensures gatherers == map[] && !closed && this.config == config
    {
      this.config, gatherers, closed := config, map[], false;
    }

    method HandlePacket(from: Key, bytes: seq<Byte>, now: int) returns (r: Outcome)
      modifies this
      ensures closed == old(closed)
      ensures closed ==> gatherers == old(gatherers) && r == Closed
      ensures !closed ==>
                var decoded := Decode(config.crypto, bytes);
                && gatherers == Next(config, old(gatherers), Received(from, decoded, now))
                && r == Handled(config, old(gatherers), from, decoded, now)
    {
      hide Decode, Arrive;
      if closed {
        return Closed;
      }
      var decoded := DecodeQUICHeaderAndFrames(config.crypto, bytes);
      if decoded.Failure? {
        var e := decoded.error;
        return if e in {NotLongHeader, NotInitial, UnsupportedVersion} then Ignored else Undecodable(e);
      }
      if from !in gatherers {
        gatherers := gatherers[from := Slot(NewLimits(config.timeout, now), Start())];
      }
      var slot := gatherers[from];
      var (gather, result) := Arrive(config.env, slot.limits, slot.gather, decoded.value, now);
      gatherers := gatherers[from := slot.(gather := gather)];
      return Added(result);
    }

    /** What a timer does to the map, and `Pop` before it looks at the gatherer. */
    method Delete(from: Key)
      modifies this
      ensures gatherers == Next(config, old(gatherers), Removed(from)) && closed == old(closed)
    {
      gatherers := gatherers - {from};
    }

    method Close()
      modifies this
      ensures closed && gatherers == old(gatherers)
    {
      closed := true;
    }
  }

  // ----- What is ignored -----

  /**
    A call answers nil without more just to datagrams that are not long-header
    Initials of version 1; it takes a packet in just from a protected Initial
    that opens; and it leaves the map alone in every other case.
   */
  lemma HandledIs<H>(c: Config<H>, slots: map<Key, Slot<H>>, from: Key, bytes: seq<Byte>, now: int)
    ensures var decoded := Decode(c.crypto, bytes);
            var r := Handled(c, slots, from, decoded, now);
            && (r == Ignored <==>
                  |bytes| >= 7 && !(0xC0 <= bytes[0] < 0xD0 && bytes[1..5] == [0, 0, 0, 1]))
            && (r.Added? <==>
                  exists i, t, p :: IsInitial(c.crypto, bytes, i, t) && i.Legal() && OpensTo(c.crypto, i, p))
            && (!r.Added? ==> Next(c, slots, Received(from, decoded, now)) == slots)
  {
    hide Decode, Arrive, IsInitial, OpensTo;
    DecodeErrors(c.crypto, bytes);
    var decoded := Decode(c.crypto, bytes);
    if decoded.Success? {
      DecodeIff(c.crypto, bytes, decoded.value);
    }
    if i, t, p :| IsInitial(c.crypto, bytes, i, t) && i.Legal() && OpensTo(c.crypto, i, p) {
      DecodeIff(c.crypto, bytes, p);
    }
  }
}
