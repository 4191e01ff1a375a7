/**
  Gathering the Initial packets of one connection: the packet-number window,
  the count cap, duplicate discard, sorting, and completion of the ClientHello.
 */
module Gathering {
  import opened Bytes
  import opened Frames
  import opened Options
  import opened Reassembly
  import opened Sorting
  import opened Batch
  import HeaderPreimage

  type Packet = HeaderPreimage.Packet

  /**
    What lies outside this model: parsing a ClientHello (with its transport
    parameters), and the hash over a header preimage.
   */
  datatype Env<!H> = Env(parse: seq<Byte> -> Option<H>, hash: seq<Byte> -> nat)

  datatype Limits = Limits(maxPacketNumber: nat, maxPacketCount: nat, deadline: int)

  /** The default limits, with the deadline that a gatherer has when none was set: the zero time. */
  const DEFAULT_LIMITS := Limits(32, 4, 0)

  datatype Gather<H> = Gather(
    packets: seq<Packet>, base: Option<nat>, stream: State, hello: Option<H>, numID: nat, completed: bool)

  datatype Result = Nil | Expired | Rejected | ReassemblyFailed(error: AddResult) | ParseFailed

  const ByNumber: Packet -> int := (p: Packet) => p.header.pn

  function Distance(a: nat, b: nat): (d: nat)
    ensures a == b + d || b == a + d
  {
    if a > b then a - b else b - a
  }

  function Start<H>(): Gather<H> {
    Gather([], None, EMPTY, None, 0, false)
  }

  predicate HasNumber(ps: seq<Packet>, pn: nat) {
    exists i :: 0 <= i < |ps| && ps[i].header.pn == pn
  }

  /** The end of a call, when the CRYPTO stream is complete. */
  function Finish<H>(env: Env<H>, g: Gather<H>): (Gather<H>, Result)
    requires g.packets != []
  {
    var b := Reconstructed(g.stream);
    var hello := if b == [] then None else env.parse(b);
    if hello == None then (g.(hello := None), ParseFailed)
    else (g.(hello := hello, numID := env.hash(HeaderPreimage.Preimage(g.packets[0])), completed := true), Nil)
  }

  /** One call that is neither late nor after completion, its packet within the limits and new. */
  function Gathered<H>(env: Env<H>, g: Gather<H>, p: Packet): (Gather<H>, Result) {
    var packets := Sort(g.packets + [p], ByNumber);
    var (stream, r) := Feed(g.stream, p.frames);
    var g' := g.(packets := packets, stream := stream);
    match r
    case NeedMore => (g', Nil)
    case Failed(e) => (g', ReassemblyFailed(e))
    case Complete => SortSorts(g.packets + [p], ByNumber); Finish(env, g')
  }

  /** One call of `AddPacket`, at time `now`. */
  function Arrive<H>(env: Env<H>, limits: Limits, g: Gather<H>, p: Packet, now: int): (Gather<H>, Result) {
    if now > limits.deadline then (g, Expired)
    else if g.hello != None then (g, Nil)
    else
      var g := if g.base == None then g.(base := Some(p.header.pn)) else g;
      if Distance(p.header.pn, g.base.value) > limits.maxPacketNumber || |g.packets| >= limits.maxPacketCount then
        (g, Rejected)
      else if HasNumber(g.packets, p.header.pn) then (g, Nil)
      else Gathered(env, g, p)
  }

  // ----- The object -----

  class GatheredClientInitials<H> {
    const env: Env<H>
    const limits: Limits
    const reconstructor: Reconstructor
    var packets: seq<Packet>
    var pnBase: nat
    var pnBaseSet: bool
    var clientHello: Option<H>
    var numID: nat
    var completed: bool

    ghost function Abs(): Gather<H>
      reads this, reconstructor
    {
      Gather(packets, if pnBaseSet then Some(pnBase) else None, reconstructor.Abs(), clientHello, numID, completed)
    }

    constructor (env: Env<H>, limits: Limits)
      ensures Abs() == Start() && this.env == env && this.limits == limits && fresh(reconstructor)
    {
      this.env, this.limits := env, limits;
      reconstructor := new Reconstructor();
      packets, pnBase, pnBaseSet, clientHello, numID, completed := [], 0, false, None, 0, false;
    }

    method AddPacket(p: Packet, now: int) returns (r: Result)
      modifies this, reconstructor
      ensures (Abs(), r) == Arrive(env, limits, old(Abs()), p, now)
    {
      hide Gathered;
      if now > limits.deadline {
        return Expired;
      }
      if clientHello != None {
        return Nil;
      }
      if !pnBaseSet {
        pnBase, pnBaseSet := p.header.pn, true;
      }
      if Distance(p.header.pn, pnBase) > limits.maxPacketNumber || |packets| >= limits.maxPacketCount {
        return Rejected;
      }
      var known := FindNumber(p.header.pn);
      if known {
        return Nil;
      }
      r := KeepAndFeed(p);
    }

    method FindNumber(pn: nat) returns (found: bool)
      ensures found <==> HasNumber(packets, pn)
    {
      var i := 0;
      while i < |packets|
        invariant 0 <= i <= |packets|
        invariant forall j :: 0 <= j < i ==> packets[j].header.pn != pn
      {
        if packets[i].header.pn == pn {
          return true;
        }
        i := i + 1;
      }
      return false;
    }

    /** Keeps the packet in its place and feeds its frames. */
    method KeepAndFeed(p: Packet) returns (r: Result)
      modifies this, reconstructor
      ensures (Abs(), r) == Gathered(env, old(Abs()), p)
    {
      hide Feed, Sort, Finish;
      SortSorts(packets + [p], ByNumber);
      packets := Sort(packets + [p], ByNumber);
      var c := reconstructor.FromFrames(p.frames);
      match c {
        case NeedMore => return Nil;
        case Failed(e) => return ReassemblyFailed(e);
        case Complete => r := GatherComplete();
      }
    }

    method GatherComplete() returns (r: Result)
      requires packets != []
      modifies this
      ensures (Abs(), r) == Finish(env, old(Abs()))
    {
      var b := reconstructor.ReconstructAsBytes();
      clientHello := if b == [] then None else env.parse(b);
      if clientHello == None {
        return ParseFailed;
      }
      var h := HeaderPreimage.WritePreimage(packets[0]);
      numID := env.hash(h);
      completed := true;
      return Nil;
    }
  }

  // ----- What every run keeps -----

  datatype Arrival = Arrival(packet: Packet, now: int)

  ghost function Run<H>(env: Env<H>, limits: Limits, arrivals: seq<Arrival>): Gather<H> {
    if arrivals == [] then Start() else
      var last := arrivals[|arrivals| - 1];
      Arrive(env, limits, Run(env, limits, arrivals[..|arrivals| - 1]), last.packet, last.now).0
  }

  ghost predicate StrictlySorted(ps: seq<Packet>) {
    forall i, j :: 0 <= i < j < |ps| ==> ps[i].header.pn < ps[j].header.pn
  }

  ghost predicate Windowed(ps: seq<Packet>, base: nat, width: nat) {
    forall p :: p in ps ==> Distance(p.header.pn, base) <= width
  }

  ghost predicate Ordered<H>(limits: Limits, g: Gather<H>) {
    && StrictlySorted(g.packets)
    && |g.packets| <= limits.maxPacketCount
    && (g.packets != [] ==>
          && g.base.Some?
          && Windowed(g.packets, g.base.value, limits.maxPacketNumber)
          && HasNumber(g.packets, g.base.value))
    && (g.completed <==> g.hello.Some?)
  }

  ghost predicate GInv<H>(limits: Limits, g: Gather<H>) {
    Ordered(limits, g) && (g.packets == [] && g.base.Some? ==> limits.maxPacketCount == 0)
  }

  lemma NumbersDistinct(ps: seq<Packet>, p: Packet)
    requires StrictlySorted(ps) && !HasNumber(ps, p.header.pn)
    ensures KeysDistinct(ps + [p], ByNumber)
  {
  }

  lemma SortedIn(ps: seq<Packet>, p: Packet)
    requires StrictlySorted(ps) && !HasNumber(ps, p.header.pn)
    ensures StrictlySorted(Sort(ps + [p], ByNumber))
    ensures |Sort(ps + [p], ByNumber)| == |ps| + 1
    ensures forall q :: q in Sort(ps + [p], ByNumber) <==> q in ps || q == p
  {
    var all, t := ps + [p], Sort(ps + [p], ByNumber);
    NumbersDistinct(ps, p);
    SortStrict(all, ByNumber);
    SameMembers(all, t);
    forall i, j | 0 <= i < j < |t|
      ensures t[i].header.pn < t[j].header.pn
    {
      assert ByNumber(t[i]) < ByNumber(t[j]);
    }
  }

  lemma NumberKept(ps: seq<Packet>, t: seq<Packet>, p: Packet, n: nat)
    requires forall q :: q in t <==> q in ps || q == p
    requires HasNumber(ps, n) || n == p.header.pn
    ensures HasNumber(t, n)
  {
    if n == p.header.pn {
      assert p in t;
    } else {
      var i :| 0 <= i < |ps| && ps[i].header.pn == n;
      assert ps[i] in t;
    }
  }

  lemma GatheredKeepsInv<H>(env: Env<H>, limits: Limits, g: Gather<H>, p: Packet)
    requires Ordered(limits, g) && g.hello == None && g.base.Some?
    requires g.packets == [] ==> g.base.value == p.header.pn
    requires Distance(p.header.pn, g.base.value) <= limits.maxPacketNumber && |g.packets| < limits.maxPacketCount
    requires !HasNumber(g.packets, p.header.pn)
    ensures GInv(limits, Gathered(env, g, p).0)
  {
    hide Feed, Sort;
    SortedIn(g.packets, p);
    NumberKept(g.packets, Sort(g.packets + [p], ByNumber), p, g.base.value);
  }

  lemma ArriveKeepsInv<H>(env: Env<H>, limits: Limits, g: Gather<H>, p: Packet, now: int)
    requires GInv(limits, g)
    ensures GInv(limits, Arrive(env, limits, g, p, now).0)
    ensures g.hello.Some? ==> Arrive(env, limits, g, p, now).0 == g
  {
    hide Gathered;
    var g1 := if g.base == None then g.(base := Some(p.header.pn)) else g;
    if && g.hello == None
       && Distance(p.header.pn, g1.base.value) <= limits.maxPacketNumber && |g1.packets| < limits.maxPacketCount
       && !HasNumber(g1.packets, p.header.pn)
    {
      GatheredKeepsInv(env, limits, g1, p);
    }
  }

  /**
    In every run: packet numbers strictly increase, the cap holds, and every
    packet lies within the window of the base, itself a member's number.
   */
  lemma {:induction false} RunKeepsInv<H>(env: Env<H>, limits: Limits, arrivals: seq<Arrival>)
    ensures GInv(limits, Run(env, limits, arrivals))
  {
    if arrivals == [] {
    } else {
      var before, last := arrivals[..|arrivals| - 1], arrivals[|arrivals| - 1];
      RunKeepsInv(env, limits, before);
      ArriveKeepsInv(env, limits, Run(env, limits, before), last.packet, last.now);
    }
  }

  /** A set ClientHello absorbs: no later arrival changes anything. */
  lemma {:induction false} Absorbing<H>(env: Env<H>, limits: Limits, arrivals: seq<Arrival>, later: seq<Arrival>)
    requires Run(env, limits, arrivals).hello.Some?
    ensures Run(env, limits, arrivals + later) == Run(env, limits, arrivals)
  {
    hide Gathered;
    if later == [] {
      assert arrivals + later == arrivals;
    } else {
      Absorbing(env, limits, arrivals, later[..|later| - 1]);
      assert (arrivals + later)[..|arrivals + later| - 1] == arrivals + later[..|later| - 1];
    }
  }

  // ----- Order independence -----

  /** The CRYPTO fragments of the packets, in order. */
  ghost function Fragments(ps: seq<Packet>): seq<Fragment> {
    if ps == [] then [] else Fragments(ps[..|ps| - 1]) + CryptoOf(ps[|ps| - 1].frames)
  }

  /** `m` cut into fragments, spread over packets that the limits let through. */
  ghost predicate Spans(limits: Limits, ps: seq<Packet>, m: seq<Byte>) {
    && KeysDistinct(ps, ByNumber)
    && |ps| <= limits.maxPacketCount
    && (forall p, q :: p in ps && q in ps ==> Distance(p.header.pn, q.header.pn) <= limits.maxPacketNumber)
    && (forall p :: p in ps ==> CryptoOf(p.frames) != [])
    && Tiles(Fragments(ps), m)
    && 4 < |m| <= 65536 && DeclaredLength(m) == |m|
  }

  /** With few enough fragments for every order to do. */
  ghost predicate Spread(limits: Limits, ps: seq<Packet>, m: seq<Byte>) {
    Spans(limits, ps, m) && |Fragments(ps)| <= 33
  }

  lemma {:induction false} FragmentsConcat(ps: seq<Packet>, qs: seq<Packet>)
    ensures Fragments(ps + qs) == Fragments(ps) + Fragments(qs)
  {
    hide Fragments, CryptoOf;
    if qs == [] {
      assert ps + qs == ps;
      NoFragments();
    } else {
      var n := |qs| - 1;
      FragmentsConcat(ps, qs[..n]);
      FragmentsSnoc(ps + qs[..n], qs[n]);
      FragmentsSnoc(qs[..n], qs[n]);
      assert ps + qs == ps + qs[..n] + [qs[n]] && qs == qs[..n] + [qs[n]];
    }
  }

  lemma FragmentsSnoc(ps: seq<Packet>, p: Packet)
    ensures Fragments(ps + [p]) == Fragments(ps) + CryptoOf(p.frames)
  {
  }

  lemma NoFragments()
    ensures Fragments([]) == [] && Reassembly.Run([]) == EMPTY
  {
  }

  lemma OneFragments(p: Packet)
    ensures Fragments([p]) == CryptoOf(p.frames)
  {
    assert [p][..0] == [];
  }

  lemma SwapMiddle<T>(a: seq<T>, x: seq<T>, b: seq<T>)
    ensures multiset(a + (x + b)) == multiset(a + b) + multiset(x)
  {
  }

  lemma FragmentsWithout(ps: seq<Packet>, i: nat)
    requires i < |ps|
    ensures multiset(Fragments(ps)) ==
            multiset(Fragments(ps[..i] + ps[i + 1..])) + multiset(CryptoOf(ps[i].frames))
  {
    hide CryptoOf;
    hide Fragments;
    var a, b := ps[..i], ps[i + 1..];
    assert ps == a + ([ps[i]] + b);
    FragmentsConcat(a, b);
    FragmentsConcat(a, [ps[i]] + b);
    FragmentsConcat([ps[i]], b);
    OneFragments(ps[i]);
    SwapMiddle(Fragments(a), CryptoOf(ps[i].frames), Fragments(b));
  }

  lemma {:induction false} FragmentsPermute(ps: seq<Packet>, qs: seq<Packet>)
    requires multiset(ps) == multiset(qs)
    ensures multiset(Fragments(ps)) == multiset(Fragments(qs))
  {
    SameMembers(ps, qs);
    if ps == [] {
    } else {
      var last := |ps| - 1;
      assert ps[last] in qs;
      var i :| 0 <= i < |qs| && qs[i] == ps[last];
      FragmentsWithout(qs, i);
      RemovePermutes(ps, qs, i);
      FragmentsPermute(ps[..last], qs[..i] + qs[i + 1..]);
    }
  }

  lemma SpansPermutes(limits: Limits, ps: seq<Packet>, qs: seq<Packet>, m: seq<Byte>)
    requires multiset(ps) == multiset(qs) && Spans(limits, ps, m)
    ensures Spans(limits, qs, m) && |Fragments(ps)| == |Fragments(qs)|
  {
    SameMembers(ps, qs);
    FragmentsPermute(ps, qs);
    SameMembers(Fragments(ps), Fragments(qs));
    KeysDistinctPermutes(ps, qs, ByNumber);
    TilesPermute(Fragments(ps), Fragments(qs), m);
  }

  /** The packets and the base when the first `d` packets of `order` have arrived, some of them repeatedly. */
  ghost predicate Holds<H>(order: seq<Packet>, d: nat, g: Gather<H>)
    requires d <= |order|
  {
    && g.packets == Sort(order[..d], ByNumber)
    && g.base == (if d == 0 then None else Some(order[0].header.pn))
  }

  /** The whole state then, if no fragment was refused. */
  ghost predicate After<H>(env: Env<H>, order: seq<Packet>, d: nat, m: seq<Byte>, g: Gather<H>)
    requires d <= |order|
  {
    && Holds(order, d, g)
    && g.stream == Reassembly.Run(Fragments(order[..d]))
    && g.hello == (if d == |order| then env.parse(m) else None)
    && g.completed == g.hello.Some?
    && (g.completed ==> g.packets != [] && g.numID == env.hash(HeaderPreimage.Preimage(g.packets[0])))
  }

  /** And if the piece `f` of the message was. */
  ghost predicate Stuck<H>(order: seq<Packet>, d: nat, m: seq<Byte>, f: Fragment, g: Gather<H>)
    requires d <= |order|
  {
    Holds(order, d, g) && g.hello == None && !g.completed && exists a :: Lacks(g.stream, a, m, f)
  }

  lemma SpansNonEmpty(limits: Limits, ps: seq<Packet>, m: seq<Byte>)
    requires Spans(limits, ps, m)
    ensures ps != []
  {
    assert Covered(Fragments(ps), 0);
  }

  lemma FragmentsPrefix(ps: seq<Packet>, d: nat)
    requires d <= |ps|
    ensures Fragments(ps[..d]) <= Fragments(ps)
    ensures d < |ps| && CryptoOf(ps[d].frames) != [] ==> |Fragments(ps[..d])| < |Fragments(ps)|
  {
    hide Fragments, CryptoOf;
    FragmentsConcat(ps[..d], ps[d..]);
    assert ps == ps[..d] + ps[d..];
    if d < |ps| {
      FragmentsConcat([ps[d]], ps[d + 1..]);
      assert ps[d..] == [ps[d]] + ps[d + 1..];
      OneFragments(ps[d]);
    }
  }

  /** Where the fragments of packet `d` are among those of all. */
  lemma PacketSlice(order: seq<Packet>, d: nat)
    requires d < |order| && forall p :: p in order ==> CryptoOf(p.frames) != []
    ensures var fs, i, j := Fragments(order), |Fragments(order[..d])|, |Fragments(order[..d + 1])|;
            && i < j <= |fs| && (j == |fs| <==> d + 1 == |order|)
            && fs[..i] == Fragments(order[..d]) && fs[..j] == Fragments(order[..d + 1])
            && fs[i..j] == CryptoOf(order[d].frames)
  {
    FragmentsPrefix(order, d);
    FragmentsPrefix(order, d + 1);
    assert order[..d + 1][..d] == order[..d];
    assert order[d] in order && (d + 1 < |order| ==> order[d + 1] in order);
    assert order[..|order|] == order;
  }

  lemma FeedNext(limits: Limits, order: seq<Packet>, d: nat, m: seq<Byte>)
    requires Spans(limits, order, m) && d < |order|
    requires |Fragments(order[..d + 1])| <= |Fragments(order)|
    requires Flows(Fragments(order), |Fragments(order[..d + 1])|)
    ensures Feed(Reassembly.Run(Fragments(order[..d])), order[d].frames)
         == (Reassembly.Run(Fragments(order[..d + 1])), if d + 1 == |order| then Complete else NeedMore)
  {
    hide Feed, Reassembly.Run, Fragments, Flows, Tiles;
    var fs, i, j := Fragments(order), |Fragments(order[..d])|, |Fragments(order[..d + 1])|;
    PacketSlice(order, d);
    TilesStepwise(fs, m, j);
    FeedPieces(fs, i, order[d].frames, j);
  }

  lemma NumberIsNew(order: seq<Packet>, d: nat)
    requires d < |order| && KeysDistinct(order, ByNumber)
    ensures |Sort(order[..d], ByNumber)| == d
    ensures !HasNumber(Sort(order[..d], ByNumber), order[d].header.pn)
  {
    hide Sort;
    var t := Sort(order[..d], ByNumber);
    SortSorts(order[..d], ByNumber);
    SameMembers(order[..d], t);
    forall i | 0 <= i < |t|
      ensures t[i].header.pn != order[d].header.pn
    {
      assert t[i] in order[..d];
      var j :| 0 <= j < d && order[j] == t[i];
      assert ByNumber(order[j]) != ByNumber(order[d]);
    }
  }

  lemma SortNext(order: seq<Packet>, d: nat)
    requires d < |order| && KeysDistinct(order, ByNumber)
    ensures Sort(Sort(order[..d], ByNumber) + [order[d]], ByNumber) == Sort(order[..d + 1], ByNumber)
  {
    hide Sort;
    SortSorts(order[..d], ByNumber);
    assert order[..d + 1] == order[..d] + [order[d]];
    SortOrderFree(order[..d + 1], Sort(order[..d], ByNumber) + [order[d]], ByNumber);
  }

  /** What the first arrival of a packet does, before completion: it is kept, and its frames are fed. */
  lemma NewArrival<H>(env: Env<H>, limits: Limits, order: seq<Packet>, d: nat, m: seq<Byte>, g: Gather<H>, now: int)
    requires Spans(limits, order, m) && d < |order| && Holds(order, d, g) && now <= limits.deadline
    requires g.hello == None && !g.completed
    ensures var g' := Arrive(env, limits, g, order[d], now).0;
            var (stream, r) := Feed(g.stream, order[d].frames);
            && Holds(order, d + 1, g') && g'.packets != [] && g'.stream == stream
            && g'.hello ==
                 (if r != Complete || Reconstructed(stream) == [] then None else env.parse(Reconstructed(stream)))
            && g'.completed == g'.hello.Some?
            && (g'.completed ==> g'.numID == env.hash(HeaderPreimage.Preimage(g'.packets[0])))
  {
    hide Feed, Sort, Tiles, KeysDistinct, Reconstructed, HeaderPreimage.Preimage;
    NumberIsNew(order, d);
    SortNext(order, d);
    SortSorts(g.packets + [order[d]], ByNumber);
    assert order[0] in order && order[d] in order;
  }

  /** While no fragment is refused, a new packet moves the gatherer to the next prefix of the order. */
  lemma NewFlowing<H>(env: Env<H>, limits: Limits, order: seq<Packet>, d: nat, m: seq<Byte>, g: Gather<H>, now: int)
    requires Spans(limits, order, m) && d < |order| && After(env, order, d, m, g) && now <= limits.deadline
    requires |Fragments(order[..d + 1])| <= |Fragments(order)|
    requires Flows(Fragments(order), |Fragments(order[..d + 1])|)
    ensures After(env, order, d + 1, m, Arrive(env, limits, g, order[d], now).0)
  {
    hide Arrive, Feed, Sort, Tiles, KeysDistinct, Reassembly.Run, Fragments, Flows, HeaderPreimage.Preimage;
    NewArrival(env, limits, order, d, m, g, now);
    FeedNext(limits, order, d, m);
    if d + 1 == |order| {
      assert order[..d + 1] == order;
      ReadsBack(Fragments(order), m);
    }
  }

  /** A refused fragment leaves the gatherer stuck. */
  lemma NewRefused<H>(
    env: Env<H>, limits: Limits, order: seq<Packet>, d: nat, m: seq<Byte>, g: Gather<H>, now: int, k: nat)
    requires Spans(limits, order, m) && d < |order| && After(env, order, d, m, g) && now <= limits.deadline
    requires Refused(Fragments(order), k) && |Fragments(order[..d])| <= k < |Fragments(order[..d + 1])|
    ensures Stuck(order, d + 1, m, Fragments(order)[k], Arrive(env, limits, g, order[d], now).0)
  {
    hide Arrive, Feed, Sort, KeysDistinct, Reassembly.Run, Fragments, Flows, HeaderPreimage.Preimage, Inv, Add, Holds;
    var fs, i, j := Fragments(order), |Fragments(order[..d])|, |Fragments(order[..d + 1])|;
    NewArrival(env, limits, order, d, m, g, now);
    PacketSlice(order, d);
    TilesStepwise(fs, m, k);
    FeedRefused(fs, i, order[d].frames, j, k);
    RefusedLacks(fs, m, k);
    assert Lacks(Reassembly.Run(fs[..k]), fs[..k], m, fs[k]);
  }

  /** And no later packet frees it. */
  lemma NewStuck<H>(
    env: Env<H>, limits: Limits, order: seq<Packet>, d: nat, m: seq<Byte>, g: Gather<H>, now: int, k: nat)
    requires Spans(limits, order, m) && d < |order| && now <= limits.deadline
    requires k < |Fragments(order[..d])| <= |Fragments(order)| && Stuck(order, d, m, Fragments(order)[k], g)
    ensures Stuck(order, d + 1, m, Fragments(order)[k], Arrive(env, limits, g, order[d], now).0)
  {
    hide Arrive, Feed, Sort, KeysDistinct, Fragments, HeaderPreimage.Preimage, Lacks, Holds;
    var fs, f := Fragments(order), Fragments(order)[k];
    PacketSlice(order, d);
    NewArrival(env, limits, order, d, m, g, now);
    OtherPieces(fs, m, k, |Fragments(order[..d])|, |Fragments(order[..d + 1])|);
    var a :| Lacks(g.stream, a, m, f);
    var b := FeedKeepsLacks(g.stream, a, m, f, order[d].frames);
  }

  /** The packet is in time, wanted, within the limits and new. */
  ghost predicate Wanted<H>(limits: Limits, g: Gather<H>, p: Packet, now: int) {
    && now <= limits.deadline && g.hello == None && !Excluded(limits, g, p)
    && !HasNumber(g.packets, p.header.pn)
  }

  /** The gatherer is full, or the packet too far from the first one. */
  ghost predicate Excluded<H>(limits: Limits, g: Gather<H>, p: Packet) {
    || |g.packets| >= limits.maxPacketCount
    || (g.packets != [] && g.base.Some? &&
        (p.header.pn > g.base.value + limits.maxPacketNumber || p.header.pn + limits.maxPacketNumber < g.base.value))
  }

  /**
    What a call answers, and what it does to the packets and the ClientHello: a
    packet is taken in just when it is wanted, and each of the other answers
    has its own cause.
   */
  lemma ArriveIs<H>(env: Env<H>, limits: Limits, g: Gather<H>, p: Packet, now: int)
    requires GInv(limits, g)
    ensures var (g', r) := Arrive(env, limits, g, p, now);
            var (stream, fed) := Feed(g.stream, p.frames);
            && (r == Expired <==> now > limits.deadline)
            && (r == Rejected <==> now <= limits.deadline && g.hello == None && Excluded(limits, g, p))
            && (!Wanted(limits, g, p, now) ==>
                  && g'.packets == g.packets && g'.stream == g.stream && g'.hello == g.hello
                  && r in {Expired, Rejected, Nil})
            && (Wanted(limits, g, p, now) ==>
                  && g'.packets == Sort(g.packets + [p], ByNumber) && g'.stream == stream
                  && (fed == NeedMore ==> r == Nil && g'.hello == None)
                  && (fed.Failed? ==> r == ReassemblyFailed(fed.error) && g'.hello == None)
                  && (fed == Complete ==>
                        && g'.hello == (if Reconstructed(stream) == [] then None else env.parse(Reconstructed(stream)))
                        && r == if g'.hello == None then ParseFailed else Nil))
  {
    hide Arrive, Gathered, Feed, Sort, Reconstructed, Excluded;
    ArriveCause(env, limits, g, p, now);
    GatheredIs(env, if g.base == None then g.(base := Some(p.header.pn)) else g, p);
  }

  lemma ArriveCause<H>(env: Env<H>, limits: Limits, g: Gather<H>, p: Packet, now: int)
    requires GInv(limits, g)
    ensures var r := Arrive(env, limits, g, p, now);
            if now > limits.deadline then r == (g, Expired)
            else if g.hello != None then r == (g, Nil)
            else
              var g := if g.base == None then g.(base := Some(p.header.pn)) else g;
              r == if Excluded(limits, g, p) then (g, Rejected)
                   else if HasNumber(g.packets, p.header.pn) then (g, Nil)
                   else Gathered(env, g, p)
    ensures g.base == None ==> (Excluded(limits, g, p) <==> Excluded(limits, g.(base := Some(p.header.pn)), p))
  {
    hide Gathered;
  }

  lemma GatheredIs<H>(env: Env<H>, g: Gather<H>, p: Packet)
    ensures var (g', r) := Gathered(env, g, p);
            var (stream, fed) := Feed(g.stream, p.frames);
            && g'.packets == Sort(g.packets + [p], ByNumber) && g'.stream == stream
            && (fed == NeedMore ==> r == Nil && g'.hello == g.hello)
            && (fed.Failed? ==> r == ReassemblyFailed(fed.error) && g'.hello == g.hello)
            && (fed == Complete ==>
                  && g'.hello == (if Reconstructed(stream) == [] then None else env.parse(Reconstructed(stream)))
                  && r == if g'.hello == None then ParseFailed else Nil)
  {
    hide Feed, Sort, Reconstructed, HeaderPreimage.Preimage;
    SortSorts(g.packets + [p], ByNumber);
  }

  /** A packet whose number is there already changes nothing, at any time, whatever the call returns. */
  lemma RepeatedArrival<H>(env: Env<H>, limits: Limits, g: Gather<H>, p: Packet, now: int)
    requires GInv(limits, g) && HasNumber(g.packets, p.header.pn)
    ensures Arrive(env, limits, g, p, now).0 == g
  {
    hide Gathered;
  }

  /** The distinct packets, by first arrival. */
  ghost function FirstArrivals(arrivals: seq<Arrival>): seq<Packet> {
    if arrivals == [] then [] else
      var before, p := FirstArrivals(arrivals[..|arrivals| - 1]), arrivals[|arrivals| - 1].packet;
      if p in before then before else before + [p]
  }

  lemma RepeatedHeld<H>(env: Env<H>, limits: Limits, before: seq<Arrival>, order: seq<Packet>, d: nat, a: Arrival)
    requires d <= |order| && Holds(order, d, Run(env, limits, before)) && a.packet in order[..d]
    ensures Arrive(env, limits, Run(env, limits, before), a.packet, a.now).0 == Run(env, limits, before)
  {
    hide Run, Sort, Arrive;
    var g := Run(env, limits, before);
    SortSorts(order[..d], ByNumber);
    SameMembers(order[..d], g.packets);
    assert a.packet in g.packets;
    RunKeepsInv(env, limits, before);
    RepeatedArrival(env, limits, g, a.packet, a.now);
  }

  /** While the fragments arrive in an order that flows, all of them are taken in. */
  lemma {:induction false} FlowingArrivals<H>(
    env: Env<H>, limits: Limits, arrivals: seq<Arrival>, order: seq<Packet>, m: seq<Byte>)
    requires Spans(limits, order, m) && FirstArrivals(arrivals) <= order
    requires |Fragments(FirstArrivals(arrivals))| <= |Fragments(order)|
    requires Flows(Fragments(order), |Fragments(FirstArrivals(arrivals))|)
    requires forall a :: a in arrivals ==> a.now <= limits.deadline
    ensures After(env, order, |FirstArrivals(arrivals)|, m, Run(env, limits, arrivals))
  {
    hide Spans, Arrive, Flows, Fragments;
    if arrivals == [] {
      SpansNonEmpty(limits, order, m);
      NoFragments();
    } else {
      var before, a := arrivals[..|arrivals| - 1], arrivals[|arrivals| - 1];
      var d := |FirstArrivals(before)|;
      assert FirstArrivals(before) == order[..d];
      if a.packet in FirstArrivals(before) {
        FlowingArrivals(env, limits, before, order, m);
        RepeatedHeld(env, limits, before, order, d, a);
      } else {
        assert order[d] == a.packet && FirstArrivals(arrivals) == order[..d + 1];
        SpansSlice(limits, order, d, m);
        FlowsShorter(Fragments(order), |Fragments(order[..d])|, |Fragments(order[..d + 1])|);
        FlowingArrivals(env, limits, before, order, m);
        NewFlowing(env, limits, order, d, m, Run(env, limits, before), a.now);
      }
    }
  }

  lemma SpansSlice(limits: Limits, order: seq<Packet>, d: nat, m: seq<Byte>)
    requires Spans(limits, order, m) && d < |order|
    ensures |Fragments(order[..d])| < |Fragments(order[..d + 1])| <= |Fragments(order)|
  {
    PacketSlice(order, d);
  }

  /** Once they do not, the fragment refused first is missing for good. */
  lemma {:induction false} StuckArrivals<H>(
    env: Env<H>, limits: Limits, arrivals: seq<Arrival>, order: seq<Packet>, m: seq<Byte>, k: nat)
    requires Spans(limits, order, m) && FirstArrivals(arrivals) <= order
    requires Refused(Fragments(order), k) && k < |Fragments(FirstArrivals(arrivals))| <= |Fragments(order)|
    requires forall a :: a in arrivals ==> a.now <= limits.deadline
    ensures Stuck(order, |FirstArrivals(arrivals)|, m, Fragments(order)[k], Run(env, limits, arrivals))
  {
    hide Spans, Arrive, Flows, Fragments, Lacks, Reassembly.Run;
    if arrivals == [] {
      NoFragments();
    } else {
      var before, a := arrivals[..|arrivals| - 1], arrivals[|arrivals| - 1];
      var d := |FirstArrivals(before)|;
      assert FirstArrivals(before) == order[..d];
      if a.packet in FirstArrivals(before) {
        StuckArrivals(env, limits, before, order, m, k);
        RepeatedHeld(env, limits, before, order, d, a);
      } else {
        assert order[d] == a.packet && FirstArrivals(arrivals) == order[..d + 1];
        SpansSlice(limits, order, d, m);
        if k < |Fragments(order[..d])| {
          StuckArrivals(env, limits, before, order, m, k);
          NewStuck(env, limits, order, d, m, Run(env, limits, before), a.now, k);
        } else {
          FlowsShorter(Fragments(order), |Fragments(order[..d])|, k);
          FlowingArrivals(env, limits, before, order, m);
          NewRefused(env, limits, order, d, m, Run(env, limits, before), a.now, k);
        }
      }
    }
  }

  ghost function PacketsOf(arrivals: seq<Arrival>): seq<Packet> {
    if arrivals == [] then [] else PacketsOf(arrivals[..|arrivals| - 1]) + [arrivals[|arrivals| - 1].packet]
  }

  lemma {:induction false} FirstArrivalsDistinct(arrivals: seq<Arrival>)
    ensures NoRepeats(FirstArrivals(arrivals))
    ensures forall p :: p in FirstArrivals(arrivals) <==> p in PacketsOf(arrivals)
  {
    if arrivals == [] {
    } else {
      FirstArrivalsDistinct(arrivals[..|arrivals| - 1]);
    }
  }

  lemma FirstArrivalsPermute(arrivals: seq<Arrival>, ps: seq<Packet>)
    requires KeysDistinct(ps, ByNumber) && forall p :: p in PacketsOf(arrivals) <==> p in ps
    ensures multiset(FirstArrivals(arrivals)) == multiset(ps)
  {
    FirstArrivalsDistinct(arrivals);
    assert NoRepeats(ps) by {
      forall i, j | 0 <= i < j < |ps|
        ensures ps[i] != ps[j]
      {
        assert ByNumber(ps[i]) != ByNumber(ps[j]);
      }
    }
    SameMembersPermute(FirstArrivals(arrivals), ps);
  }

  /** The gatherer ends with the packets in order, the message, its parse and the header hash. */
  ghost predicate Recovers<H>(env: Env<H>, g: Gather<H>, sorted: seq<Packet>, m: seq<Byte>)
    requires sorted != []
  {
    && g.packets == sorted
    && Reconstructed(g.stream) == m
    && g.hello == env.parse(m)
    && g.completed == g.hello.Some?
    && (g.completed ==> g.numID == env.hash(HeaderPreimage.Preimage(sorted[0])))
  }

  lemma SpansArrivals(limits: Limits, ps: seq<Packet>, m: seq<Byte>, arrivals: seq<Arrival>)
    requires Spans(limits, ps, m) && forall p :: p in PacketsOf(arrivals) <==> p in ps
    ensures var order := FirstArrivals(arrivals);
            multiset(ps) == multiset(order) && Spans(limits, order, m) && |Fragments(order)| == |Fragments(ps)|
  {
    FirstArrivalsPermute(arrivals, ps);
    SpansPermutes(limits, ps, FirstArrivals(arrivals), m);
  }

  lemma SortedNonEmpty(limits: Limits, ps: seq<Packet>, m: seq<Byte>)
    requires Spans(limits, ps, m)
    ensures Sort(ps, ByNumber) != []
  {
    SpansNonEmpty(limits, ps, m);
    SortSorts(ps, ByNumber);
    SameMembers(ps, Sort(ps, ByNumber));
  }

  /**
    Let the packets `ps` carry a cut of message `m` into any number of
    fragments, and arrive before the deadline in any order and with any repeats.
    The gatherer keeps all of them, sorted. It recovers the message just when
    the fragments, by first arrival of their packets, come in an order that
    flows; else it never completes.
   */
  lemma GathersIff<H>(env: Env<H>, limits: Limits, ps: seq<Packet>, m: seq<Byte>, arrivals: seq<Arrival>)
    requires Spans(limits, ps, m)
    requires forall p :: p in PacketsOf(arrivals) <==> p in ps
    requires forall a :: a in arrivals ==> a.now <= limits.deadline
    ensures var g, fs := Run(env, limits, arrivals), Fragments(FirstArrivals(arrivals));
            && g.packets == Sort(ps, ByNumber) != []
            && (Flows(fs, |fs|) ==> Recovers(env, g, Sort(ps, ByNumber), m))
            && (!Flows(fs, |fs|) ==> Reconstructed(g.stream) == [] && g.hello == None && !g.completed)
  {
    hide Run, Sort, Fragments, Reassembly.Run, HeaderPreimage.Preimage, Flows, Spans, Lacks, Reconstructed;
    var order := FirstArrivals(arrivals);
    var fs := Fragments(order);
    SpansArrivals(limits, ps, m, arrivals);
    SortedNonEmpty(limits, ps, m);
    assert order[..|order|] == order;
    SpansSortFree(limits, ps, order, m);
    if Flows(fs, |fs|) {
      FlowingArrivals(env, limits, arrivals, order, m);
      SpansReadBack(limits, order, m);
    } else {
      var k := SpansRefused(limits, order, m);
      StuckArrivals(env, limits, arrivals, order, m, k);
      var g := Run(env, limits, arrivals);
      var a :| Lacks(g.stream, a, m, fs[k]);
      LacksIncomplete(g.stream, a, m, fs[k]);
    }
  }

  lemma SpansSortFree(limits: Limits, ps: seq<Packet>, order: seq<Packet>, m: seq<Byte>)
    requires Spans(limits, ps, m) && multiset(ps) == multiset(order)
    ensures Sort(ps, ByNumber) == Sort(order, ByNumber)
  {
    SortOrderFree(ps, order, ByNumber);
  }

  lemma SpansReadBack(limits: Limits, order: seq<Packet>, m: seq<Byte>)
    requires Spans(limits, order, m) && Flows(Fragments(order), |Fragments(order)|)
    ensures Reconstructed(Reassembly.Run(Fragments(order))) == m
  {
    ReadsBack(Fragments(order), m);
  }

  lemma SpansRefused(limits: Limits, order: seq<Packet>, m: seq<Byte>) returns (k: nat)
    requires Spans(limits, order, m) && !Flows(Fragments(order), |Fragments(order)|)
    ensures Refused(Fragments(order), k)
  {
    k := FirstRefused(Fragments(order), m, |Fragments(order)|);
  }

  /**
    Order independence: with at most 33 fragments every such sequence of
    arrivals ends with the same sorted packets, the same message, the same
    header preimage and the same ClientHello.
   */
  lemma OrderIndependence<H>(env: Env<H>, limits: Limits, ps: seq<Packet>, m: seq<Byte>, arrivals: seq<Arrival>)
    requires Spread(limits, ps, m)
    requires forall p :: p in PacketsOf(arrivals) <==> p in ps
    requires forall a :: a in arrivals ==> a.now <= limits.deadline
    ensures Sort(ps, ByNumber) != [] && Recovers(env, Run(env, limits, arrivals), Sort(ps, ByNumber), m)
  {
    hide Run, Sort, Fragments, Spans, Recovers;
    SpansArrivals(limits, ps, m, arrivals);
    FewFlow(Fragments(FirstArrivals(arrivals)));
    GathersIff(env, limits, ps, m, arrivals);
  }

  lemma GatheredKeepsBase<H>(env: Env<H>, g: Gather<H>, p: Packet)
    ensures Gathered(env, g, p).0.base == g.base
  {
    hide Feed, Sort;
  }

  lemma ArriveEmpty<H>(env: Env<H>, limits: Limits, g: Gather<H>, p: Packet, now: int)
    requires g.base == None ==> g == Start()
    ensures var g' := Arrive(env, limits, g, p, now).0;
            && (g'.base == None ==> g' == Start())
            && (g' == Start() <==> g == Start() && now > limits.deadline)
  {
    hide Gathered;
    GatheredKeepsBase(env, if g.base == None then g.(base := Some(p.header.pn)) else g, p);
  }

  /** A gatherer stays empty just when every packet is late. */
  lemma {:induction false} EmptyIffAllLate<H>(env: Env<H>, limits: Limits, arrivals: seq<Arrival>)
    ensures Run(env, limits, arrivals) == Start() <==> forall a :: a in arrivals ==> a.now > limits.deadline
    ensures Run(env, limits, arrivals).base == None ==> Run(env, limits, arrivals) == Start()
  {
    hide Arrive, Start;
    if arrivals == [] {
    } else {
      var before, last := arrivals[..|arrivals| - 1], arrivals[|arrivals| - 1];
      EmptyIffAllLate(env, limits, before);
      ArriveEmpty(env, limits, Run(env, limits, before), last.packet, last.now);
      assert arrivals == before + [last];
    }
  }

  /** One whose deadline was never set takes no packet at all, since every time is after the zero time. */
  lemma UnsetDeadlineGathersNothing<H>(env: Env<H>, arrivals: seq<Arrival>)
    requires forall a :: a in arrivals ==> a.now > 0
    ensures Run(env, DEFAULT_LIMITS, arrivals) == Start()
  {
    EmptyIffAllLate(env, DEFAULT_LIMITS, arrivals);
  }
}
