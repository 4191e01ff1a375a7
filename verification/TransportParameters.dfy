/** QUIC transport parameters (section 18 of RFC 9000) and the input of their fingerprint hash. */
module TransportParameters {
  import opened Bytes
  import opened Sorting
  import opened Vli

  datatype Param = Param(id: nat, value: seq<Byte>)

  const GREASE_ID: nat := 27

  /**
    The parameters whose values are kept, in the order in which they are hashed:
    max_idle_timeout, max_udp_payload_size, initial_max_data,
    initial_max_stream_data_bidi_local, _bidi_remote and _uni,
    initial_max_streams_bidi and _uni, ack_delay_exponent, max_ack_delay,
    active_connection_id_limit.
   */
  const KEPT: seq<nat> := [1, 3, 4, 5, 6, 7, 8, 9, 10, 11, 14]

  predicate IsGrease(id: nat) {
    id >= 27 && (id - 27) % 31 == 0
  }

  /** The `n`th reserved ID, counted from 0 (section 18.1 of RFC 9000). */
  ghost predicate IsNth(id: nat, n: nat) {
    id == 31 * n + 27
  }

  ghost predicate Reserved(id: nat) {
    exists n: nat :: IsNth(id, n)
  }

  lemma GreaseIff(id: nat)
    ensures IsGrease(id) <==> Reserved(id)
  {
    if IsGrease(id) {
      assert IsNth(id, (id - 27) / 31);
    }
  }

  function NormalId(id: nat): nat {
    if IsGrease(id) then GREASE_ID else id
  }

  /** `fields` holds the kept values by ID; one that is missing is nil in the source. */
  datatype Parameters = Parameters(ids: seq<nat>, fields: map<nat, seq<Byte>>)

  /** A failed parse keeps what was filled until then, with the IDs unsorted. */
  datatype Outcome = Parsed(p: Parameters) | ParseError(filled: Parameters)

  // ----- What the loop computes -----

  datatype Next = Got(param: Param, rest: seq<Byte>) | BadHeader | BadValue(id: nat)

  function NextParam(s: seq<Byte>): (r: Next)
    ensures r.Got? ==> |r.rest| < |s|
  {
    match NextVli(s)
    case Eof => BadHeader
    case Value(id, _, s1) =>
      match NextVli(s1)
      case Eof => BadHeader
      case Value(n, _, s2) => if n > |s2| then BadValue(id) else Got(Param(id, s2[..n]), s2[n..])
  }

  /** Records one parameter. */
  function Record(t: Parameters, p: Param): Parameters {
    var ids := t.ids + [NormalId(p.id)];
    if p.value != [] && p.id in KEPT then Parameters(ids, t.fields[p.id := Unset(p.value)])
    else Parameters(ids, t.fields)
  }

  function Scan(s: seq<Byte>, t: Parameters): Outcome
    decreases |s|
  {
    if s == [] then Parsed(t.(ids := Sort(t.ids, ByValue)))
    else
      match NextParam(s)
      case BadHeader => ParseError(t)
      case BadValue(id) => ParseError(t.(ids := t.ids + [NormalId(id)]))
      case Got(p, rest) => Scan(rest, Record(t, p))
  }

  const NOTHING := Parameters([], map[])

  method ParseQUICTransportParameters(extData: seq<Byte>) returns (r: Outcome)
    ensures r == Scan(extData, NOTHING)
  {
    hide NextVli, Unset;
    var s, ids: seq<nat>, fields: map<nat, seq<Byte>> := extData, [], map[];
    while |s| > 0
      invariant Scan(extData, NOTHING) == Scan(s, Parameters(ids, fields))
      decreases |s|
    {
      var id := NextVli(s);
      if id.Eof? {
        return ParseError(Parameters(ids, fields));
      }
      var n := NextVli(id.rest);
      if n.Eof? {
        return ParseError(Parameters(ids, fields));
      }
      ids := ids + [if IsGrease(id.v) then GREASE_ID else id.v];
      s := n.rest;
      if n.v == 0 {
        continue;
      }
      if s == [] {
        return ParseError(Parameters(ids, fields));
      }
      var data := Take(s, n.v);
      if |data| != n.v {
        return ParseError(Parameters(ids, fields));
      }
      s := s[n.v..];
      if id.v in KEPT {
        fields := fields[id.v := Unset(data)];
      }
    }
    return Parsed(Parameters(Sort(ids, ByValue), fields));
  }

  // ----- The hash input -----

  /** Words written one after the other, eight bytes each. */
  function Words(ws: seq<nat>): (s: seq<Byte>)
    ensures |s| == 8 * |ws|
  {
    if ws == [] then [] else BigEndian(ws[0], 8) + Words(ws[1..])
  }

  function FieldValue(t: Parameters, id: nat): nat {
    if id in t.fields then ToU64(t.fields[id]) else 0
  }

  function KeptValues(t: Parameters): (vs: seq<nat>)
    ensures |vs| == 11
  {
    Map((id: nat) => FieldValue(t, id), KEPT)
  }

  function Preimage(t: Parameters): seq<Byte> {
    Words(t.ids) + Words(KeptValues(t))
  }

  method WriteWords(h: seq<Byte>, ws: seq<nat>) returns (r: seq<Byte>)
    ensures r == h + Words(ws)
  {
    r := h;
    var i := 0;
    while i < |ws|
      invariant 0 <= i <= |ws|
      invariant r + Words(ws[i..]) == h + Words(ws)
    {
      assert ws[i..][1..] == ws[i + 1..];
      r := r + BigEndian(ws[i], 8);
      i := i + 1;
    }
  }

  /** Writes the hash input: the IDs, then the value of each kept parameter. */
  method WritePreimage(t: Parameters) returns (h: seq<Byte>)
    ensures h == Preimage(t)
  {
    hide Words, FieldValue;
    var idle, udp, data := FieldValue(t, 1), FieldValue(t, 3), FieldValue(t, 4);
    var local, remote, uni := FieldValue(t, 5), FieldValue(t, 6), FieldValue(t, 7);
    var bidi, unis := FieldValue(t, 8), FieldValue(t, 9);
    var exponent, delay, limit := FieldValue(t, 10), FieldValue(t, 11), FieldValue(t, 14);
    h := WriteWords([], t.ids);
    h := WriteWords(h, [idle, udp, data, local, remote, uni, bidi, unis, exponent, delay, limit]);
    assert KeptValues(t) == [idle, udp, data, local, remote, uni, bidi, unis, exponent, delay, limit];
  }

  ghost predicate U64s(ws: seq<nat>) {
    forall i :: 0 <= i < |ws| ==> ws[i] < TWO64
  }

  lemma {:induction false} WordsInjective(a: seq<nat>, b: seq<nat>)
    requires U64s(a) && U64s(b) && Words(a) == Words(b)
    ensures a == b
  {
    assert |a| == |b|;
    if a == [] {
    } else {
      assert Words(a)[..8] == BigEndian(a[0], 8) && Words(b)[..8] == BigEndian(b[0], 8);
      assert Words(a)[8..] == Words(a[1..]) && Words(b)[8..] == Words(b[1..]);
      PowersOf256();
      BigEndianInjective(a[0], b[0], 8);
      WordsInjective(a[1..], b[1..]);
      assert a == [a[0]] + a[1..] && b == [b[0]] + b[1..];
    }
  }

  /** The hash input determines the ID list and the eleven values, and they determine it. */
  lemma PreimageInjective(t: Parameters, u: Parameters)
    requires U64s(t.ids) && U64s(u.ids)
    ensures Preimage(t) == Preimage(u) <==> t.ids == u.ids && KeptValues(t) == KeptValues(u)
  {
    if Preimage(t) == Preimage(u) {
      var n := 8 * |t.ids|;
      assert |t.ids| == |u.ids|;
      assert Preimage(t)[..n] == Words(t.ids) && Preimage(u)[..n] == Words(u.ids);
      assert Preimage(t)[n..] == Words(KeptValues(t)) && Preimage(u)[n..] == Words(KeptValues(u));
      WordsInjective(t.ids, u.ids);
      WordsInjective(KeptValues(t), KeptValues(u));
    }
  }

  /** The `i`th 64-bit word of a hash input. */
  function WordAt(s: seq<Byte>, i: nat): nat
    requires 8 * i + 8 <= |s|
  {
    FromBigEndian(s[8 * i..8 * i + 8])
  }

  lemma {:induction false} WordsAt(ws: seq<nat>, t: seq<Byte>, i: nat)
    requires U64s(ws) && i < |ws|
    ensures WordAt(Words(ws) + t, i) == ws[i]
  {
    hide FromBigEndian, BigEndian;
    var s := Words(ws) + t;
    if i == 0 {
      assert s[0..8] == BigEndian(ws[0], 8);
      PowersOf256();
      BigEndianRoundTrip(ws[0], 8);
    } else {
      WordsAt(ws[1..], t, i - 1);
      var u := Words(ws[1..]) + t;
      assert s == BigEndian(ws[0], 8) + u;
      assert s[8 * i..8 * i + 8] == u[8 * (i - 1)..8 * (i - 1) + 8];
    }
  }

  /**
    Where everything is in the hash input: first the listed IDs, then the values
    of max_idle_timeout, max_udp_payload_size, initial_max_data, the three
    initial_max_stream_data, the two initial_max_streams, ack_delay_exponent,
    max_ack_delay and active_connection_id_limit, each a 64-bit word.
   */
  lemma HashedWords(t: Parameters)
    requires U64s(t.ids)
    ensures var s, n := Preimage(t), |t.ids|;
            && |s| == 8 * n + 88
            && (forall i :: 0 <= i < n ==> WordAt(s, i) == t.ids[i])
            && WordAt(s, n) == FieldValue(t, 0x01)
            && WordAt(s, n + 1) == FieldValue(t, 0x03)
            && WordAt(s, n + 2) == FieldValue(t, 0x04)
            && WordAt(s, n + 3) == FieldValue(t, 0x05)
            && WordAt(s, n + 4) == FieldValue(t, 0x06)
            && WordAt(s, n + 5) == FieldValue(t, 0x07)
            && WordAt(s, n + 6) == FieldValue(t, 0x08)
            && WordAt(s, n + 7) == FieldValue(t, 0x09)
            && WordAt(s, n + 8) == FieldValue(t, 0x0A)
            && WordAt(s, n + 9) == FieldValue(t, 0x0B)
            && WordAt(s, n + 10) == FieldValue(t, 0x0E)
  {
    hide Words, WordAt, FieldValue;
    var s, n, vs := Preimage(t), |t.ids|, KeptValues(t);
    forall i | 0 <= i < n
      ensures WordAt(s, i) == t.ids[i]
    {
      WordsAt(t.ids, Words(vs), i);
    }
    forall k | 0 <= k < 11
      ensures WordAt(s, n + k) == vs[k]
    {
      KeptWordAt(t, k);
    }
    var _ := [vs[0], vs[1], vs[2], vs[3], vs[4], vs[5], vs[6], vs[7], vs[8], vs[9], vs[10]];
    assert WordAt(s, n + 0) == vs[0];
  }

  lemma KeptWordAt(t: Parameters, k: nat)
    requires k < 11
    ensures WordAt(Preimage(t), |t.ids| + k) == KeptValues(t)[k]
  {
    hide Words;
    var vs, n := KeptValues(t), |t.ids|;
    assert U64s(vs);
    WordsAt(vs, [], k);
    assert Words(vs) + [] == Words(vs);
    assert Preimage(t)[8 * (n + k)..8 * (n + k) + 8] == Words(vs)[8 * k..8 * k + 8];
  }

  // ----- Parsing undoes writing -----

  datatype Wire = Wire(param: Param, idWidth: nat, lengthWidth: nat) {
    predicate Legal() {
      Fits(param.id, idWidth) && Fits(|param.value|, lengthWidth)
    }

    function Written(): seq<Byte>
      requires Legal()
    {
      Encode(param.id, idWidth) + (Encode(|param.value|, lengthWidth) + param.value)
    }
  }

  ghost predicate AllLegal(ws: seq<Wire>) {
    forall i :: 0 <= i < |ws| ==> ws[i].Legal()
  }

  function Serialise(ws: seq<Wire>): seq<Byte>
    requires forall i :: 0 <= i < |ws| ==> ws[i].Legal()
  {
    if ws == [] then [] else ws[0].Written() + Serialise(ws[1..])
  }

  function ParamsOf(ws: seq<Wire>): seq<Param> {
    Map((w: Wire) => w.param, ws)
  }

  function RecordAll(t: Parameters, ps: seq<Param>): Parameters
    decreases |ps|
  {
    if ps == [] then t else RecordAll(Record(t, ps[0]), ps[1..])
  }

  /** What a list of parameters comes to, however it is written. */
  function Summary(ps: seq<Param>): Parameters {
    var t := RecordAll(NOTHING, ps);
    t.(ids := Sort(t.ids, ByValue))
  }

  lemma NextInvertsWritten(w: Wire, t: seq<Byte>)
    requires w.Legal()
    ensures NextParam(w.Written() + t) == Got(w.param, t)
  {
    hide NextVli, Encode;
    var v := w.param.value;
    var s2 := v + t;
    var s1 := Encode(|v|, w.lengthWidth) + s2;
    assert w.Written() + t == Encode(w.param.id, w.idWidth) + s1;
    NextInvertsEncode(w.param.id, w.idWidth, s1);
    NextInvertsEncode(|v|, w.lengthWidth, s2);
    assert s2[..|v|] == v && s2[|v|..] == t;
  }

  /** Written parameters are recorded one by one, whatever follows them, even what cannot be parsed. */
  lemma {:induction false} ScanPrefix(ws: seq<Wire>, rest: seq<Byte>, t: Parameters)
    requires AllLegal(ws)
    ensures Scan(Serialise(ws) + rest, t) == Scan(rest, RecordAll(t, ParamsOf(ws)))
    decreases |ws|
  {
    hide NextParam, Record, Sort;
    if ws == [] {
      assert Serialise(ws) + rest == rest;
    } else {
      var tail := Serialise(ws[1..]) + rest;
      assert Serialise(ws) + rest == ws[0].Written() + tail;
      NextInvertsWritten(ws[0], tail);
      ScanPrefix(ws[1..], rest, Record(t, ws[0].param));
      assert ParamsOf(ws)[1..] == ParamsOf(ws[1..]);
      assert |ws[0].Written()| > 0;
    }
  }

  lemma ScanInvertsSerialise(ws: seq<Wire>, t: Parameters)
    requires AllLegal(ws)
    ensures Scan(Serialise(ws), t) == Parsed(var u := RecordAll(t, ParamsOf(ws)); u.(ids := Sort(u.ids, ByValue)))
  {
    hide RecordAll, Sort;
    ScanPrefix(ws, [], t);
    assert Serialise(ws) + [] == Serialise(ws);
  }

  /** A parameter cut off in its value: its ID is kept, its value is not, and all before it is kept. */
  lemma ScanCutOff(ws: seq<Wire>, w: Wire, n: nat)
    requires AllLegal(ws) && w.Legal() && n < |w.param.value|
    ensures var t := RecordAll(NOTHING, ParamsOf(ws));
            Scan(Serialise(ws) + w.Written()[..|w.Written()| - |w.param.value| + n], NOTHING) ==
              ParseError(t.(ids := t.ids + [Named(w.param.id)]))
  {
    hide RecordAll, NextVli, Encode;
    GreaseIff(w.param.id);
    var v := w.param.value;
    var id, len := Encode(w.param.id, w.idWidth), Encode(|v|, w.lengthWidth);
    var rest := w.Written()[..|w.Written()| - |v| + n];
    assert rest == id + (len + v[..n]) && |id| > 0;
    NextInvertsEncode(w.param.id, w.idWidth, len + v[..n]);
    NextInvertsEncode(|v|, w.lengthWidth, v[..n]);
    ScanPrefix(ws, rest, NOTHING);
  }

  /** One cut off before its length: nothing of it is kept. */
  lemma ScanNoLength(ws: seq<Wire>, id: nat, w: nat)
    requires AllLegal(ws) && Fits(id, w)
    ensures Scan(Serialise(ws) + Encode(id, w), NOTHING) == ParseError(RecordAll(NOTHING, ParamsOf(ws)))
  {
    hide RecordAll, Encode;
    NextInvertsEncode(id, w, []);
    assert Encode(id, w) + [] == Encode(id, w);
    ScanPrefix(ws, Encode(id, w), NOTHING);
  }

  // ----- Canonical form -----

  /** The ID under which a parameter is listed: every reserved one goes by the first of them. */
  ghost function Named(id: nat): nat {
    if Reserved(id) then 27 else id
  }

  ghost function IdsOf(ps: seq<Param>): (ids: seq<nat>)
    ensures |ids| == |ps| && forall i :: 0 <= i < |ps| ==> ids[i] == Named(ps[i].id)
  {
    seq(|ps|, i requires 0 <= i < |ps| => Named(ps[i].id))
  }

  /** No ID but a reserved one occurs twice. */
  ghost predicate DistinctIds(ps: seq<Param>) {
    forall i, j :: 0 <= i < j < |ps| && ps[i].id == ps[j].id ==> Reserved(ps[i].id)
  }

  lemma RecordsId(t: Parameters, p: Param)
    ensures Record(t, p).ids == t.ids + [Named(p.id)]
  {
    GreaseIff(p.id);
  }

  lemma NoIds()
    ensures IdsOf([]) == []
  {
  }

  lemma FirstId(ps: seq<Param>)
    requires ps != []
    ensures IdsOf(ps) == [Named(ps[0].id)] + IdsOf(ps[1..])
  {
  }

  lemma {:induction false} RecordedIds(t: Parameters, ps: seq<Param>)
    ensures RecordAll(t, ps).ids == t.ids + IdsOf(ps)
    decreases |ps|
  {
    hide Record, Named, IdsOf;
    if ps == [] {
      NoIds();
    } else {
      RecordsId(t, ps[0]);
      RecordedIds(Record(t, ps[0]), ps[1..]);
      FirstId(ps);
    }
  }

  /** The ID list is the sorted multiset of the IDs, with 27 for each that is 31 * n + 27. */
  lemma SummaryIds(ps: seq<Param>)
    ensures SortedBy(Summary(ps).ids, ByValue)
    ensures multiset(Summary(ps).ids) == multiset(IdsOf(ps))
  {
    RecordedIds(NOTHING, ps);
    SortSorts(IdsOf(ps), ByValue);
    assert [] + IdsOf(ps) == IdsOf(ps);
  }

  /** Parameters that leave the field of `id` as it is. */
  ghost predicate Leaves(ps: seq<Param>, id: nat) {
    forall p :: p in ps && p.id == id ==> p.value == []
  }

  lemma {:induction false} FieldLeft(t: Parameters, ps: seq<Param>, id: nat)
    requires Leaves(ps, id)
    ensures FieldValue(RecordAll(t, ps), id) == FieldValue(t, id)
    decreases |ps|
  {
    if ps == [] {
    } else {
      FieldLeft(Record(t, ps[0]), ps[1..], id);
    }
  }

  lemma {:induction false} FieldSet(t: Parameters, ps: seq<Param>, p: Param)
    requires p in ps && p.value != [] && p.id in KEPT && DistinctIds(ps)
    ensures FieldValue(RecordAll(t, ps), p.id) == ToU64(Unset(p.value))
    decreases |ps|
  {
    GreaseIff(p.id);
    if ps[0] == p {
      assert Leaves(ps[1..], p.id) by {
        forall q | q in ps[1..]
          ensures q.id != p.id
        {
          var j :| 0 <= j < |ps[1..]| && ps[1..][j] == q;
          assert ps[j + 1] == q;
        }
      }
      FieldLeft(Record(t, p), ps[1..], p.id);
    } else {
      FieldSet(Record(t, ps[0]), ps[1..], p);
    }
  }

  /** A kept parameter that is a variable-length integer, in any width, is hashed as its value. */
  lemma FieldDecodes(ps: seq<Param>, p: Param, v: nat, w: nat)
    requires p in ps && p.id in {1, 3, 4, 5, 6, 7, 8, 9, 10, 11, 14}
    requires DistinctIds(ps) && Fits(v, w) && p.value == Encode(v, w)
    ensures FieldValue(Summary(ps), p.id) == v
  {
    hide RecordAll, Encode, Unset, FromBigEndian, BigEndian, ToU64, DistinctIds;
    KeptIs(p.id);
    FieldSet(NOTHING, ps, p);
    EncodeShape(v, w);
    ToU64Small(Unset(p.value));
  }

  lemma KeptIs(id: nat)
    ensures id in KEPT <==> id in {1, 3, 4, 5, 6, 7, 8, 9, 10, 11, 14}
  {
    if id in {1, 3, 4, 5, 6, 7, 8, 9, 10, 11, 14} {
      assert id in [1, 3, 4, 5, 6, 7, 8, 9, 10, 11, 14];
    }
  }

  /** A parameter with a reserved ID counts for nothing but its presence. */
  ghost function Normal(p: Param): Param {
    if Reserved(p.id) then Param(27, []) else p
  }

  ghost function NormalAll(ps: seq<Param>): (qs: seq<Param>)
    ensures |qs| == |ps| && forall i :: 0 <= i < |ps| ==> qs[i] == Normal(ps[i])
  {
    seq(|ps|, i requires 0 <= i < |ps| => Normal(ps[i]))
  }

  lemma NormalMember(ps: seq<Param>, qs: seq<Param>, p: Param)
    requires multiset(NormalAll(ps)) == multiset(NormalAll(qs)) && p in ps && !Reserved(p.id)
    ensures p in qs
  {
    SameMembers(NormalAll(ps), NormalAll(qs));
    var i :| 0 <= i < |ps| && ps[i] == p;
    assert NormalAll(ps)[i] == p;
    assert p in NormalAll(qs);
    var j :| 0 <= j < |qs| && NormalAll(qs)[j] == p;
    assert IsNth(27, 0);
    assert qs[j] == p;
  }

  lemma SameField(ps: seq<Param>, qs: seq<Param>, id: nat)
    requires multiset(NormalAll(ps)) == multiset(NormalAll(qs)) && DistinctIds(ps) && DistinctIds(qs) && id in KEPT
    ensures FieldValue(Summary(ps), id) == FieldValue(Summary(qs), id)
  {
    hide RecordAll;
    GreaseIff(id);
    if p :| p in ps && p.id == id && p.value != [] {
      NormalMember(ps, qs, p);
      FieldSet(NOTHING, ps, p);
      FieldSet(NOTHING, qs, p);
    } else {
      assert Leaves(ps, id);
      assert Leaves(qs, id) by {
        forall q | q in qs && q.id == id
          ensures q.value == []
        {
          NormalMember(qs, ps, q);
        }
      }
      FieldLeft(NOTHING, ps, id);
      FieldLeft(NOTHING, qs, id);
    }
  }

  lemma NamedNormal(ps: seq<Param>, id: Param -> nat)
    requires forall p :: id(p) == p.id
    ensures IdsOf(ps) == Map(id, NormalAll(ps))
  {
    forall i | 0 <= i < |ps|
      ensures IdsOf(ps)[i] == Map(id, NormalAll(ps))[i]
    {
      var _ := Normal(ps[i]);
    }
  }

  lemma IdsPermute(ps: seq<Param>, qs: seq<Param>)
    requires multiset(NormalAll(ps)) == multiset(NormalAll(qs))
    ensures multiset(IdsOf(ps)) == multiset(IdsOf(qs))
  {
    var id := (p: Param) => p.id;
    MapPermutes(id, NormalAll(ps), NormalAll(qs));
    NamedNormal(ps, id);
    NamedNormal(qs, id);
  }

  /**
    The hash input is unchanged by any reordering of the parameters, and by any
    change of the ID or the value of reserved ones.
   */
  lemma PreimageCanonical(ps: seq<Param>, qs: seq<Param>)
    requires multiset(NormalAll(ps)) == multiset(NormalAll(qs)) && DistinctIds(ps) && DistinctIds(qs)
    ensures Preimage(Summary(ps)) == Preimage(Summary(qs))
  {
    var t, u := Summary(ps), Summary(qs);
    IdsPermute(ps, qs);
    SummaryIds(ps);
    SummaryIds(qs);
    SortedUnique(t.ids, u.ids, ByValue);
    forall i | 0 <= i < |KEPT|
      ensures KeptValues(t)[i] == KeptValues(u)[i]
    {
      SameField(ps, qs, KEPT[i]);
    }
    assert KeptValues(t) == KeptValues(u);
  }

  /** The same of the wire form: extension data that differ only so are parsed to the same hash input. */
  lemma WireCanonical(ws: seq<Wire>, vs: seq<Wire>)
    requires AllLegal(ws) && AllLegal(vs)
    requires multiset(NormalAll(ParamsOf(ws))) == multiset(NormalAll(ParamsOf(vs)))
    requires DistinctIds(ParamsOf(ws)) && DistinctIds(ParamsOf(vs))
    ensures var a, b := Scan(Serialise(ws), NOTHING), Scan(Serialise(vs), NOTHING);
            a.Parsed? && b.Parsed? && Preimage(a.p) == Preimage(b.p)
  {
    ScanInvertsSerialise(ws, NOTHING);
    ScanInvertsSerialise(vs, NOTHING);
    PreimageCanonical(ParamsOf(ws), ParamsOf(vs));
  }
}
