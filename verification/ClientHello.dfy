/** The fields of a ClientHello, filled from its extensions, and the TLS fingerprint hash input. */
module ClientHello {
  import opened Bytes
  import opened Sorting
  import opened Extensions
  import opened Options
  import TransportParameters

  /** An extension as the TLS library types it; `Unused` stands for those that set no field. */
  datatype Typed =
    | SupportedCurves(curves: seq<U16>)
    | SupportedPoints(points: seq<Byte>)
    | SignatureAlgorithms(algorithms: seq<U16>)
    | Alpn(protocols: seq<seq<Byte>>)
    | CompressCert(algos: seq<U16>)
    | RecordSizeLimit(limit: U16)
    | SupportedVersions(versions: seq<U16>)
    | PskModes(modes: seq<Byte>)
    | KeyShares(shares: seq<U16>)
    | QuicParameters(data: seq<Byte>)
    | ApplicationSettings(supported: seq<seq<Byte>>)
    | Unused

  /** The extension type that each kind comes from. */
  function TypeOf(t: Typed): U16
    requires !t.Unused?
  {
    match t
    case SupportedCurves(_) => 10
    case SupportedPoints(_) => 11
    case SignatureAlgorithms(_) => 13
    case Alpn(_) => 16
    case CompressCert(_) => 27
    case RecordSizeLimit(_) => 28
    case SupportedVersions(_) => 43
    case PskModes(_) => 45
    case KeyShares(_) => 51
    case QuicParameters(_) => 57
    case ApplicationSettings(_) => 17513
  }

  /** The fields that a hash reads. */
  datatype Fields = Fields(
    groups: seq<U16>, points: seq<Byte>, signatures: seq<U16>, alpn: seq<seq<Byte>>, certs: seq<U16>,
    sizeLimit: seq<Byte>, versions: seq<U16>, pskModes: seq<Byte>, keyShare: seq<U16>,
    quic: Option<TransportParameters.Outcome>)

  const NO_FIELDS := Fields([], [], [], [], [], [], [], [], [], None)

  /** What one extension does to the fields: some are appended to, some replaced. */
  function Fill(f: Fields, t: Typed): Fields {
    match t
    case SupportedCurves(cs) => f.(groups := f.groups + cs)
    case SupportedPoints(ps) => f.(points := ps)
    case SignatureAlgorithms(ss) => f.(signatures := f.signatures + ss)
    case Alpn(ps) => f.(alpn := ps)
    case CompressCert(cs) => f.(certs := f.certs + cs)
    case RecordSizeLimit(n) => f.(sizeLimit := f.sizeLimit + BigEndian(n, 2))
    case SupportedVersions(vs) => f.(versions := f.versions + vs)
    case PskModes(ms) => f.(pskModes := ms)
    case KeyShares(ks) => f.(keyShare := f.keyShare + ks)
    case QuicParameters(d) => f.(quic := Some(TransportParameters.Scan(d, TransportParameters.NOTHING)))
    case ApplicationSettings(_) => f
    case Unused => f
  }

  function FillAll(f: Fields, ts: seq<Typed>): Fields {
    if ts == [] then f else Fill(FillAll(f, ts[..|ts| - 1]), ts[|ts| - 1])
  }

  /** The fields that no hash reads: copies with their lengths, and the application settings. */
  datatype Copies = Copies(
    groups: seq<U16>, points: seq<Byte>, signatures: seq<U16>, certs: seq<Byte>, settings: seq<seq<Byte>>)

  const NO_COPIES := Copies([], [], [], [], [])

  function WritePlainU16s(vs: seq<U16>): seq<Byte> {
    if vs == [] then [] else WritePlainU16s(vs[..|vs| - 1]) + BigEndian(vs[|vs| - 1], 2)
  }

  function PrefixedU16s(vs: seq<U16>): seq<U16> {
    [2 * |vs| % 0x1_0000] + vs
  }

  function PrefixedBytes(s: seq<Byte>): seq<Byte> {
    [|s| % 0x100] + s
  }

  function PrefixedCerts(cs: seq<U16>): seq<Byte> {
    [2 * |cs| % 0x100] + WritePlainU16s(cs)
  }

  /** What one extension does to them, once it has been filled in as `f`. */
  function Copy(c: Copies, f: Fields, t: Typed): Copies {
    match t
    case SupportedCurves(_) => c.(groups := c.groups + PrefixedU16s(f.groups))
    case SupportedPoints(_) => c.(points := c.points + PrefixedBytes(f.points))
    case SignatureAlgorithms(_) => c.(signatures := c.signatures + PrefixedU16s(f.signatures))
    case CompressCert(_) => c.(certs := c.certs + PrefixedCerts(f.certs))
    case ApplicationSettings(ps) => c.(settings := ps)
    case _ => c
  }

  function CopyAll(c: Copies, f: Fields, ts: seq<Typed>): Copies {
    if ts == [] then c else Copy(CopyAll(c, f, ts[..|ts| - 1]), FillAll(f, ts), ts[|ts| - 1])
  }

  // ----- The hash input -----

  function WriteU16s(vs: seq<U16>): seq<Byte> {
    if vs == [] then [] else WriteU16s(vs[..|vs| - 1]) + BigEndian(Ungrease(vs[|vs| - 1]), 2)
  }

  function WriteAlpn(ps: seq<seq<Byte>>): seq<Byte> {
    if ps == [] then [] else
      var p := UngreaseALPN(ps[|ps| - 1]);
      WriteAlpn(ps[..|ps| - 1]) + [|p| % 0x100] + p
  }

  function WriteModes(ms: seq<Byte>): seq<Byte> {
    Map(UngreasePSK, ms)
  }

  datatype Hello = Hello(version: U16, ciphers: seq<U16>, compression: seq<Byte>, extensions: seq<U16>, fields: Fields)

  function WriteCerts(cs: seq<U16>): seq<Byte> {
    if cs == [] then [] else PrefixedCerts(cs)
  }

  function WriteSizeLimit(s: seq<Byte>): seq<Byte> {
    if |s| >= 2 then s[..2] else [0, 0]
  }

  function WriteFields(f: Fields): seq<Byte> {
    WriteU16s(f.groups) + f.points + WriteU16s(f.signatures) + WriteAlpn(f.alpn) + WriteU16s(f.keyShare)
    + WriteModes(f.pskModes) + WriteU16s(f.versions) + WriteCerts(f.certs) + WriteSizeLimit(f.sizeLimit)
  }

  /** `exts` is the extension list in the order of the message, or sorted for the normalised form. */
  function Preimage(h: Hello, exts: seq<U16>): seq<Byte> {
    BigEndian(h.version, 4) + WriteU16s(h.ciphers) + h.compression + WriteU16s(exts) + WriteFields(h.fields)
  }

  function NormalPreimage(h: Hello): seq<Byte> {
    Preimage(h, Sort(h.extensions, ByValue))
  }

  method AppendU16s(h: seq<Byte>, vs: seq<U16>) returns (r: seq<Byte>)
    ensures r == h + WriteU16s(vs)
  {
    r := h;
    var i := 0;
    while i < |vs|
      invariant 0 <= i <= |vs|
      invariant r == h + WriteU16s(vs[..i])
    {
      assert vs[..i + 1][..i] == vs[..i];
      r := r + BigEndian(Ungrease(vs[i]), 2);
      i := i + 1;
    }
    assert vs[..|vs|] == vs;
  }

  method AppendAlpn(h: seq<Byte>, ps: seq<seq<Byte>>) returns (r: seq<Byte>)
    ensures r == h + WriteAlpn(ps)
  {
    r := h;
    var i := 0;
    while i < |ps|
      invariant 0 <= i <= |ps|
      invariant r == h + WriteAlpn(ps[..i])
    {
      assert ps[..i + 1][..i] == ps[..i];
      var proto := UngreaseALPN(ps[i]);
      r := r + [|proto| % 0x100];
      r := r + proto;
      i := i + 1;
    }
    assert ps[..|ps|] == ps;
  }

  /** Writes the hash input of one of the two fingerprints, field by field. */
  method WritePreimage(ch: Hello, normalized: bool) returns (h: seq<Byte>)
    ensures h == if normalized then NormalPreimage(ch) else Preimage(ch, ch.extensions)
  {
    hide WriteU16s, WriteAlpn, WriteModes, WriteCerts, WriteSizeLimit;
    h := BigEndian(ch.version, 4);
    h := AppendU16s(h, ch.ciphers);
    h := h + ch.compression;
    h := AppendU16s(h, if normalized then Sort(ch.extensions, ByValue) else ch.extensions);
    ghost var head := h;
    h := AppendU16s(h, ch.fields.groups);
    h := h + ch.fields.points;
    h := AppendU16s(h, ch.fields.signatures);
    h := AppendAlpn(h, ch.fields.alpn);
    h := AppendU16s(h, ch.fields.keyShare);
    h := h + WriteModes(ch.fields.pskModes);
    h := AppendU16s(h, ch.fields.versions);
    h := h + WriteCerts(ch.fields.certs);
    h := h + WriteSizeLimit(ch.fields.sizeLimit);
    assert h == head + WriteFields(ch.fields);
  }

  // ----- Making reserved values equal -----

  function Clean(t: Typed): Typed {
    match t
    case SupportedCurves(cs) => SupportedCurves(Map(Ungrease, cs))
    case SignatureAlgorithms(ss) => SignatureAlgorithms(Map(Ungrease, ss))
    case Alpn(ps) => Alpn(Map(UngreaseALPN, ps))
    case SupportedVersions(vs) => SupportedVersions(Map(Ungrease, vs))
    case PskModes(ms) => PskModes(Map(UngreasePSK, ms))
    case KeyShares(ks) => KeyShares(Map(Ungrease, ks))
    case _ => t
  }

  function CleanFields(f: Fields): Fields {
    f.(groups := Map(Ungrease, f.groups), signatures := Map(Ungrease, f.signatures),
       alpn := Map(UngreaseALPN, f.alpn), versions := Map(Ungrease, f.versions),
       pskModes := Map(UngreasePSK, f.pskModes), keyShare := Map(Ungrease, f.keyShare))
  }

  function CleanHello(h: Hello): Hello {
    h.(ciphers := Map(Ungrease, h.ciphers), fields := CleanFields(h.fields))
  }

  lemma {:induction false} WriteClean(vs: seq<U16>)
    ensures WriteU16s(Map(Ungrease, vs)) == WriteU16s(vs)
  {
    if vs == [] {
    } else {
      var n := |vs| - 1;
      WriteClean(vs[..n]);
      assert Map(Ungrease, vs)[..n] == Map(Ungrease, vs[..n]);
    }
  }

  lemma {:induction false} WriteAlpnClean(ps: seq<seq<Byte>>)
    ensures WriteAlpn(Map(UngreaseALPN, ps)) == WriteAlpn(ps)
  {
    if ps == [] {
    } else {
      var n := |ps| - 1;
      WriteAlpnClean(ps[..n]);
      assert Map(UngreaseALPN, ps)[..n] == Map(UngreaseALPN, ps[..n]);
    }
  }

  /** The hash input does not see which reserved values were there. */
  lemma PreimageClean(h: Hello, exts: seq<U16>)
    ensures Preimage(CleanHello(h), exts) == Preimage(h, exts)
  {
    hide WriteU16s, WriteAlpn;
    var f := h.fields;
    WriteClean(h.ciphers);
    WriteClean(f.groups);
    WriteClean(f.signatures);
    WriteClean(f.keyShare);
    WriteClean(f.versions);
    WriteAlpnClean(f.alpn);
    assert WriteModes(Map(UngreasePSK, f.pskModes)) == WriteModes(f.pskModes);
  }

  lemma FillClean(f: Fields, t: Typed)
    ensures CleanFields(Fill(f, t)) == Fill(CleanFields(f), Clean(t))
  {
  }

  lemma {:induction false} FillAllClean(f: Fields, ts: seq<Typed>)
    ensures CleanFields(FillAll(f, ts)) == FillAll(CleanFields(f), Map(Clean, ts))
  {
    if ts == [] {
    } else {
      var n := |ts| - 1;
      FillAllClean(f, ts[..n]);
      FillClean(FillAll(f, ts[..n]), ts[n]);
      assert Map(Clean, ts)[..n] == Map(Clean, ts[..n]);
    }
  }

  // ----- The order of extensions -----

  predicate Independent(s: Typed, t: Typed) {
    s.Unused? || t.Unused? || TypeOf(s) != TypeOf(t)
  }

  lemma FillCommutes(f: Fields, s: Typed, t: Typed)
    requires Independent(s, t)
    ensures Fill(Fill(f, s), t) == Fill(Fill(f, t), s)
  {
  }

  /** No two extensions fill the same field. */
  ghost predicate AllIndependent(ts: seq<Typed>) {
    forall i, j :: 0 <= i < j < |ts| ==> Independent(ts[i], ts[j])
  }

  /** An extension can be moved to the end. */
  lemma {:induction false} MoveToEnd(f: Fields, ts: seq<Typed>, i: nat)
    requires i < |ts| && AllIndependent(ts)
    ensures FillAll(f, ts) == Fill(FillAll(f, ts[..i] + ts[i + 1..]), ts[i])
    decreases |ts|
  {
    hide Fill, Independent;
    var n := |ts| - 1;
    if i == n {
      assert ts[..i] + ts[i + 1..] == ts[..n];
    } else {
      var rest := ts[..i] + ts[i + 1..];
      MoveToEnd(f, ts[..n], i);
      assert rest[n - 1] == ts[n];
      assert ts[..n][..i] == ts[..i] && ts[..n][i + 1..] == ts[i + 1..][..n - 1 - i];
      assert rest[..n - 1] == ts[..i] + ts[i + 1..][..n - 1 - i];
      FillCommutes(FillAll(f, rest[..n - 1]), ts[i], ts[n]);
    }
  }

  lemma {:induction false} FillAllPermutes(f: Fields, ts: seq<Typed>, us: seq<Typed>)
    requires multiset(ts) == multiset(us) && AllIndependent(ts) && AllIndependent(us)
    ensures FillAll(f, ts) == FillAll(f, us)
    decreases |ts|
  {
    SameMembers(ts, us);
    if ts == [] {
    } else {
      var n := |ts| - 1;
      assert ts[n] in us;
      var i :| 0 <= i < |us| && us[i] == ts[n];
      RemovePermutes(ts, us, i);
      MoveToEnd(f, us, i);
      FillAllPermutes(f, ts[..n], us[..i] + us[i + 1..]);
    }
  }

  ghost predicate HasType(ts: seq<Typed>, n: U16) {
    exists i :: 0 <= i < |ts| && !ts[i].Unused? && TypeOf(ts[i]) == n
  }

  /** Each copy is of its field, once, just when the message has the extension. */
  ghost predicate Mirrors(c: Copies, f: Fields, ts: seq<Typed>) {
    && c.groups == (if HasType(ts, 10) then PrefixedU16s(f.groups) else [])
    && c.points == (if HasType(ts, 11) then PrefixedBytes(f.points) else [])
    && c.signatures == (if HasType(ts, 13) then PrefixedU16s(f.signatures) else [])
    && c.certs == (if HasType(ts, 27) then PrefixedCerts(f.certs) else [])
    && (HasType(ts, 17513) || c.settings == [])
    && (forall i :: 0 <= i < |ts| && ts[i].ApplicationSettings? ==> c.settings == ts[i].supported)
  }

  lemma HasTypeSnoc(ts: seq<Typed>, t: Typed, n: U16)
    ensures HasType(ts + [t], n) <==> HasType(ts, n) || (!t.Unused? && TypeOf(t) == n)
  {
    assert (ts + [t])[|ts|] == t;
    if HasType(ts, n) {
      var i :| 0 <= i < |ts| && !ts[i].Unused? && TypeOf(ts[i]) == n;
      assert (ts + [t])[i] == ts[i];
    }
  }

  lemma NoneOfType(ts: seq<Typed>)
    requires !HasType(ts, 17513)
    ensures forall i :: 0 <= i < |ts| ==> !ts[i].ApplicationSettings?
  {
  }

  lemma MirrorsStep(c: Copies, f: Fields, ts: seq<Typed>, t: Typed)
    requires Mirrors(c, f, ts) && (t.Unused? || !HasType(ts, TypeOf(t)))
    ensures Mirrors(Copy(c, Fill(f, t), t), Fill(f, t), ts + [t])
  {
    hide HasType, PrefixedU16s, PrefixedBytes, PrefixedCerts;
    HasTypeSnoc(ts, t, 10);
    HasTypeSnoc(ts, t, 11);
    HasTypeSnoc(ts, t, 13);
    HasTypeSnoc(ts, t, 27);
    HasTypeSnoc(ts, t, 17513);
    if t.ApplicationSettings? {
      NoneOfType(ts);
    }
  }

  lemma {:induction false} CopiesMirror(ts: seq<Typed>)
    requires AllIndependent(ts)
    ensures Mirrors(CopyAll(NO_COPIES, NO_FIELDS, ts), FillAll(NO_FIELDS, ts), ts)
  {
    hide Copy, Fill;
    if ts == [] {
    } else {
      var n := |ts| - 1;
      CopiesMirror(ts[..n]);
      assert ts == ts[..n] + [ts[n]];
      assert forall i :: 0 <= i < n ==> Independent(ts[i], ts[n]);
      MirrorsStep(CopyAll(NO_COPIES, NO_FIELDS, ts[..n]), FillAll(NO_FIELDS, ts[..n]), ts[..n], ts[n]);
    }
  }

  // ----- The normalised fingerprint -----

  /** An extension of the message, and what the TLS library makes of it. */
  datatype Extension = Extension(raw: Raw, typed: Typed) {
    predicate WellTyped() {
      typed.Unused? || raw.id == TypeOf(typed)
    }
  }

  datatype Key = Key(id: U16, typed: Typed)

  /** An extension with its reserved values made equal and its raw data put aside. */
  function KeyOf(e: Extension): Key {
    Key(Ungrease(e.raw.id), Clean(e.typed))
  }

  const TypedOf: Extension -> Typed := (e: Extension) => e.typed
  const RawOf: Extension -> Raw := (e: Extension) => e.raw

  /** A parsed message: reserved extension IDs are replaced as the block is walked. */
  function HelloOf(version: U16, ciphers: seq<U16>, compression: seq<Byte>, es: seq<Extension>): Hello {
    Hello(version, ciphers, compression, Map(IdOf, Map(RawOf, es)), FillAll(NO_FIELDS, Map(TypedOf, es)))
  }

  ghost predicate WellFormed(es: seq<Extension>) {
    && (forall i :: 0 <= i < |es| ==> es[i].WellTyped())
    && (forall i, j :: 0 <= i < j < |es| && es[i].raw.id == es[j].raw.id ==> es[i].raw.id in RESERVED)
  }

  /** Equal up to reserved values, value by value. */
  lemma UngreaseIff(v: U16, w: U16)
    ensures Ungrease(v) == Ungrease(w) <==> v == w || (v in RESERVED && w in RESERVED)
  {
    UngreaseIs(v);
    UngreaseIs(w);
    GreaseIff(0x0A0A);
  }

  lemma CleanIndependent(es: seq<Extension>)
    requires WellFormed(es)
    ensures AllIndependent(Map(Clean, Map(TypedOf, es)))
  {
    var ts := Map(Clean, Map(TypedOf, es));
    forall i, j | 0 <= i < j < |es|
      ensures Independent(ts[i], ts[j])
    {
      assert es[i].WellTyped() && es[j].WellTyped();
    }
  }

  lemma CleanFieldsPermute(es: seq<Extension>, fs: seq<Extension>)
    requires WellFormed(es) && WellFormed(fs) && multiset(Map(KeyOf, es)) == multiset(Map(KeyOf, fs))
    ensures CleanFields(FillAll(NO_FIELDS, Map(TypedOf, es))) == CleanFields(FillAll(NO_FIELDS, Map(TypedOf, fs)))
  {
    hide FillAll, Clean;
    var ts, us := Map(Clean, Map(TypedOf, es)), Map(Clean, Map(TypedOf, fs));
    var typed := (k: Key) => k.typed;
    MapPermutes(typed, Map(KeyOf, es), Map(KeyOf, fs));
    assert Map(typed, Map(KeyOf, es)) == ts && Map(typed, Map(KeyOf, fs)) == us;
    CleanIndependent(es);
    CleanIndependent(fs);
    FillAllPermutes(NO_FIELDS, ts, us);
    FillAllClean(NO_FIELDS, Map(TypedOf, es));
    FillAllClean(NO_FIELDS, Map(TypedOf, fs));
    assert CleanFields(NO_FIELDS) == NO_FIELDS;
  }

  lemma SortedIdsPermute(es: seq<Extension>, fs: seq<Extension>)
    requires multiset(Map(KeyOf, es)) == multiset(Map(KeyOf, fs))
    ensures Sort(Map(IdOf, Map(RawOf, es)), ByValue) == Sort(Map(IdOf, Map(RawOf, fs)), ByValue)
  {
    hide Sort;
    var id := (k: Key) => k.id;
    var xs, ys := Map(IdOf, Map(RawOf, es)), Map(IdOf, Map(RawOf, fs));
    MapPermutes(id, Map(KeyOf, es), Map(KeyOf, fs));
    assert Map(id, Map(KeyOf, es)) == xs && Map(id, Map(KeyOf, fs)) == ys;
    SortPermutation(xs, ys, ByValue);
  }

  /**
    The normalised hash input is unchanged by any reordering of the extensions,
    and by any exchange of reserved values in cipher suites, extension IDs,
    groups, signature algorithms, ALPN, key shares, PSK modes or versions.
   */
  lemma NormalInvariant(
    version: U16, compression: seq<Byte>, cs: seq<U16>, ds: seq<U16>, es: seq<Extension>, fs: seq<Extension>)
    requires WellFormed(es) && WellFormed(fs)
    requires Map(Ungrease, cs) == Map(Ungrease, ds)
    requires multiset(Map(KeyOf, es)) == multiset(Map(KeyOf, fs))
    ensures NormalPreimage(HelloOf(version, cs, compression, es))
         == NormalPreimage(HelloOf(version, ds, compression, fs))
  {
    hide Preimage, Sort, FillAll, CleanFields;
    var h, k := HelloOf(version, cs, compression, es), HelloOf(version, ds, compression, fs);
    SortedIdsPermute(es, fs);
    CleanFieldsPermute(es, fs);
    var exts := Sort(h.extensions, ByValue);
    PreimageClean(h, exts);
    PreimageClean(k, exts);
    HelloClean(h, k, exts);
  }

  /** A message as parsed: the IDs come from walking the raw block, the fields from the typed extensions. */
  function Parsed(version: U16, ciphers: seq<U16>, compression: seq<Byte>, block: seq<Byte>, ts: seq<Typed>)
    : Option<Hello>
  {
    match WalkBlock(block)
    case WalkError => None
    case Ids(ids) => Some(Hello(version, ciphers, compression, ids, FillAll(NO_FIELDS, ts)))
  }

  /** Parsing a written message fails just when a key share in it is malformed, and else gives its fields. */
  lemma ParsedInvertsWrite(version: U16, ciphers: seq<U16>, compression: seq<Byte>, es: seq<Extension>)
    requires forall i :: 0 <= i < |es| ==> |es[i].raw.data| < 0x1_0000
    ensures Parsed(version, ciphers, compression, WriteBlock(Map(RawOf, es)), Map(TypedOf, es)) ==
              if AllOk(Map(RawOf, es)) then Some(HelloOf(version, ciphers, compression, es)) else None
  {
    hide WalkBlock, WriteBlock, FillAll;
    WalkInvertsWrite(Map(RawOf, es));
  }

  /** The invariance of the normalised hash input, on messages as written. */
  lemma WireInvariant(
    version: U16, compression: seq<Byte>, cs: seq<U16>, ds: seq<U16>, es: seq<Extension>, fs: seq<Extension>)
    requires WellFormed(es) && WellFormed(fs)
    requires forall i :: 0 <= i < |es| ==> |es[i].raw.data| < 0x1_0000
    requires forall i :: 0 <= i < |fs| ==> |fs[i].raw.data| < 0x1_0000
    requires Map(Ungrease, cs) == Map(Ungrease, ds)
    requires multiset(Map(KeyOf, es)) == multiset(Map(KeyOf, fs))
    ensures var a := Parsed(version, cs, compression, WriteBlock(Map(RawOf, es)), Map(TypedOf, es));
            var b := Parsed(version, ds, compression, WriteBlock(Map(RawOf, fs)), Map(TypedOf, fs));
            && (a.Some? <==> AllOk(Map(RawOf, es)))
            && (b.Some? <==> AllOk(Map(RawOf, fs)))
            && (a.Some? && b.Some? ==> NormalPreimage(a.value) == NormalPreimage(b.value))
  {
    hide Parsed, NormalPreimage, WellFormed, HelloOf;
    ParsedInvertsWrite(version, cs, compression, es);
    ParsedInvertsWrite(version, ds, compression, fs);
    NormalInvariant(version, compression, cs, ds, es, fs);
  }

  lemma HelloClean(h: Hello, k: Hello, exts: seq<U16>)
    requires CleanHello(h).(extensions := []) == CleanHello(k).(extensions := [])
    ensures Preimage(CleanHello(h), exts) == Preimage(CleanHello(k), exts)
  {
  }

  lemma TwoBytes(n: U16)
    ensures BigEndian(n, 2) == [n / 0x100, n % 0x100]
  {
  }

  // ----- The object -----

  method Uint16ToUint8(a: seq<U16>) returns (b: seq<Byte>)
    ensures b == WritePlainU16s(a)
  {
    b := [];
    var i := 0;
    while i < |a|
      invariant 0 <= i <= |a|
      invariant b == WritePlainU16s(a[..i])
    {
      assert a[..i + 1][..i] == a[..i];
      TwoBytes(a[i]);
      b := b + [a[i] / 0x100, a[i] % 0x100];
      i := i + 1;
    }
    assert a[..|a|] == a;
  }

  class Capture {
    var namedGroupList: seq<U16>
    var ecPointFormatList: seq<Byte>
    var signatureSchemeList: seq<U16>
    var alpn: seq<seq<Byte>>
    var certCompressAlgo: seq<U16>
    var recordSizeLimit: seq<Byte>
    var supportedVersions: seq<U16>
    var pskKeyExchangeModes: seq<Byte>
    var keyShare: seq<U16>
    var qtp: Option<TransportParameters.Outcome>
    var lengthPrefixedSupportedGroups: seq<U16>
    var lengthPrefixedEcPointFormats: seq<Byte>
    var lengthPrefixedSignatureAlgos: seq<U16>
    var lengthPrefixedCertCompressAlgos: seq<Byte>
    var applicationSettings: seq<seq<Byte>>

    ghost function Abs(): Fields
      reads this
    {
      Fields(namedGroupList, ecPointFormatList, signatureSchemeList, alpn, certCompressAlgo, recordSizeLimit,
             supportedVersions, pskKeyExchangeModes, keyShare, qtp)
    }

    ghost function AbsCopies(): Copies
      reads this
    {
      Copies(lengthPrefixedSupportedGroups, lengthPrefixedEcPointFormats, lengthPrefixedSignatureAlgos,
             lengthPrefixedCertCompressAlgos, applicationSettings)
    }

    constructor ()
      ensures Abs() == NO_FIELDS && AbsCopies() == NO_COPIES
    {
      lengthPrefixedSupportedGroups, lengthPrefixedEcPointFormats, lengthPrefixedSignatureAlgos := [], [], [];
      lengthPrefixedCertCompressAlgos, applicationSettings := [], [];
      namedGroupList, ecPointFormatList, signatureSchemeList, alpn, certCompressAlgo := [], [], [], [], [];
      recordSizeLimit, supportedVersions, pskKeyExchangeModes, keyShare, qtp := [], [], [], [], None;
    }

    /** Lists of 16-bit values, of which a copy with its length is kept beside the field. */
    method ParsePrefixedList(t: Typed)
      requires t.SupportedCurves? || t.SignatureAlgorithms?
      modifies this
      ensures Abs() == Fill(old(Abs()), t)
      ensures AbsCopies() == Copy(old(AbsCopies()), Fill(old(Abs()), t), t)
    {
      hide PrefixedU16s;
      match t {
        case SupportedCurves(cs) =>
          namedGroupList := namedGroupList + cs;
          lengthPrefixedSupportedGroups := lengthPrefixedSupportedGroups + PrefixedU16s(namedGroupList);
        case SignatureAlgorithms(ss) =>
          signatureSchemeList := signatureSchemeList + ss;
          lengthPrefixedSignatureAlgos := lengthPrefixedSignatureAlgos + PrefixedU16s(signatureSchemeList);
      }
    }

    /** The same with the copy in bytes. */
    method ParsePrefixedBytes(t: Typed)
      requires t.SupportedPoints? || t.CompressCert?
      modifies this
      ensures Abs() == Fill(old(Abs()), t)
      ensures AbsCopies() == Copy(old(AbsCopies()), Fill(old(Abs()), t), t)
    {
      hide WritePlainU16s, PrefixedBytes;
      match t {
        case SupportedPoints(ps) =>
          ecPointFormatList := ps;
          lengthPrefixedEcPointFormats := lengthPrefixedEcPointFormats + PrefixedBytes(ps);
        case CompressCert(cs) =>
          certCompressAlgo := certCompressAlgo + cs;
          var b := Uint16ToUint8(certCompressAlgo);
          lengthPrefixedCertCompressAlgos :=
            lengthPrefixedCertCompressAlgos + ([2 * |certCompressAlgo| % 0x100] + b);
      }
    }

    /** Fields that are appended to, with no copy. */
    method ParseAppended(t: Typed)
      requires t.RecordSizeLimit? || t.SupportedVersions? || t.KeyShares?
      modifies this
      ensures Abs() == Fill(old(Abs()), t)
      ensures AbsCopies() == Copy(old(AbsCopies()), Fill(old(Abs()), t), t)
    {
      hide BigEndian;
      match t {
        case RecordSizeLimit(n) =>
          TwoBytes(n);
          recordSizeLimit := recordSizeLimit + [n / 0x100, n % 0x100];
        case SupportedVersions(vs) => supportedVersions := supportedVersions + vs;
        case KeyShares(ks) => keyShare := keyShare + ks;
      }
    }

    /** Fields that are replaced. */
    method ParseReplaced(t: Typed)
      requires t.Alpn? || t.PskModes? || t.QuicParameters? || t.ApplicationSettings?
      modifies this
      ensures Abs() == Fill(old(Abs()), t)
      ensures AbsCopies() == Copy(old(AbsCopies()), Fill(old(Abs()), t), t)
    {
      hide TransportParameters.Scan;
      match t {
        case Alpn(ps) => alpn := ps;
        case PskModes(ms) => pskKeyExchangeModes := ms;
        case QuicParameters(d) =>
          var parameters := TransportParameters.ParseQUICTransportParameters(d);
          qtp := Some(parameters);
        case ApplicationSettings(ps) => applicationSettings := ps;
      }
    }

    method ParseExtension(t: Typed)
      modifies this
      ensures Abs() == Fill(old(Abs()), t)
      ensures AbsCopies() == Copy(old(AbsCopies()), Fill(old(Abs()), t), t)
    {
      hide WritePlainU16s, PrefixedU16s, PrefixedBytes, PrefixedCerts, TransportParameters.Scan;
      if t.SupportedCurves? || t.SignatureAlgorithms? {
        ParsePrefixedList(t);
      } else if t.SupportedPoints? || t.CompressCert? {
        ParsePrefixedBytes(t);
      } else if t.RecordSizeLimit? || t.SupportedVersions? || t.KeyShares? {
        ParseAppended(t);
      } else if !t.Unused? {
        ParseReplaced(t);
      }
    }

    method ParseExtensions(ts: seq<Typed>)
      modifies this
      ensures Abs() == FillAll(old(Abs()), ts)
      ensures AbsCopies() == CopyAll(old(AbsCopies()), old(Abs()), ts)
    {
      hide Fill, Copy;
      var i := 0;
      while i < |ts|
        invariant 0 <= i <= |ts|
        invariant Abs() == FillAll(old(Abs()), ts[..i])
        invariant AbsCopies() == CopyAll(old(AbsCopies()), old(Abs()), ts[..i])
      {
        assert ts[..i + 1][..i] == ts[..i];
        ParseExtension(ts[i]);
        i := i + 1;
      }
      assert ts[..|ts|] == ts;
    }
  }
}
