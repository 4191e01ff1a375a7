/** What the TLS fingerprint hash is fed, byte by byte, and what each of its fields tells apart. */
module TlsLayout {
  import opened Bytes
  import opened ClientHello
  import opened Extensions
  import opened Options
  import opened Sorting
  import TransportParameters

  // ----- Parts -----

  function Flatten(ps: seq<seq<Byte>>): seq<Byte> {
    if ps == [] then [] else ps[0] + Flatten(ps[1..])
  }

  lemma Cancel(a: seq<Byte>, x: seq<Byte>, y: seq<Byte>, b: seq<Byte>)
    ensures a + x == a + y <==> x == y
    ensures x + b == y + b <==> x == y
  {
    if a + x == a + y {
      assert x == (a + x)[|a|..] && y == (a + y)[|a|..];
    }
    if x + b == y + b {
      assert |x| == |y|;
      assert x == (x + b)[..|x|] && y == (y + b)[..|x|];
    }
  }

  /** With the other parts fixed, the whole is the same just when the one part is. */
  lemma {:induction false} OnePart(ps: seq<seq<Byte>>, k: nat, x: seq<Byte>, y: seq<Byte>)
    requires k < |ps|
    ensures Flatten(ps[k := x]) == Flatten(ps[k := y]) <==> x == y
    decreases k
  {
    if k == 0 {
      assert ps[0 := x][1..] == ps[1..] == ps[0 := y][1..];
      Cancel([], x, y, Flatten(ps[1..]));
    } else {
      OnePart(ps[1..], k - 1, x, y);
      assert ps[k := x][1..] == ps[1..][k - 1 := x] && ps[k := y][1..] == ps[1..][k - 1 := y];
      Cancel(ps[0], Flatten(ps[1..][k - 1 := x]), Flatten(ps[1..][k - 1 := y]), []);
    }
  }

  /** A part lies where those before it end. */
  lemma {:induction false} PartAt(ps: seq<seq<Byte>>, k: nat)
    requires k < |ps|
    ensures var n := |Flatten(ps[..k])|;
            n + |ps[k]| <= |Flatten(ps)| && Flatten(ps)[n..n + |ps[k]|] == ps[k]
    decreases k
  {
    if k == 0 {
      assert ps[..0] == [];
    } else {
      PartAt(ps[1..], k - 1);
      assert ps[1..][..k - 1] == ps[..k][1..];
      var rest, n := Flatten(ps[1..]), |Flatten(ps[1..][..k - 1])|;
      assert Flatten(ps) == ps[0] + rest;
      assert (ps[0] + rest)[|ps[0]| + n..|ps[0]| + n + |ps[k]|] == rest[n..n + |ps[k]|];
    }
  }

  lemma Head(p: seq<Byte>, ps: seq<seq<Byte>>)
    ensures Flatten([p] + ps) == p + Flatten(ps)
  {
    assert ([p] + ps)[1..] == ps;
  }

  /** The thirteen parts of the hash input, in order. */
  function Parts(h: Hello, exts: seq<U16>): (ps: seq<seq<Byte>>)
    ensures |ps| == 13
  {
    [BigEndian(h.version, 4), WriteU16s(h.ciphers), h.compression, WriteU16s(exts)] + FieldParts(h.fields)
  }

  function FieldParts(f: Fields): (ps: seq<seq<Byte>>)
    ensures |ps| == 9
  {
    [WriteU16s(f.groups), f.points, WriteU16s(f.signatures), WriteAlpn(f.alpn), WriteU16s(f.keyShare),
     WriteModes(f.pskModes), WriteU16s(f.versions), WriteCerts(f.certs), WriteSizeLimit(f.sizeLimit)]
  }

  lemma FlattenNine(a: seq<Byte>, b: seq<Byte>, c: seq<Byte>, d: seq<Byte>, e: seq<Byte>, f: seq<Byte>, g: seq<Byte>,
                    h: seq<Byte>, i: seq<Byte>)
    ensures Flatten([a, b, c, d, e, f, g, h, i]) == a + b + c + d + e + f + g + h + i
  {
    hide Flatten;
    FlattenThree(g, h, i);
    FlattenThreeThen(d, e, f, [g, h, i]);
    FlattenThreeThen(a, b, c, [d, e, f, g, h, i]);
    assert [d, e, f] + [g, h, i] == [d, e, f, g, h, i];
    assert [a, b, c] + [d, e, f, g, h, i] == [a, b, c, d, e, f, g, h, i];
  }

  lemma FlattenThree(a: seq<Byte>, b: seq<Byte>, c: seq<Byte>)
    ensures Flatten([a, b, c]) == a + b + c
  {
    FlattenThreeThen(a, b, c, []);
    assert [a, b, c] + [] == [a, b, c];
  }

  lemma FlattenThreeThen(a: seq<Byte>, b: seq<Byte>, c: seq<Byte>, rest: seq<seq<Byte>>)
    ensures Flatten([a, b, c] + rest) == a + b + c + Flatten(rest)
  {
    hide Flatten;
    Head(a, [b, c] + rest);
    Head(b, [c] + rest);
    Head(c, rest);
    assert [a, b, c] + rest == [a] + ([b, c] + rest) && [b, c] + rest == [b] + ([c] + rest);
  }

  lemma PreimageParts(h: Hello, exts: seq<U16>)
    ensures Preimage(h, exts) == Flatten(Parts(h, exts))
  {
    hide Flatten, WriteU16s, WriteAlpn, WriteModes, WriteCerts, WriteSizeLimit, BigEndian;
    var f, fps := h.fields, FieldParts(h.fields);
    var a, b, c, d := BigEndian(h.version, 4), WriteU16s(h.ciphers), h.compression, WriteU16s(exts);
    FlattenNine(WriteU16s(f.groups), f.points, WriteU16s(f.signatures), WriteAlpn(f.alpn), WriteU16s(f.keyShare),
                WriteModes(f.pskModes), WriteU16s(f.versions), WriteCerts(f.certs), WriteSizeLimit(f.sizeLimit));
    Head(d, fps);
    FlattenThreeThen(a, b, c, [d] + fps);
    assert Parts(h, exts) == [a, b, c] + ([d] + fps);
  }

  /** Each part of the hash input is at its place, after those before it. */
  lemma Layout(h: Hello, exts: seq<U16>, k: nat)
    requires k < 13
    ensures var ps := Parts(h, exts);
            var n := |Flatten(ps[..k])|;
            n + |ps[k]| <= |Preimage(h, exts)| && Preimage(h, exts)[n..n + |ps[k]|] == ps[k]
  {
    hide Preimage, Parts, Flatten;
    PreimageParts(h, exts);
    PartAt(Parts(h, exts), k);
  }

  /** Hash inputs that can differ in part `k` alone are equal just when that part is. */
  lemma PartTells(h: Hello, g: Hello, e: seq<U16>, f: seq<U16>, k: nat)
    requires k < 13 && Parts(g, f) == Parts(h, e)[k := Parts(g, f)[k]]
    ensures Preimage(h, e) == Preimage(g, f) <==> Parts(h, e)[k] == Parts(g, f)[k]
  {
    hide Preimage, Parts, Flatten;
    PreimageParts(h, e);
    PreimageParts(g, f);
    var ps := Parts(h, e);
    OnePart(ps, k, ps[k], Parts(g, f)[k]);
    assert ps[k := ps[k]] == ps;
  }

  // ----- What each way of writing tells -----

  lemma {:induction false} U16sWritten(vs: seq<U16>, i: nat)
    requires i < |vs|
    ensures |WriteU16s(vs)| == 2 * |vs| && FromBigEndian(WriteU16s(vs)[2 * i..2 * i + 2]) == Ungrease(vs[i])
  {
    hide FromBigEndian, Ungrease;
    var n := |vs| - 1;
    var before, last := WriteU16s(vs[..n]), BigEndian(Ungrease(vs[n]), 2);
    U16sLength(vs[..n]);
    if i < n {
      U16sWritten(vs[..n], i);
      assert (before + last)[2 * i..2 * i + 2] == before[2 * i..2 * i + 2];
    } else {
      assert (before + last)[2 * i..2 * i + 2] == last;
      PowersOf256();
      BigEndianRoundTrip(Ungrease(vs[n]), 2);
    }
  }

  lemma {:induction false} U16sLength(vs: seq<U16>)
    ensures |WriteU16s(vs)| == 2 * |vs|
  {
    if vs == [] {
    } else {
      U16sLength(vs[..|vs| - 1]);
    }
  }

  /** Lists of values are written alike just when they are the same up to reserved values. */
  lemma U16sTell(vs: seq<U16>, ws: seq<U16>)
    ensures WriteU16s(vs) == WriteU16s(ws) <==> Map(Ungrease, vs) == Map(Ungrease, ws)
  {
    hide Ungrease, WriteU16s;
    WriteClean(vs);
    WriteClean(ws);
    if WriteU16s(vs) == WriteU16s(ws) {
      U16sLength(vs);
      U16sLength(ws);
      forall i | 0 <= i < |vs|
        ensures Ungrease(vs[i]) == Ungrease(ws[i])
      {
        U16sWritten(vs, i);
        U16sWritten(ws, i);
      }
      assert Map(Ungrease, vs) == Map(Ungrease, ws);
    }
  }

  lemma {:induction false} PlainWritten(vs: seq<U16>, i: nat)
    requires i < |vs|
    ensures |WritePlainU16s(vs)| == 2 * |vs| && FromBigEndian(WritePlainU16s(vs)[2 * i..2 * i + 2]) == vs[i]
  {
    hide FromBigEndian;
    var n := |vs| - 1;
    var before, last := WritePlainU16s(vs[..n]), BigEndian(vs[n], 2);
    PlainLength(vs[..n]);
    if i < n {
      PlainWritten(vs[..n], i);
      assert (before + last)[2 * i..2 * i + 2] == before[2 * i..2 * i + 2];
    } else {
      assert (before + last)[2 * i..2 * i + 2] == last;
      PowersOf256();
      BigEndianRoundTrip(vs[n], 2);
    }
  }

  lemma PlainTell(vs: seq<U16>, ws: seq<U16>)
    ensures |WritePlainU16s(vs)| == 2 * |vs| && |WritePlainU16s(ws)| == 2 * |ws|
    ensures WritePlainU16s(vs) == WritePlainU16s(ws) ==> vs == ws
  {
    hide WritePlainU16s;
    PlainLength(vs);
    PlainLength(ws);
    if WritePlainU16s(vs) == WritePlainU16s(ws) {
      forall i | 0 <= i < |vs|
        ensures vs[i] == ws[i]
      {
        PlainWritten(vs, i);
        PlainWritten(ws, i);
      }
    }
  }

  lemma {:induction false} PlainLength(vs: seq<U16>)
    ensures |WritePlainU16s(vs)| == 2 * |vs|
  {
    if vs == [] {
    } else {
      PlainLength(vs[..|vs| - 1]);
    }
  }

  lemma CertsTell(cs: seq<U16>, ds: seq<U16>)
    ensures WriteCerts(cs) == WriteCerts(ds) <==> cs == ds
  {
    hide WritePlainU16s;
    PlainTell(cs, ds);
    if cs != [] && ds != [] && WriteCerts(cs) == WriteCerts(ds) {
      assert WriteCerts(cs)[1..] == WritePlainU16s(cs) && WriteCerts(ds)[1..] == WritePlainU16s(ds);
    }
  }

  /** The prefix of a copy is the number of bytes that follow it, cut to the width of the prefix. */
  lemma PrefixesAreLengths(vs: seq<U16>, s: seq<Byte>)
    ensures var p := PrefixedU16s(vs); p[1..] == vs && p[0] == 2 * (|p| - 1) % 0x1_0000
    ensures var p := PrefixedBytes(s); p[1..] == s && p[0] == (|p| - 1) % 0x100
    ensures var p := PrefixedCerts(vs); p[1..] == WritePlainU16s(vs) && p[0] == (|p| - 1) % 0x100
  {
    PlainLength(vs);
  }

  /** A protocol name as written: its length in one byte, and its bytes. */
  function WriteName(p: seq<Byte>): (s: seq<Byte>)
    ensures s != []
  {
    [|p| % 0x100] + p
  }

  lemma LastName(ps: seq<seq<Byte>>, p: seq<Byte>)
    ensures WriteAlpn(ps + [p]) == WriteAlpn(ps) + WriteName(UngreaseALPN(p))
  {
    hide UngreaseALPN;
    assert (ps + [p])[..|ps|] == ps;
  }

  lemma {:induction false} FirstName(p: seq<Byte>, ps: seq<seq<Byte>>)
    ensures WriteAlpn([p] + ps) == WriteName(UngreaseALPN(p)) + WriteAlpn(ps)
    decreases |ps|
  {
    hide UngreaseALPN, WriteAlpn, WriteName;
    NoNames();
    if ps == [] {
      LastName([], p);
      assert [] + [p] == [p] + ps;
    } else {
      var n := |ps| - 1;
      FirstName(p, ps[..n]);
      LastName([p] + ps[..n], ps[n]);
      LastName(ps[..n], ps[n]);
      assert [p] + ps == [p] + ps[..n] + [ps[n]] && ps == ps[..n] + [ps[n]];
    }
  }

  ghost predicate ShortNames(ps: seq<seq<Byte>>) {
    forall i :: 0 <= i < |ps| ==> |ps[i]| < 0x100
  }

  lemma NameTells(p: seq<Byte>, s: seq<Byte>, q: seq<Byte>, t: seq<Byte>)
    requires |p| < 0x100 && |q| < 0x100 && WriteName(p) + s == WriteName(q) + t
    ensures p == q && s == t
  {
    var a, b := WriteName(p) + s, WriteName(q) + t;
    assert a[0] == |p| && b[0] == |q|;
    assert a[1..1 + |p|] == p && b[1..1 + |p|] == q;
    assert a[1 + |p|..] == s && b[1 + |p|..] == t;
  }

  lemma NameFirst(ps: seq<seq<Byte>>)
    requires ps != []
    ensures WriteAlpn(ps) == WriteName(UngreaseALPN(ps[0])) + WriteAlpn(ps[1..])
    ensures Map(UngreaseALPN, ps) == [UngreaseALPN(ps[0])] + Map(UngreaseALPN, ps[1..])
    ensures WriteAlpn(ps) != []
  {
    hide UngreaseALPN, WriteAlpn, WriteName;
    FirstName(ps[0], ps[1..]);
    assert ps == [ps[0]] + ps[1..];
  }

  lemma {:induction false} AlpnOnly(ps: seq<seq<Byte>>, qs: seq<seq<Byte>>)
    requires ShortNames(ps) && ShortNames(qs) && WriteAlpn(ps) == WriteAlpn(qs)
    ensures Map(UngreaseALPN, ps) == Map(UngreaseALPN, qs)
    decreases |ps|
  {
    hide UngreaseALPN, WriteAlpn, WriteName;
    NoNames();
    if ps == [] {
      if qs != [] {
        NameFirst(qs);
      }
    } else {
      NameFirst(ps);
      NameFirst(qs);
      ShortUngrease(ps[0]);
      ShortUngrease(qs[0]);
      NameTells(UngreaseALPN(ps[0]), WriteAlpn(ps[1..]), UngreaseALPN(qs[0]), WriteAlpn(qs[1..]));
      AlpnOnly(ps[1..], qs[1..]);
    }
  }

  /** Lists of names shorter than 256 bytes are written alike just when they are the same up to reserved names. */
  lemma AlpnTell(ps: seq<seq<Byte>>, qs: seq<seq<Byte>>)
    requires ShortNames(ps) && ShortNames(qs)
    ensures WriteAlpn(ps) == WriteAlpn(qs) <==> Map(UngreaseALPN, ps) == Map(UngreaseALPN, qs)
  {
    hide UngreaseALPN, WriteAlpn;
    WriteAlpnClean(ps);
    WriteAlpnClean(qs);
    if WriteAlpn(ps) == WriteAlpn(qs) {
      AlpnOnly(ps, qs);
    }
  }

  lemma NoNames()
    ensures WriteAlpn([]) == []
  {
  }

  lemma ShortUngrease(p: seq<Byte>)
    requires |p| < 0x100
    ensures |UngreaseALPN(p)| < 0x100
  {
  }

  // ----- What each field tells -----

  function With(h: Hello, f: Fields): Hello {
    h.(fields := f)
  }

  /** The hash input of `h` with other fields. */
  function Fed(h: Hello, f: Fields, exts: seq<U16>): seq<Byte> {
    Preimage(With(h, f), exts)
  }

  lemma VersionTells(h: Hello, v: U16, w: U16, exts: seq<U16>)
    ensures Preimage(h.(version := v), exts) == Preimage(h.(version := w), exts) <==> v == w
  {
    hide Preimage;
    PartTells(h.(version := v), h.(version := w), exts, exts, 0);
    PowersOf256();
    if BigEndian(v, 4) == BigEndian(w, 4) {
      BigEndianInjective(v, w, 4);
    }
  }

  lemma CiphersTell(h: Hello, cs: seq<U16>, ds: seq<U16>, exts: seq<U16>)
    ensures Preimage(h.(ciphers := cs), exts) == Preimage(h.(ciphers := ds), exts) <==>
            Map(Ungrease, cs) == Map(Ungrease, ds)
  {
    hide Preimage, WriteU16s, Ungrease;
    PartTells(h.(ciphers := cs), h.(ciphers := ds), exts, exts, 1);
    U16sTell(cs, ds);
  }

  lemma CompressionTells(h: Hello, c: seq<Byte>, d: seq<Byte>, exts: seq<U16>)
    ensures Preimage(h.(compression := c), exts) == Preimage(h.(compression := d), exts) <==> c == d
  {
    hide Preimage;
    PartTells(h.(compression := c), h.(compression := d), exts, exts, 2);
  }

  lemma ExtensionsTell(h: Hello, es: seq<U16>, fs: seq<U16>)
    ensures Preimage(h, es) == Preimage(h, fs) <==> Map(Ungrease, es) == Map(Ungrease, fs)
  {
    hide Preimage, WriteU16s, Ungrease;
    PartTells(h, h, es, fs, 3);
    U16sTell(es, fs);
  }

  lemma GroupsTell(h: Hello, vs: seq<U16>, ws: seq<U16>, exts: seq<U16>)
    ensures Fed(h, h.fields.(groups := vs), exts) == Fed(h, h.fields.(groups := ws), exts) <==>
            Map(Ungrease, vs) == Map(Ungrease, ws)
  {
    hide Preimage, WriteU16s, Ungrease;
    PartTells(With(h, h.fields.(groups := vs)), With(h, h.fields.(groups := ws)), exts, exts, 4);
    U16sTell(vs, ws);
  }

  lemma PointsTell(h: Hello, vs: seq<Byte>, ws: seq<Byte>, exts: seq<U16>)
    ensures Fed(h, h.fields.(points := vs), exts) == Fed(h, h.fields.(points := ws), exts) <==>
            vs == ws
  {
    hide Preimage, WriteU16s;
    PartTells(With(h, h.fields.(points := vs)), With(h, h.fields.(points := ws)), exts, exts, 5);
  }

  lemma SignaturesTell(h: Hello, vs: seq<U16>, ws: seq<U16>, exts: seq<U16>)
    ensures Fed(h, h.fields.(signatures := vs), exts) == Fed(h, h.fields.(signatures := ws), exts) <==>
            Map(Ungrease, vs) == Map(Ungrease, ws)
  {
    hide Preimage, WriteU16s, Ungrease;
    PartTells(With(h, h.fields.(signatures := vs)), With(h, h.fields.(signatures := ws)), exts, exts, 6);
    U16sTell(vs, ws);
  }

  lemma AlpnTells(h: Hello, ps: seq<seq<Byte>>, qs: seq<seq<Byte>>, exts: seq<U16>)
    requires ShortNames(ps) && ShortNames(qs)
    ensures Fed(h, h.fields.(alpn := ps), exts) == Fed(h, h.fields.(alpn := qs), exts) <==>
            Map(UngreaseALPN, ps) == Map(UngreaseALPN, qs)
  {
    hide Preimage, WriteU16s, WriteAlpn, UngreaseALPN;
    PartTells(With(h, h.fields.(alpn := ps)), With(h, h.fields.(alpn := qs)), exts, exts, 7);
    AlpnTell(ps, qs);
  }

  lemma KeySharesTell(h: Hello, vs: seq<U16>, ws: seq<U16>, exts: seq<U16>)
    ensures Fed(h, h.fields.(keyShare := vs), exts) == Fed(h, h.fields.(keyShare := ws), exts) <==>
            Map(Ungrease, vs) == Map(Ungrease, ws)
  {
    hide Preimage, WriteU16s, Ungrease;
    PartTells(With(h, h.fields.(keyShare := vs)), With(h, h.fields.(keyShare := ws)), exts, exts, 8);
    U16sTell(vs, ws);
  }

  lemma ModesTell(h: Hello, vs: seq<Byte>, ws: seq<Byte>, exts: seq<U16>)
    ensures Fed(h, h.fields.(pskModes := vs), exts) == Fed(h, h.fields.(pskModes := ws), exts) <==>
            Map(UngreasePSK, vs) == Map(UngreasePSK, ws)
  {
    hide Preimage, WriteU16s, UngreasePSK;
    PartTells(With(h, h.fields.(pskModes := vs)), With(h, h.fields.(pskModes := ws)), exts, exts, 9);
  }

  lemma VersionsTell(h: Hello, vs: seq<U16>, ws: seq<U16>, exts: seq<U16>)
    ensures Fed(h, h.fields.(versions := vs), exts) == Fed(h, h.fields.(versions := ws), exts) <==>
            Map(Ungrease, vs) == Map(Ungrease, ws)
  {
    hide Preimage, WriteU16s, Ungrease;
    PartTells(With(h, h.fields.(versions := vs)), With(h, h.fields.(versions := ws)), exts, exts, 10);
    U16sTell(vs, ws);
  }

  lemma CertificatesTell(h: Hello, vs: seq<U16>, ws: seq<U16>, exts: seq<U16>)
    ensures Fed(h, h.fields.(certs := vs), exts) == Fed(h, h.fields.(certs := ws), exts) <==>
            vs == ws
  {
    hide Preimage, WriteU16s, WriteCerts;
    PartTells(With(h, h.fields.(certs := vs)), With(h, h.fields.(certs := ws)), exts, exts, 11);
    CertsTell(vs, ws);
  }

  /** A limit is told from another limit, and from none unless it is zero. */
  lemma SizeLimitTells(h: Hello, m: U16, n: U16, exts: seq<U16>)
    ensures var f := h.fields;
            Fed(h, f.(sizeLimit := BigEndian(m, 2)), exts) == Fed(h, f.(sizeLimit := BigEndian(n, 2)), exts) <==> m == n
    ensures var f := h.fields;
            Fed(h, f.(sizeLimit := BigEndian(m, 2)), exts) == Fed(h, f.(sizeLimit := []), exts) <==> m == 0
  {
    hide Preimage, WriteU16s;
    var a, b := BigEndian(m, 2), BigEndian(n, 2);
    PartTells(With(h, h.fields.(sizeLimit := a)), With(h, h.fields.(sizeLimit := b)), exts, exts, 12);
    PartTells(With(h, h.fields.(sizeLimit := a)), With(h, h.fields.(sizeLimit := [])), exts, exts, 12);
    assert a[..2] == a && b[..2] == b;
    PowersOf256();
    if a == b {
      BigEndianInjective(m, n, 2);
    }
    TwoBytes(m);
  }

  /** The normalised form tells just the multiset of the extension IDs, once replaced. */
  lemma NormalTells(h: Hello, es: seq<U16>, fs: seq<U16>)
    requires Map(Ungrease, es) == es && Map(Ungrease, fs) == fs
    ensures NormalPreimage(h.(extensions := es)) == NormalPreimage(h.(extensions := fs)) <==>
            multiset(es) == multiset(fs)
  {
    hide Preimage, Sort, Ungrease;
    var s, t := Sort(es, ByValue), Sort(fs, ByValue);
    SortSorts(es, ByValue);
    SortSorts(fs, ByValue);
    SameInput(h.(extensions := es), h.(extensions := fs), t);
    ExtensionsTell(h.(extensions := es), s, t);
    StaysReplaced(es, s);
    StaysReplaced(fs, t);
    if multiset(es) == multiset(fs) {
      SortPermutation(es, fs, ByValue);
    }
  }

  lemma SameInput(h: Hello, g: Hello, exts: seq<U16>)
    requires h.(extensions := []) == g.(extensions := [])
    ensures Preimage(h, exts) == Preimage(g, exts)
  {
  }

  lemma StaysReplaced(es: seq<U16>, s: seq<U16>)
    requires Map(Ungrease, es) == es && multiset(es) == multiset(s)
    ensures Map(Ungrease, s) == s
  {
    hide Ungrease;
    SameMembers(es, s);
    forall i | 0 <= i < |s|
      ensures Ungrease(s[i]) == s[i]
    {
      assert s[i] in es;
      var j :| 0 <= j < |es| && es[j] == s[i];
      assert Map(Ungrease, es)[j] == es[j];
    }
  }

  // ----- Which extension fills which field -----

  /** The field that an extension of type `n` fills is empty. */
  ghost predicate Unfilled(f: Fields, n: U16) {
    && (n == 10 ==> f.groups == [])
    && (n == 11 ==> f.points == [])
    && (n == 13 ==> f.signatures == [])
    && (n == 16 ==> f.alpn == [])
    && (n == 27 ==> f.certs == [])
    && (n == 28 ==> f.sizeLimit == [])
    && (n == 43 ==> f.versions == [])
    && (n == 45 ==> f.pskModes == [])
    && (n == 51 ==> f.keyShare == [])
    && (n == 57 ==> f.quic == None)
  }

  /** The field of an extension holds what the extension says. */
  ghost predicate FilledBy(f: Fields, t: Typed) {
    match t
    case SupportedCurves(cs) => f.groups == cs
    case SupportedPoints(ps) => f.points == ps
    case SignatureAlgorithms(ss) => f.signatures == ss
    case Alpn(ps) => f.alpn == ps
    case CompressCert(cs) => f.certs == cs
    case RecordSizeLimit(n) => f.sizeLimit == BigEndian(n, 2)
    case SupportedVersions(vs) => f.versions == vs
    case PskModes(ms) => f.pskModes == ms
    case KeyShares(ks) => f.keyShare == ks
    case QuicParameters(d) => f.quic == Some(TransportParameters.Scan(d, TransportParameters.NOTHING))
    case ApplicationSettings(_) => true
    case Unused => true
  }

  lemma FillFills(f: Fields, t: Typed)
    requires t.Unused? || Unfilled(f, TypeOf(t))
    ensures FilledBy(Fill(f, t), t)
  {
    hide BigEndian, TransportParameters.Scan;
  }

  lemma FillLeaves(f: Fields, t: Typed, u: Typed, n: U16)
    requires FilledBy(f, u) && Independent(u, t) && (t.Unused? || TypeOf(t) != n) && Unfilled(f, n)
    ensures FilledBy(Fill(f, t), u) && Unfilled(Fill(f, t), n)
  {
    hide BigEndian, TransportParameters.Scan;
  }

  /** With no type repeated, each field holds what its extension says, or nothing if there is none. */
  lemma {:induction false} FieldsAre(ts: seq<Typed>, n: U16)
    requires AllIndependent(ts)
    ensures forall i :: 0 <= i < |ts| ==> FilledBy(FillAll(NO_FIELDS, ts), ts[i])
    ensures !HasType(ts, n) ==> Unfilled(FillAll(NO_FIELDS, ts), n)
    decreases |ts|
  {
    hide Fill, FilledBy, Unfilled;
    if ts == [] {
      NothingFilled(n);
    } else {
      var m := |ts| - 1;
      var before, t := ts[..m], ts[m];
      var f := FillAll(NO_FIELDS, before);
      assert ts == before + [t];
      HasTypeSnoc(before, t, n);
      FieldsAre(before, n);
      if !t.Unused? {
        assert !HasType(before, TypeOf(t)) by {
          assert forall i :: 0 <= i < m ==> Independent(ts[i], t);
        }
        FieldsAre(before, TypeOf(t));
      }
      FillFills(f, t);
      forall i | 0 <= i < m
        ensures FilledBy(Fill(f, t), ts[i])
      {
        assert Independent(ts[i], t) && before[i] == ts[i];
        NoSuchType(f);
        FillLeaves(f, t, ts[i], if t.Unused? then 0 else if TypeOf(t) == 0 then 1 else 0);
      }
      if !HasType(ts, n) {
        UnusedFilled(f);
        FillLeaves(f, t, Unused, n);
      }
    }
  }

  lemma NothingFilled(n: U16)
    ensures Unfilled(NO_FIELDS, n)
  {
  }

  lemma NoSuchType(f: Fields)
    ensures Unfilled(f, 0) && Unfilled(f, 1)
  {
  }

  lemma UnusedFilled(f: Fields)
    ensures FilledBy(f, Unused)
  {
  }
}
