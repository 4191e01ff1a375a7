/** The input of the QUIC header fingerprint hash. */
module HeaderPreimage {
  import opened Bytes
  import opened Frames
  import opened Sorting

  datatype Header = Header(
    version: seq<Byte>, dcidLength: nat, scidLength: nat, pnLength: nat, pn: nat, hasToken: bool)

  datatype Packet = Packet(header: Header, frames: seq<Frame>)

  function FrameTypes(frames: seq<Frame>): (t: seq<Byte>) {
    if frames == [] then [] else [frames[0].FrameType() % 0x100] + FrameTypes(frames[1..])
  }

  /** Drops each element equal to the last one kept. */
  function Dedup(s: seq<Byte>): (d: seq<Byte>)
    ensures |d| <= |s| && (s != [] ==> d != [])
  {
    if |s| <= 1 then s else
      var d := Dedup(s[..|s| - 1]);
      if s[|s| - 1] == d[|d| - 1] then d else d + [s[|s| - 1]]
  }

  /** Runs in place: the kept elements are written over the front of the slice being read. */
  method DedupInPlace(a: array<Byte>) returns (n: nat)
    modifies a
    ensures n <= a.Length && a[..n] == Dedup(old(a[..]))
  {
    if a.Length == 0 {
      return 0;
    }
    n := 1;
    var i := 1;
    ghost var s := a[..];
    while i < a.Length
      invariant 1 <= n <= i <= a.Length
      invariant a[..n] == Dedup(s[..i])
      invariant a[i..] == s[i..]
    {
      assert s[..i + 1][..i] == s[..i] && a[i] == a[i..][0] == s[i];
      assert a[i..][1..] == a[i + 1..];
      if a[i] != a[n - 1] {
        a[n] := a[i];
        n := n + 1;
      }
      i := i + 1;
    }
    assert s[..a.Length] == s;
  }

  function Preimage(p: Packet): seq<Byte> {
    var h := p.header;
    h.version + BigEndian(h.dcidLength, 4) + BigEndian(h.scidLength, 4) + BigEndian(h.pnLength, 4)
    + Dedup(Sort(FrameTypes(p.frames), ByValue))
    + [if h.hasToken then 1 else 0]
  }

  /** Writes the hash input step by step. */
  method WritePreimage(p: Packet) returns (h: seq<Byte>)
    ensures h == Preimage(p)
  {
    h := p.header.version;
    h := h + BigEndian(p.header.dcidLength, 4);
    h := h + BigEndian(p.header.scidLength, 4);
    h := h + BigEndian(p.header.pnLength, 4);
    var types := Sort(FrameTypes(p.frames), ByValue);
    var a := new Byte[|types|](i requires 0 <= i < |types| => types[i]);
    assert a[..] == types;
    var n := DedupInPlace(a);
    h := h + a[..n];
    h := h + [if p.header.hasToken then 1 else 0];
  }

  // ----- Sorting and dropping repeats leaves the set -----

  ghost predicate Increasing(s: seq<int>) {
    forall i, j :: 0 <= i < j < |s| ==> s[i] < s[j]
  }

  lemma {:induction false} DedupIsSet(s: seq<Byte>)
    requires SortedBy(s, ByValue)
    ensures Increasing(Dedup(s))
    ensures forall x :: x in Dedup(s) <==> x in s
    ensures s != [] ==> Dedup(s)[|Dedup(s)| - 1] == s[|s| - 1]
  {
    if |s| > 1 {
      var n := |s| - 1;
      var before, d := s[..n], Dedup(s[..n]);
      DedupIsSet(before);
      assert ByValue(s[n - 1]) <= ByValue(s[n]);
      assert before[n - 1] == s[n - 1];
      assert forall x :: x in s <==> x in before || x == s[n];
      assert forall i :: 0 <= i < |d| ==> d[i] <= d[|d| - 1];
    }
  }

  lemma IncreasingTail(s: seq<int>, x: int)
    requires Increasing(s) && s != []
    ensures x in s[1..] <==> x in s && x != s[0]
  {
  }

  lemma IncreasingFirst(s: seq<int>, t: seq<int>)
    requires Increasing(s) && Increasing(t) && s != [] && forall x :: x in s <==> x in t
    ensures t != [] && s[0] == t[0]
  {
    assert s[0] in s && s[0] in t;
    assert t[0] in t && t[0] in s;
  }

  lemma {:induction false} IncreasingUnique(s: seq<int>, t: seq<int>)
    requires Increasing(s) && Increasing(t) && forall x :: x in s <==> x in t
    ensures s == t
  {
    if s == [] {
      if t != [] {
        IncreasingFirst(t, s);
      }
    } else {
      IncreasingFirst(s, t);
      forall x
        ensures x in s[1..] <==> x in t[1..]
      {
        IncreasingTail(s, x);
        IncreasingTail(t, x);
      }
      IncreasingUnique(s[1..], t[1..]);
      assert s == [s[0]] + s[1..] && t == [t[0]] + t[1..];
    }
  }

  lemma TypesUnique(f: seq<Frame>, g: seq<Frame>)
    ensures Dedup(Sort(FrameTypes(f), ByValue)) == Dedup(Sort(FrameTypes(g), ByValue)) <==>
            forall x :: x in FrameTypes(f) <==> x in FrameTypes(g)
  {
    var s, t := FrameTypes(f), FrameTypes(g);
    SortSorts(s, ByValue);
    SortSorts(t, ByValue);
    SameMembers(s, Sort(s, ByValue));
    SameMembers(t, Sort(t, ByValue));
    DedupIsSet(Sort(s, ByValue));
    DedupIsSet(Sort(t, ByValue));
    if forall x :: x in s <==> x in t {
      IncreasingUnique(Dedup(Sort(s, ByValue)), Dedup(Sort(t, ByValue)));
    }
  }

  // ----- Unique decodability -----

  ghost predicate WellFormed(h: Header) {
    |h.version| == 4 && h.dcidLength < 0x1_0000_0000 && h.scidLength < 0x1_0000_0000 && h.pnLength < 0x1_0000_0000
  }

  lemma Layout(p: Packet)
    requires WellFormed(p.header)
    ensures var s, types := Preimage(p), Dedup(Sort(FrameTypes(p.frames), ByValue));
            && |s| == 17 + |types|
            && s[..4] == p.header.version
            && s[4..8] == BigEndian(p.header.dcidLength, 4)
            && s[8..12] == BigEndian(p.header.scidLength, 4)
            && s[12..16] == BigEndian(p.header.pnLength, 4)
            && s[16..16 + |types|] == types
            && s[16 + |types|] == if p.header.hasToken then 1 else 0
  {
    hide BigEndian, Dedup, Sort, FrameTypes;
    var h, types := p.header, Dedup(Sort(FrameTypes(p.frames), ByValue));
    var d, c, n := BigEndian(h.dcidLength, 4), BigEndian(h.scidLength, 4), BigEndian(h.pnLength, 4);
    var last := [if h.hasToken then 1 else 0];
    var s := Preimage(p);
    assert s == h.version + d + (c + n + types + last);
    SliceOfMiddle(h.version, d, c + n + types + last);
    assert s == (h.version + d) + c + (n + types + last);
    SliceOfMiddle(h.version + d, c, n + types + last);
    assert s == (h.version + d + c) + n + (types + last);
    SliceOfMiddle(h.version + d + c, n, types + last);
    SliceOfMiddle(h.version + d + c + n, types, last);
  }

  /** The hash input tells apart just what the fingerprint is meant to tell apart. */
  lemma PreimageInjective(p: Packet, q: Packet)
    requires WellFormed(p.header) && WellFormed(q.header)
    ensures Preimage(p) == Preimage(q) <==>
              && p.header.version == q.header.version
              && p.header.dcidLength == q.header.dcidLength
              && p.header.scidLength == q.header.scidLength
              && p.header.pnLength == q.header.pnLength
              && p.header.hasToken == q.header.hasToken
              && forall x :: x in FrameTypes(p.frames) <==> x in FrameTypes(q.frames)
  {
    TypesUnique(p.frames, q.frames);
    if Preimage(p) == Preimage(q) {
      Layout(p);
      Layout(q);
      PowersOf256();
      BigEndianInjective(p.header.dcidLength, q.header.dcidLength, 4);
      BigEndianInjective(p.header.scidLength, q.header.scidLength, 4);
      BigEndianInjective(p.header.pnLength, q.header.pnLength, 4);
    }
  }
}
