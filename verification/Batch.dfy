/** Sort-and-concatenate reassembly of CRYPTO frames, and its agreement with the streaming one. */
module Batch {
  import opened Bytes
  import opened Frames
  import opened Reassembly
  import opened Sorting

  datatype Outcome = Joined(b: seq<Byte>) | NotContiguous

  const ByOffset: Fragment -> int := (f: Fragment) => f.offset

  /** What the loop makes of the sorted fragments from index `i` on. */
  function Join(t: seq<Fragment>, i: nat, acc: seq<Byte>): Outcome
    requires i <= |t|
    decreases |t| - i
  {
    if i == |t| then Joined(acc)
    else if t[0].offset + |acc| == t[i].offset then Join(t, i + 1, acc + t[i].data)
    else NotContiguous
  }

  /** A way of sorting by offset; equal offsets may come in either order. */
  ghost predicate SortedForm(t: seq<Fragment>, fs: seq<Fragment>) {
    multiset(t) == multiset(fs) && SortedBy(t, ByOffset)
  }

  method CollectCRYPTO(frames: seq<Frame>) returns (fs: seq<Fragment>)
    ensures fs == CryptoOf(frames)
  {
    fs := [];
    var k := 0;
    while k < |frames|
      invariant 0 <= k <= |frames|
      invariant fs + CryptoOf(frames[k..]) == CryptoOf(frames)
    {
      assert frames[k..][1..] == frames[k + 1..];
      if frames[k].Crypto? {
        fs := fs + [frames[k].fragment];
      }
      k := k + 1;
    }
  }

  method JoinSorted(t: seq<Fragment>) returns (r: Outcome)
    ensures r == Join(t, 0, [])
  {
    var reassembled := [];
    var i := 0;
    while i < |t|
      invariant 0 <= i <= |t|
      invariant Join(t, 0, []) == Join(t, i, reassembled)
    {
      if t[0].offset + |reassembled| != t[i].offset {
        return NotContiguous;
      }
      reassembled := reassembled + t[i].data;
      i := i + 1;
    }
    return Joined(reassembled);
  }

  method ReassembleCRYPTOFrames(frames: seq<Frame>) returns (r: Outcome)
    ensures exists t :: SortedForm(t, CryptoOf(frames)) && r == Join(t, 0, [])
  {
    var fs := CollectCRYPTO(frames);
    var t := Sort(fs, ByOffset);
    SortSorts(fs, ByOffset);
    assert SortedForm(t, fs);
    if |t| == 0 {
      return Joined([]);
    }
    r := JoinSorted(t);
  }

  // ----- Success means that the fragments are a cut of the result -----

  /** The first `i` fragments are a cut of `acc`. */
  lemma TilesExtend(t: seq<Fragment>, i: nat, acc: seq<Byte>)
    requires i < |t| && Tiles(t[..i], acc) && t[i].offset == |acc| && t[i].data != []
    ensures Tiles(t[..i + 1], acc + t[i].data)
  {
    var u, f, m := t[..i + 1], t[i], acc + t[i].data;
    assert u == t[..i] + [f];
    forall g | g in u
      ensures PieceOf(g, m)
    {
      if g in t[..i] {
        assert PieceOf(g, acc);
        SliceOfPrefix(acc, f.data, g.offset, g.End());
      }
    }
    forall j, k | 0 <= j < k < |u|
      ensures Disjoint(u[j], u[k])
    {
      if k == i {
        assert u[j] in t[..i] && PieceOf(u[j], acc);
      } else {
        assert u[j] == t[..i][j] && u[k] == t[..i][k];
      }
    }
    forall p: nat | p < |m|
      ensures Covered(u, p)
    {
      if p < |acc| {
        assert Covered(t[..i], p);
        var g :| g in t[..i] && g.Covers(p);
        assert g in u;
      } else {
        assert f in u && f.Covers(p);
      }
    }
  }

  lemma {:induction false} JoinTiles(t: seq<Fragment>, i: nat, acc: seq<Byte>)
    requires i <= |t| && NonEmpty(t) && t != [] && t[0].offset == 0
    requires Tiles(t[..i], acc) && Join(t, i, acc).Joined?
    ensures Tiles(t, Join(t, i, acc).b)
    decreases |t| - i
  {
    if i == |t| {
      assert t[..i] == t;
    } else {
      assert t[i] in t;
      TilesExtend(t, i, acc);
      JoinTiles(t, i + 1, acc + t[i].data);
    }
  }

  /** Some fragment from index `i` on covers the first position after the earlier ones. */
  lemma NextStartsByEnd(t: seq<Fragment>, m: seq<Byte>, i: nat, acc: seq<Byte>)
    requires Tiles(t, m) && SortedBy(t, ByOffset) && i < |t| && Tiles(t[..i], acc) && |acc| < |m|
    ensures t[i].offset <= |acc|
  {
    assert Covered(t, |acc|);
    var g :| g in t && g.Covers(|acc|);
    var j :| 0 <= j < |t| && t[j] == g;
    forall k | 0 <= k < i
      ensures t[k] != g
    {
      assert t[k] in t[..i] && PieceOf(t[k], acc);
    }
    assert i < j ==> ByOffset(t[i]) <= ByOffset(t[j]);
  }

  /** The next sorted fragment starts where the earlier ones end. */
  lemma NextStartsAtEnd(t: seq<Fragment>, m: seq<Byte>, i: nat, acc: seq<Byte>)
    requires Tiles(t, m) && SortedBy(t, ByOffset) && i < |t| && Tiles(t[..i], acc) && acc <= m
    ensures t[i].offset == |acc|
    ensures acc + t[i].data <= m
  {
    var f := t[i];
    PiecesPrefix(t, m, i);
    assert f in t && PieceOf(f, m);
    assert f.offset < |acc| ==> Covered(t[..i], f.offset);
    assert f.offset >= |acc|;
    NextStartsByEnd(t, m, i, acc);
    assert m[..f.End()] == acc + m[f.offset..f.End()];
  }

  lemma {:induction false} TilesJoin(t: seq<Fragment>, m: seq<Byte>, i: nat, acc: seq<Byte>)
    requires Tiles(t, m) && SortedBy(t, ByOffset) && t != [] && t[0].offset == 0
    requires i <= |t| && Tiles(t[..i], acc) && acc <= m
    ensures Join(t, i, acc) == Joined(m)
    decreases |t| - i
  {
    if i == |t| {
      assert t[..i] == t;
      SameLength(t, m, acc);
    } else {
      assert t[i] in t;
      NextStartsAtEnd(t, m, i, acc);
      TilesExtend(t, i, acc);
      TilesJoin(t, m, i + 1, acc + t[i].data);
    }
  }

  lemma SameLength(t: seq<Fragment>, m: seq<Byte>, acc: seq<Byte>)
    requires Tiles(t, m) && Tiles(t, acc) && acc <= m
    ensures acc == m
  {
    assert forall f :: f in t ==> PieceOf(f, acc);
    assert !Covered(t, |acc|);
  }

  lemma JoinIff(t: seq<Fragment>, b: seq<Byte>)
    requires NonEmpty(t) && SortedBy(t, ByOffset) && t != [] && t[0].offset == 0
    ensures Join(t, 0, []) == Joined(b) <==> Tiles(t, b)
  {
    assert Tiles(t[..0], []);
    if Join(t, 0, []) == Joined(b) {
      JoinTiles(t, 0, []);
    }
    if Tiles(t, b) {
      TilesJoin(t, b, 0, []);
    }
  }

  /** The fragments with their offsets counted from the first one. */
  function FromFirst(t: seq<Fragment>): (u: seq<Fragment>)
    requires forall i :: 0 <= i < |t| ==> t[0].offset <= t[i].offset
    ensures |u| == |t| && forall i :: 0 <= i < |t| ==> u[i] == Fragment(t[i].offset - t[0].offset, t[i].data)
  {
    seq(|t|, i requires 0 <= i < |t| => Fragment(t[i].offset - t[0].offset, t[i].data))
  }

  lemma {:induction false} JoinFromFirst(t: seq<Fragment>, i: nat, acc: seq<Byte>)
    requires i <= |t| && forall i :: 0 <= i < |t| ==> t[0].offset <= t[i].offset
    ensures Join(FromFirst(t), i, acc) == Join(t, i, acc)
    decreases |t| - i
  {
    if i < |t| {
      JoinFromFirst(t, i + 1, acc + t[i].data);
    }
  }

  /**
    Wherever the first fragment starts: the result is `b` just when the
    fragments, with offsets counted from it, are a cut of `b`; with no fragment
    at all it is empty and not an error.
   */
  lemma JoinAnywhereIff(t: seq<Fragment>, b: seq<Byte>)
    requires NonEmpty(t) && SortedBy(t, ByOffset)
    ensures t == [] ==> Join(t, 0, []) == Joined([])
    ensures t != [] ==>
              && (forall i :: 0 <= i < |t| ==> t[0].offset <= t[i].offset)
              && (Join(t, 0, []) == Joined(b) <==> Tiles(FromFirst(t), b))
  {
    if t != [] {
      forall i | 0 <= i < |t|
        ensures t[0].offset <= t[i].offset
      {
        assert i > 0 ==> ByOffset(t[0]) <= ByOffset(t[i]);
      }
      var u := FromFirst(t);
      assert forall f :: f in u ==> f.data != [] by {
        forall f | f in u
          ensures f.data != []
        {
          var i :| 0 <= i < |u| && u[i] == f;
          assert t[i] in t;
        }
      }
      forall i, j | 0 <= i < j < |u|
        ensures ByOffset(u[i]) <= ByOffset(u[j])
      {
        assert ByOffset(t[i]) <= ByOffset(t[j]);
      }
      JoinFromFirst(t, 0, []);
      JoinIff(u, b);
    }
  }

  // ----- A cut stays one in any order -----

  lemma DisjointPermutes(fs: seq<Fragment>, t: seq<Fragment>)
    requires multiset(fs) == multiset(t) && NonEmpty(fs) && PairwiseDisjoint(fs)
    ensures PairwiseDisjoint(t)
  {
    SameMembers(fs, t);
    forall i, j | 0 <= i < j < |t|
      ensures Disjoint(t[i], t[j])
    {
      assert t[i] in fs && t[j] in fs;
      if t[i] == t[j] {
        OccursTwice(t, i, j);
        Repeated(fs, t[i]);
      } else {
        DistinctDisjoint(fs, t[i], t[j]);
      }
    }
  }

  lemma TilesPermute(fs: seq<Fragment>, t: seq<Fragment>, m: seq<Byte>)
    requires multiset(fs) == multiset(t) && Tiles(fs, m)
    ensures Tiles(t, m)
  {
    SameMembers(fs, t);
    DisjointPermutes(fs, t);
    forall i: nat | i < |m|
      ensures Covered(t, i)
    {
      assert Covered(fs, i);
      var f :| f in fs && f.Covers(i);
      assert f in t;
    }
  }

  // ----- The agreement -----

  /** Adding the fragments one by one rejects none, leaves nothing pending and assembles `b`. */
  ghost predicate Streams(fs: seq<Fragment>, b: seq<Byte>) {
    Saved(fs) == fs && Run(fs).frags == map[] && Run(fs).buf == b
  }

  lemma StreamedTiles(fs: seq<Fragment>, b: seq<Byte>)
    requires NonEmpty(fs) && Streams(fs, b)
    ensures Tiles(fs, b) && |b| <= 65536
  {
    RunInv(fs);
    var s := Run(fs);
    forall f | f in fs
      ensures PieceOf(f, b)
    {
      assert Placed(s.buf, s.frags, f);
    }
    BufferFits(s, fs);
  }

  lemma {:induction false} SavedAtMost(fs: seq<Fragment>, k: nat)
    requires k < |fs| && Check(Run(fs[..k]), fs[k]) != Ok
    ensures |Saved(fs)| < |fs|
  {
    hide Check, Run;
    var n := |fs| - 1;
    SavedLength(fs[..n]);
    if k < n {
      assert fs[..n][..k] == fs[..k];
      SavedAtMost(fs[..n], k);
    }
  }

  lemma {:induction false} SavedLength(fs: seq<Fragment>)
    ensures |Saved(fs)| <= |fs|
  {
    hide Check, Run;
    if fs == [] {
    } else {
      SavedLength(fs[..|fs| - 1]);
    }
  }

  /** Streaming succeeds just on the cuts of `b` in an order that keeps no more than 32 pieces waiting. */
  lemma StreamsIff(fs: seq<Fragment>, b: seq<Byte>)
    requires NonEmpty(fs)
    requires forall f :: f in fs ==> f.End() <= 65536
    ensures Streams(fs, b) <==> Tiles(fs, b) && Flows(fs, |fs|)
  {
    hide Run, Flows, Saved, Add;
    if Streams(fs, b) {
      StreamedTiles(fs, b);
      if !Flows(fs, |fs|) {
        var k := FirstRefused(fs, b, |fs|);
        TooManyNotSaved(Run(fs[..k]), fs[k]);
        SavedAtMost(fs, k);
      }
    }
    if Tiles(fs, b) && Flows(fs, |fs|) {
      if |b| > 0 {
        assert Covered(fs, |b| - 1);
      }
      assert fs[..|fs|] == fs;
      PiecesSaved(fs, b, |fs|);
      AllPieces(Run(fs), fs, b);
    }
  }

  /**
    For non-empty frames that end at or below 65536, the lowest at offset 0, and
    any order of arrival `fs`: the streaming form yields `b` just when the batch
    form does, however it sorts, and no arrival finds more than 32 earlier
    pieces waiting.
   */
  lemma BatchAgreesWithStreaming(fs: seq<Fragment>, t: seq<Fragment>, b: seq<Byte>)
    requires NonEmpty(fs)
    requires forall f :: f in fs ==> f.End() <= 65536
    requires exists f :: f in fs && f.offset == 0
    requires SortedForm(t, fs)
    ensures Streams(fs, b) <==> Join(t, 0, []) == Joined(b) && Flows(fs, |fs|)
    ensures |fs| <= 33 ==> (Streams(fs, b) <==> Join(t, 0, []) == Joined(b))
  {
    if |fs| <= 33 {
      FewFlow(fs);
    }
    SameMembers(fs, t);
    var f :| f in fs && f.offset == 0;
    var i :| 0 <= i < |t| && t[i] == f;
    assert i > 0 ==> ByOffset(t[0]) <= ByOffset(t[i]);
    JoinIff(t, b);
    StreamsIff(fs, b);
    if Tiles(fs, b) {
      TilesPermute(fs, t, b);
    }
    if Tiles(t, b) {
      TilesPermute(t, fs, b);
    }
  }
}
