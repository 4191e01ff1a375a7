/**
  Out-of-order reassembly of the CRYPTO stream (section 19.6 of RFC 9000):
  the assembled buffer, the map of pending fragments and the length that the
  handshake header declares (section 4 of RFC 8446).
 */
module Reassembly {
  import opened Bytes
  import opened Frames
  import opened Sorting

  const MAX_CRYPTO_FRAGMENTS: nat := 32
  const MAX_CRYPTO_LENGTH: nat := 0x10000

  datatype AddResult = Ok | Eof | Duplicate | Overlap | TooMany | OffsetTooHigh

  datatype State = State(buf: seq<Byte>, frags: map<nat, seq<Byte>>, fullLen: nat)

  const EMPTY := State([], map[], 0)

  // ----- One call, as a function -----

  /** A new fragment and a pending one that starts elsewhere share a byte, or one starts strictly inside the other. */
  predicate Clashes(off: nat, pending: seq<Byte>, f: Fragment) {
    || (off < f.offset && off + |pending| > f.offset)
    || (f.offset < off && f.End() > off)
  }

  /** The checks before a fragment is saved; `Ok` means that it is saved. */
  function Check(s: State, f: Fragment): AddResult {
    if f.offset in s.frags then Duplicate
    else if exists off | off in s.frags :: Clashes(off, s.frags[off], f) then Overlap
    else if f.offset < |s.buf| then Overlap
    else if |s.frags| > MAX_CRYPTO_FRAGMENTS then TooMany
    else if f.End() > MAX_CRYPTO_LENGTH then OffsetTooHigh
    else Ok
  }

  /** Moves pending fragments to the buffer while one starts where the buffer ends. */
  function Drain(buf: seq<Byte>, frags: map<nat, seq<Byte>>): (seq<Byte>, map<nat, seq<Byte>>)
    decreases |frags|
  {
    if |buf| in frags then
      RemoveShrinks(frags, |buf|);
      Drain(buf + frags[|buf|], frags - {|buf|})
    else (buf, frags)
  }

  lemma RemoveShrinks<V>(m: map<nat, V>, k: nat)
    requires k in m
    ensures |m - {k}| == |m| - 1
  {
  }

  /** Handshake type (1 byte), uint24 length, body: the length of the whole message. */
  function DeclaredLength(buf: seq<Byte>): nat
    requires |buf| > 4
  {
    FromBigEndian(buf[1..4]) + 4
  }

  /** What a call does once its fragment has passed every check. */
  function Save(s: State, f: Fragment): (State, AddResult) {
    var (buf, frags) := Drain(s.buf, s.frags[f.offset := f.data]);
    if s.fullLen == 0 && |buf| > 4 then
      var fullLen := DeclaredLength(buf);
      (State(buf, frags, fullLen),
       if fullLen > MAX_CRYPTO_LENGTH then OffsetTooHigh else if |buf| >= fullLen then Eof else Ok)
    else
      (State(buf, frags, s.fullLen), if s.fullLen > 0 && |buf| >= s.fullLen then Eof else Ok)
  }

  function Add(s: State, f: Fragment): (State, AddResult) {
    var c := Check(s, f);
    if c == Ok then Save(s, f) else (s, c)
  }

  /** The empty sequence stands for `nil`: a complete message is longer than four bytes. */
  function Reconstructed(s: State): seq<Byte> {
    if s.fullLen == 0 || |s.buf| < s.fullLen then [] else s.buf
  }

  datatype FeedResult = Complete | NeedMore | Failed(error: AddResult)

  /** Adds the CRYPTO frames in order until one completes the message or fails. */
  function Feed(s: State, frames: seq<Frame>): (State, FeedResult)
    decreases |frames|
  {
    if frames == [] then (s, NeedMore)
    else if frames[0].Crypto? then
      var (s', r) := Add(s, frames[0].fragment);
      if r == Ok then Feed(s', frames[1..])
      else if r == Eof then (s', Complete)
      else (s', Failed(r))
    else Feed(s, frames[1..])
  }

  // ----- The object -----

  class Reconstructor {
    var buf: seq<Byte>
    var frags: map<nat, seq<Byte>>
    var fullLen: nat

    ghost function Abs(): State
      reads this
    {
      State(buf, frags, fullLen)
    }

    constructor ()
      ensures Abs() == EMPTY
    {
      buf, frags, fullLen := [], map[], 0;
    }

    method ClashesWithPending(offset: nat, frag: seq<Byte>) returns (clash: bool)
      ensures clash <==> exists off | off in frags :: Clashes(off, frags[off], Fragment(offset, frag))
    {
      var unseen := frags.Keys;
      while unseen != {}
        invariant unseen <= frags.Keys
        invariant forall off :: off in frags && off !in unseen ==> !Clashes(off, frags[off], Fragment(offset, frag))
        decreases unseen
      {
        var off :| off in unseen;
        if (off < offset && off + |frags[off]| > offset) || (offset < off && offset + |frag| > off) {
          return true;
        }
        unseen := unseen - {off};
      }
      return false;
    }

    method AddCRYPTOFragment(offset: nat, frag: seq<Byte>) returns (r: AddResult)
      modifies this
      ensures (Abs(), r) == Add(old(Abs()), Fragment(offset, frag))
    {
      if offset in frags {
        return Duplicate;
      }
      var clash := ClashesWithPending(offset, frag);
      if clash {
        return Overlap;
      }
      if offset < |buf| {
        return Overlap;
      }
      if |frags| > MAX_CRYPTO_FRAGMENTS {
        return TooMany;
      }
      if offset + |frag| > MAX_CRYPTO_LENGTH {
        return OffsetTooHigh;
      }
      frags := frags[offset := frag];
      while |buf| in frags
        invariant Drain(buf, frags) == Drain(old(buf), old(frags)[offset := frag])
        invariant fullLen == old(fullLen)
        decreases |frags|
      {
        RemoveShrinks(frags, |buf|);
        var piece := frags[|buf|];
        frags := frags - {|buf|};
        buf := buf + piece;
      }
      if fullLen == 0 {
        if |buf| > 4 {
          fullLen := FromBigEndian(buf[1..4]) + 4;
          if fullLen > MAX_CRYPTO_LENGTH {
            return OffsetTooHigh;
          }
        }
      }
      if fullLen > 0 && |buf| >= fullLen {
        return Eof;
      }
      return Ok;
    }

    method FromFrames(frames: seq<Frame>) returns (r: FeedResult)
      modifies this
      ensures (Abs(), r) == Feed(old(Abs()), frames)
    {
      var i := 0;
      while i < |frames|
        invariant 0 <= i <= |frames|
        invariant Feed(Abs(), frames[i..]) == Feed(old(Abs()), frames)
      {
        assert frames[i..][1..] == frames[i + 1..];
        if frames[i].Crypto? {
          var c := AddCRYPTOFragment(frames[i].fragment.offset, frames[i].fragment.data);
          if c == Eof {
            return Complete;
          } else if c != Ok {
            return Failed(c);
          }
        }
        i := i + 1;
      }
      return NeedMore;
    }

    method ReconstructAsBytes() returns (r: seq<Byte>)
      ensures r == Reconstructed(Abs())
    {
      if fullLen == 0 {
        return [];
      } else if |buf| < fullLen {
        return [];
      } else {
        return buf;
      }
    }
  }

  // ----- The invariant of every run -----

  predicate Disjoint(f: Fragment, g: Fragment) {
    f.End() <= g.offset || g.End() <= f.offset
  }

  ghost predicate PairwiseDisjoint(a: seq<Fragment>) {
    forall i, j :: 0 <= i < j < |a| ==> Disjoint(a[i], a[j])
  }

  ghost predicate Covered(a: seq<Fragment>, i: nat) {
    exists f :: f in a && f.Covers(i)
  }

  /** A fragment lies whole in the buffer or is pending. */
  ghost predicate Placed(buf: seq<Byte>, frags: map<nat, seq<Byte>>, f: Fragment) {
    || (f.End() <= |buf| && buf[f.offset..f.End()] == f.data)
    || (f.offset in frags && frags[f.offset] == f.data)
  }

  /** What saving and draining keep; `a` is the fragments saved so far. */
  ghost predicate Consistent(buf: seq<Byte>, frags: map<nat, seq<Byte>>, a: seq<Fragment>) {
    && PairwiseDisjoint(a)
    && (forall f :: f in a ==> Placed(buf, frags, f) && f.End() <= MAX_CRYPTO_LENGTH)
    && (forall i: nat :: i < |buf| ==> Covered(a, i))
    && (forall off :: off in frags ==> off >= |buf| && Fragment(off, frags[off]) in a)
  }

  /** What holds between calls. */
  ghost predicate Inv(s: State, a: seq<Fragment>) {
    && Consistent(s.buf, s.frags, a)
    && |s.buf| !in s.frags
    && |s.frags| <= MAX_CRYPTO_FRAGMENTS + 1
    && s.fullLen == if |s.buf| > 4 then DeclaredLength(s.buf) else 0
  }

  lemma DistinctDisjoint(a: seq<Fragment>, f: Fragment, g: Fragment)
    requires PairwiseDisjoint(a) && f in a && g in a && f != g
    ensures Disjoint(f, g)
  {
  }

  lemma SaveConsistent(s: State, a: seq<Fragment>, f: Fragment)
    requires Inv(s, a) && Check(s, f) == Ok
    ensures Consistent(s.buf, s.frags[f.offset := f.data], a + [f])
  {
    var a', frags := a + [f], s.frags[f.offset := f.data];
    forall g | g in a
      ensures Disjoint(g, f) && Placed(s.buf, frags, g)
    {
      assert Placed(s.buf, s.frags, g);
      if g.offset in s.frags {
        assert !Clashes(g.offset, s.frags[g.offset], f);
      }
    }
    forall i: nat | i < |s.buf|
      ensures Covered(a', i)
    {
      assert Covered(a, i);
      var g :| g in a && g.Covers(i);
      assert g in a';
    }
  }

  lemma DrainStep(buf: seq<Byte>, frags: map<nat, seq<Byte>>, a: seq<Fragment>)
    requires Consistent(buf, frags, a) && |buf| in frags
    ensures Consistent(buf + frags[|buf|], frags - {|buf|}, a)
  {
    hide PairwiseDisjoint, Covered;
    var f := Fragment(|buf|, frags[|buf|]);
    var buf', frags' := buf + f.data, frags - {|buf|};
    forall g | g in a
      ensures Placed(buf', frags', g)
    {
      assert Placed(buf, frags, g);
      if g.End() <= |buf| {
        assert buf'[g.offset..g.End()] == buf[g.offset..g.End()];
      } else if g.offset == |buf| {
        assert buf'[g.offset..g.End()] == g.data;
      }
    }
    forall i: nat | i < |buf'|
      ensures Covered(a, i)
    {
      if i >= |buf| {
        CoversHere(a, f, i);
      }
    }
    forall off | off in frags'
      ensures off >= |buf'|
    {
      DistinctDisjoint(a, f, Fragment(off, frags[off]));
    }
  }

  lemma CoversHere(a: seq<Fragment>, f: Fragment, i: nat)
    requires f in a && f.Covers(i)
    ensures Covered(a, i)
  {
  }

  lemma {:induction false} DrainConsistent(buf: seq<Byte>, frags: map<nat, seq<Byte>>, a: seq<Fragment>)
    requires Consistent(buf, frags, a)
    ensures var (buf', frags') := Drain(buf, frags);
            Consistent(buf', frags', a) && |buf'| !in frags' && |frags'| <= |frags|
    decreases |frags|
  {
    if |buf| in frags {
      DrainStep(buf, frags, a);
      RemoveShrinks(frags, |buf|);
      DrainConsistent(buf + frags[|buf|], frags - {|buf|}, a);
    }
  }

  lemma {:induction false} DrainGrows(buf: seq<Byte>, frags: map<nat, seq<Byte>>)
    ensures buf <= Drain(buf, frags).0
    decreases |frags|
  {
    if |buf| in frags {
      RemoveShrinks(frags, |buf|);
      DrainGrows(buf + frags[|buf|], frags - {|buf|});
    }
  }

  /** The buffer is append-only. */
  lemma AddGrows(s: State, f: Fragment)
    ensures s.buf <= Add(s, f).0.buf
  {
    DrainGrows(s.buf, s.frags[f.offset := f.data]);
  }

  lemma SaveKeepsInv(s: State, a: seq<Fragment>, f: Fragment)
    requires Inv(s, a) && Check(s, f) == Ok
    ensures Inv(Save(s, f).0, a + [f])
  {
    hide Consistent, Drain;
    var frags := s.frags[f.offset := f.data];
    SaveConsistent(s, a, f);
    DrainConsistent(s.buf, frags, a + [f]);
    DrainGrows(s.buf, frags);
    assert frags.Keys == s.frags.Keys + {f.offset};
    assert |frags| <= |s.frags| + 1;
    if |s.buf| > 4 {
      assert s.buf[1..4] == Drain(s.buf, frags).0[1..4];
    }
  }

  lemma AddKeepsInv(s: State, a: seq<Fragment>, f: Fragment)
    requires Inv(s, a)
    ensures Inv(Add(s, f).0, if Check(s, f) == Ok then a + [f] else a)
  {
    if Check(s, f) == Ok {
      SaveKeepsInv(s, a, f);
    }
  }

  // ----- Runs -----

  /** The state after the calls `fs`, accepted or not. */
  ghost function Run(fs: seq<Fragment>): State {
    if fs == [] then EMPTY else Add(Run(fs[..|fs| - 1]), fs[|fs| - 1]).0
  }

  /** The fragments among `fs` that passed every check. */
  ghost function Saved(fs: seq<Fragment>): seq<Fragment> {
    if fs == [] then [] else
      var before, f := fs[..|fs| - 1], fs[|fs| - 1];
      if Check(Run(before), f) == Ok then Saved(before) + [f] else Saved(before)
  }

  lemma RunSnoc(fs: seq<Fragment>, f: Fragment)
    ensures Run(fs + [f]) == Add(Run(fs), f).0
    ensures Saved(fs + [f]) == if Check(Run(fs), f) == Ok then Saved(fs) + [f] else Saved(fs)
  {
  }

  lemma RunNext(fs: seq<Fragment>, k: nat)
    requires k < |fs|
    ensures Run(fs[..k + 1]) == Add(Run(fs[..k]), fs[k]).0
  {
    assert fs[..k + 1] == fs[..k] + [fs[k]];
    RunSnoc(fs[..k], fs[k]);
  }

  lemma {:induction false} RunInv(fs: seq<Fragment>)
    ensures Inv(Run(fs), Saved(fs))
  {
    if fs == [] {
    } else {
      RunInv(fs[..|fs| - 1]);
      AddKeepsInv(Run(fs[..|fs| - 1]), Saved(fs[..|fs| - 1]), fs[|fs| - 1]);
    }
  }

  /** Some fragment of `a` holds byte `b` for position `i`. */
  ghost predicate Supplies(a: seq<Fragment>, i: nat, b: Byte) {
    exists f :: f in a && f.Covers(i) && f.data[i - f.offset] == b
  }

  /** `b` is the longest gap-free prefix, from position 0, of what the fragments `a` hold. */
  ghost predicate GapFreePrefix(a: seq<Fragment>, b: seq<Byte>) {
    && (forall i: nat :: i < |b| ==> Supplies(a, i, b[i]))
    && !Covered(a, |b|)
  }

  lemma GapFreePrefixShorter(a: seq<Fragment>, b: seq<Byte>, c: seq<Byte>)
    requires PairwiseDisjoint(a) && GapFreePrefix(a, b) && GapFreePrefix(a, c)
    ensures |b| >= |c|
    ensures forall i: nat :: i < |c| ==> b[i] == c[i]
  {
    forall i: nat | i < |c|
      ensures Covered(a, i)
    {
      assert Supplies(a, i, c[i]);
    }
    forall i: nat | i < |c|
      ensures b[i] == c[i]
    {
      assert Supplies(a, i, b[i]) && Supplies(a, i, c[i]);
      var f :| f in a && f.Covers(i) && f.data[i - f.offset] == b[i];
      var g :| g in a && g.Covers(i) && g.data[i - g.offset] == c[i];
      if f != g {
        DistinctDisjoint(a, f, g);
      }
    }
  }

  lemma GapFreePrefixUnique(a: seq<Fragment>, b: seq<Byte>, c: seq<Byte>)
    requires PairwiseDisjoint(a) && GapFreePrefix(a, b) && GapFreePrefix(a, c)
    ensures b == c
  {
    GapFreePrefixShorter(a, b, c);
    GapFreePrefixShorter(a, c, b);
  }

  lemma InvGapFree(s: State, a: seq<Fragment>)
    requires Inv(s, a)
    ensures GapFreePrefix(a, s.buf)
  {
    hide PairwiseDisjoint, Supplies;
    forall i: nat | i < |s.buf|
      ensures Supplies(a, i, s.buf[i])
    {
      BufferSupplied(s, a, i);
    }
    forall f | f in a
      ensures !f.Covers(|s.buf|)
    {
      assert Placed(s.buf, s.frags, f);
    }
  }

  lemma BufferSupplied(s: State, a: seq<Fragment>, i: nat)
    requires Inv(s, a) && i < |s.buf|
    ensures Supplies(a, i, s.buf[i])
  {
    hide PairwiseDisjoint;
    assert Covered(a, i);
    var f :| f in a && f.Covers(i);
    assert Placed(s.buf, s.frags, f);
    assert s.buf[f.offset..f.End()][i - f.offset] == s.buf[i];
  }

  /** What is pending starts beyond the buffer, does not overlap, and is just what the buffer lacks. */
  ghost predicate PendingBeyond(s: State, a: seq<Fragment>) {
    && (forall off :: off in s.frags ==> off > |s.buf| && Fragment(off, s.frags[off]) in a)
    && (forall o, p :: o in s.frags && p in s.frags && o < p ==> o + |s.frags[o]| <= p)
    && (forall f :: f in a && f.End() > |s.buf| ==> f.offset in s.frags && s.frags[f.offset] == f.data)
  }

  lemma InvPendingBeyond(s: State, a: seq<Fragment>)
    requires Inv(s, a)
    ensures PendingBeyond(s, a)
  {
  }

  /** After any calls, the buffer is the one longest gap-free prefix of the saved fragments, and the rest is pending. */
  lemma Refinement(fs: seq<Fragment>)
    ensures GapFreePrefix(Saved(fs), Run(fs).buf)
    ensures forall b :: GapFreePrefix(Saved(fs), b) ==> b == Run(fs).buf
    ensures PendingBeyond(Run(fs), Saved(fs))
  {
    var s, a := Run(fs), Saved(fs);
    RunInv(fs);
    InvGapFree(s, a);
    forall b | GapFreePrefix(a, b)
      ensures b == s.buf
    {
      GapFreePrefixUnique(a, b, s.buf);
    }
    InvPendingBeyond(s, a);
  }

  // ----- Bounded storage -----

  /** The bytes pending at offsets `n` and above. */
  ghost function PendingFrom(frags: map<nat, seq<Byte>>, n: nat): nat
    decreases MAX_CRYPTO_LENGTH - n
  {
    if n > MAX_CRYPTO_LENGTH then 0
    else (if n in frags then |frags[n]| else 0) + PendingFrom(frags, n + 1)
  }

  lemma {:induction false} PendingFit(s: State, a: seq<Fragment>, n: nat, lo: nat)
    requires PendingBeyond(s, a)
    requires forall f :: f in a ==> f.End() <= MAX_CRYPTO_LENGTH
    requires lo <= MAX_CRYPTO_LENGTH && forall o :: o in s.frags && o >= n ==> lo <= o
    ensures PendingFrom(s.frags, n) <= MAX_CRYPTO_LENGTH - lo
    decreases MAX_CRYPTO_LENGTH - n
  {
    if n <= MAX_CRYPTO_LENGTH {
      if n in s.frags {
        assert Fragment(n, s.frags[n]) in a;
        PendingFit(s, a, n + 1, n + |s.frags[n]|);
      } else {
        PendingFit(s, a, n + 1, lo);
      }
    }
  }

  lemma BufferFits(s: State, a: seq<Fragment>)
    requires Inv(s, a)
    ensures |s.buf| <= MAX_CRYPTO_LENGTH
  {
    if |s.buf| > 0 {
      assert Covered(a, |s.buf| - 1);
    }
  }

  /** In every reachable state at most 33 fragments are pending, and the object holds at most 65536 bytes. */
  lemma BoundedStorage(fs: seq<Fragment>)
    ensures |Run(fs).frags| <= 33
    ensures |Run(fs).buf| + PendingFrom(Run(fs).frags, 0) <= 65536
    ensures forall off :: off in Run(fs).frags ==> off <= 65536
  {
    var s, a := Run(fs), Saved(fs);
    RunInv(fs);
    InvPendingBeyond(s, a);
    BufferFits(s, a);
    PendingFit(s, a, 0, |s.buf|);
  }

  lemma {:induction false} RunGrows(fs: seq<Fragment>, gs: seq<Fragment>)
    ensures Run(fs).buf <= Run(fs + gs).buf
  {
    hide Add, Run;
    if gs == [] {
      assert fs + gs == fs;
    } else {
      var before := fs + gs[..|gs| - 1];
      RunGrows(fs, gs[..|gs| - 1]);
      AddGrows(Run(before), gs[|gs| - 1]);
      RunSnoc(before, gs[|gs| - 1]);
      assert fs + gs == before + [gs[|gs| - 1]];
    }
  }

  lemma OversizedStays(s: State, a: seq<Fragment>, f: Fragment)
    requires Inv(s, a) && |s.buf| > 4 && DeclaredLength(s.buf) > MAX_CRYPTO_LENGTH
    ensures Reconstructed(s) == [] && Add(s, f).1 != Eof
  {
    BufferFits(s, a);
    AddKeepsInv(s, a, f);
    BufferFits(Add(s, f).0, if Check(s, f) == Ok then a + [f] else a);
  }

  /** Once the header declares more than 65536 bytes, no continuation completes. */
  lemma OversizedNeverCompletes(fs: seq<Fragment>, gs: seq<Fragment>, f: Fragment)
    requires |Run(fs).buf| > 4 && DeclaredLength(Run(fs).buf) > MAX_CRYPTO_LENGTH
    ensures Reconstructed(Run(fs + gs)) == []
    ensures Add(Run(fs + gs), f).1 != Eof
  {
    RunGrows(fs, gs);
    RunInv(fs + gs);
    assert Run(fs).buf[1..4] == Run(fs + gs).buf[1..4];
    OversizedStays(Run(fs + gs), Saved(fs + gs), f);
  }

  // ----- Acceptance, stated without the buffer -----

  ghost predicate NonEmpty(a: seq<Fragment>) {
    forall f :: f in a ==> f.data != []
  }

  ghost predicate DisjointFrom(a: seq<Fragment>, f: Fragment) {
    forall g :: g in a ==> Disjoint(f, g)
  }

  lemma DisjointClear(s: State, a: seq<Fragment>, f: Fragment)
    requires Inv(s, a) && NonEmpty(a) && f.data != [] && DisjointFrom(a, f)
    ensures f.offset !in s.frags && f.offset >= |s.buf|
    ensures forall off :: off in s.frags ==> !Clashes(off, s.frags[off], f)
  {
    assert f.offset < |s.buf| ==> Covered(a, f.offset);
    assert forall off :: off in s.frags ==> Fragment(off, s.frags[off]) in a;
  }

  lemma ClearDisjoint(s: State, a: seq<Fragment>, f: Fragment)
    requires Inv(s, a) && Check(s, f) == Ok
    ensures DisjointFrom(a, f)
  {
  }

  /** A non-empty fragment is saved just when it overlaps no earlier one, fits, and at most 32 are pending. */
  lemma SavedIff(s: State, a: seq<Fragment>, f: Fragment)
    requires Inv(s, a) && NonEmpty(a) && f.data != []
    ensures Check(s, f) == Ok <==>
              DisjointFrom(a, f) && |s.frags| <= MAX_CRYPTO_FRAGMENTS && f.End() <= MAX_CRYPTO_LENGTH
  {
    if DisjointFrom(a, f) {
      DisjointClear(s, a, f);
    }
    if Check(s, f) == Ok {
      ClearDisjoint(s, a, f);
    }
  }

  /** The fragments of `a` that lie beyond the gap-free prefix of `a`: some position before them is missing. */
  ghost function Waiting(a: seq<Fragment>): set<Fragment> {
    set f | f in a && Gapped(a, f)
  }

  ghost predicate Gapped(a: seq<Fragment>, f: Fragment) {
    exists i: nat :: i < f.offset && !Covered(a, i)
  }

  ghost function Entries(frags: map<nat, seq<Byte>>): set<Fragment> {
    set off | off in frags :: Fragment(off, frags[off])
  }

  lemma EntryIff(frags: map<nat, seq<Byte>>, f: Fragment)
    ensures f in Entries(frags) <==> f.offset in frags && frags[f.offset] == f.data
  {
  }

  lemma {:induction false} EntriesCount(frags: map<nat, seq<Byte>>)
    ensures |Entries(frags)| == |frags|
    decreases |frags|
  {
    if frags == map[] {
      assert Entries(frags) == {};
    } else {
      var off :| off in frags;
      var f := Fragment(off, frags[off]);
      var rest := frags - {off};
      RemoveShrinks(frags, off);
      EntriesCount(rest);
      forall g
        ensures g in Entries(frags) <==> g in Entries(rest) + {f}
      {
        EntryIff(frags, g);
        EntryIff(rest, g);
      }
      EntryIff(rest, f);
      assert Entries(frags) == Entries(rest) + {f};
    }
  }

  lemma WaitingIffPending(s: State, a: seq<Fragment>, f: Fragment)
    requires Inv(s, a) && f in a
    ensures Gapped(a, f) <==> f.offset in s.frags && s.frags[f.offset] == f.data
  {
    InvGapFree(s, a);
    InvPendingBeyond(s, a);
    assert forall i: nat :: i < |s.buf| ==> Covered(a, i);
    if f.End() > |s.buf| {
      assert |s.buf| < f.offset && !Covered(a, |s.buf|);
    }
  }

  /** What is pending is counted by the fragments alone. */
  lemma PendingIsWaiting(s: State, a: seq<Fragment>)
    requires Inv(s, a)
    ensures |s.frags| == |Waiting(a)| && Waiting(a) == Entries(s.frags)
  {
    hide Gapped;
    forall f
      ensures f in Waiting(a) <==> f in Entries(s.frags)
    {
      if f in a {
        WaitingIffPending(s, a, f);
      }
    }
    assert Waiting(a) == Entries(s.frags);
    EntriesCount(s.frags);
  }

  lemma {:induction false} MembersAtMost(w: set<Fragment>, a: seq<Fragment>)
    requires forall f :: f in w ==> f in a
    ensures |w| <= |a|
  {
    if a == [] {
      assert w == {};
    } else {
      MembersAtMost(w - {a[|a| - 1]}, a[..|a| - 1]);
    }
  }

  // ----- The result of a call, read off the fragments -----

  /** A position strictly inside a fragment. */
  predicate Inside(i: nat, f: Fragment) {
    f.offset < i < f.End()
  }

  /** A fragment that is still waiting starts at the same offset. */
  ghost predicate Repeats(a: seq<Fragment>, f: Fragment) {
    exists g :: g in Waiting(a) && g.offset == f.offset
  }

  /** One that is waiting and `f` cut into each other, or `f` starts in the gap-free prefix. */
  ghost predicate Intrudes(a: seq<Fragment>, f: Fragment) {
    || (exists g :: g in Waiting(a) && (Inside(f.offset, g) || Inside(g.offset, f)))
    || (forall i: nat :: i <= f.offset ==> Covered(a, i))
  }

  /** What the fragments saved before make of a new one; `b` is the gap-free prefix with the new one. */
  ghost function Verdict(a: seq<Fragment>, f: Fragment, known: bool, b: seq<Byte>): AddResult {
    if Repeats(a, f) then Duplicate
    else if Intrudes(a, f) then Overlap
    else if |Waiting(a)| > 32 then TooMany
    else if f.End() > 65536 then OffsetTooHigh
    else if |b| <= 4 then Ok
    else if DeclaredLength(b) > 65536 then (if known then Ok else OffsetTooHigh)
    else if |b| >= DeclaredLength(b) then Eof
    else Ok
  }

  ghost predicate Refuses(a: seq<Fragment>, f: Fragment) {
    Repeats(a, f) || Intrudes(a, f) || |Waiting(a)| > 32 || f.End() > 65536
  }

  lemma RepeatsIff(s: State, a: seq<Fragment>, f: Fragment)
    requires Inv(s, a)
    ensures Repeats(a, f) <==> f.offset in s.frags
  {
    hide Waiting, Inv;
    PendingIsWaiting(s, a);
    if f.offset in s.frags {
      var g := Fragment(f.offset, s.frags[f.offset]);
      EntryIff(s.frags, g);
      assert g in Waiting(a);
    }
    if Repeats(a, f) {
      var g :| g in Waiting(a) && g.offset == f.offset;
      EntryIff(s.frags, g);
    }
  }

  lemma StartsInside(s: State, a: seq<Fragment>, n: nat)
    requires Inv(s, a)
    ensures n < |s.buf| <==> forall i: nat :: i <= n ==> Covered(a, i)
  {
    InvGapFree(s, a);
  }

  lemma IntrudesIff(s: State, a: seq<Fragment>, f: Fragment)
    requires Inv(s, a) && f.offset !in s.frags
    ensures Intrudes(a, f) <==>
              (exists off | off in s.frags :: Clashes(off, s.frags[off], f)) || f.offset < |s.buf|
  {
    hide Waiting, Inv, Covered;
    PendingIsWaiting(s, a);
    StartsInside(s, a, f.offset);
    if off :| off in s.frags && Clashes(off, s.frags[off], f) {
      var g := Fragment(off, s.frags[off]);
      EntryIff(s.frags, g);
      assert g in Waiting(a) && (Inside(f.offset, g) || Inside(g.offset, f));
    }
    if g :| g in Waiting(a) && (Inside(f.offset, g) || Inside(g.offset, f)) {
      EntryIff(s.frags, g);
      assert Clashes(g.offset, s.frags[g.offset], f);
    }
  }

  lemma CheckIff(s: State, a: seq<Fragment>, f: Fragment)
    requires Inv(s, a)
    ensures Check(s, f) == Ok <==> !Refuses(a, f)
    ensures Check(s, f) != Ok ==> Check(s, f) == Verdict(a, f, false, [])
  {
    hide Waiting, Inv, Repeats, Intrudes;
    PendingIsWaiting(s, a);
    RepeatsIff(s, a, f);
    if f.offset !in s.frags {
      IntrudesIff(s, a, f);
    }
  }

  /**
    The result of any call, from the fragments saved before and nothing else:
    which error goes with which cause, when the message is at an end, and when
    more is wanted. A refused fragment changes nothing.
   */
  lemma AddResultIs(s: State, a: seq<Fragment>, f: Fragment)
    requires Inv(s, a)
    ensures var (t, r) := Add(s, f);
            && GapFreePrefix(if Refuses(a, f) then a else a + [f], t.buf)
            && (Refuses(a, f) ==> t == s)
            && r == Verdict(a, f, |s.buf| > 4, t.buf)
  {
    hide Waiting, Repeats, Intrudes, Consistent, GapFreePrefix, Drain;
    CheckIff(s, a, f);
    AddKeepsInv(s, a, f);
    InvGapFree(Add(s, f).0, if Refuses(a, f) then a else a + [f]);
    if !Refuses(a, f) {
      BufferFits(Add(s, f).0, a + [f]);
      AddGrows(s, f);
      SameHeader(s.buf, Add(s, f).0.buf);
    }
  }

  lemma SameHeader(b: seq<Byte>, c: seq<Byte>)
    requires b <= c
    ensures |b| > 4 ==> DeclaredLength(b) == DeclaredLength(c)
  {
    if |b| > 4 {
      assert b[1..4] == c[1..4];
    }
  }

  /** Among non-empty fragments the first two causes are an overlap. */
  lemma RefusesIff(s: State, a: seq<Fragment>, f: Fragment)
    requires Inv(s, a) && NonEmpty(a) && f.data != []
    ensures Repeats(a, f) || Intrudes(a, f) <==> !DisjointFrom(a, f)
    ensures Refuses(a, f) <==> !DisjointFrom(a, f) || |Waiting(a)| > 32 || f.End() > 65536
  {
    hide Waiting, Inv, Repeats, Intrudes;
    RepeatsIff(s, a, f);
    if f.offset !in s.frags {
      IntrudesIff(s, a, f);
    }
    if DisjointFrom(a, f) {
      DisjointClear(s, a, f);
    } else if f.offset !in s.frags && f.offset >= |s.buf| {
      NotDisjointClashes(s, a, f);
    }
  }

  lemma NotDisjointClashes(s: State, a: seq<Fragment>, f: Fragment)
    requires Inv(s, a) && !DisjointFrom(a, f) && f.offset !in s.frags && f.offset >= |s.buf|
    ensures exists off | off in s.frags :: Clashes(off, s.frags[off], f)
  {
    var g :| g in a && !Disjoint(f, g);
    assert Placed(s.buf, s.frags, g);
    assert Clashes(g.offset, s.frags[g.offset], f);
  }

  /** The calls for `fs`, one after the other, from `s`. */
  ghost function AddAll(s: State, fs: seq<Fragment>): State {
    if fs == [] then s else Add(AddAll(s, fs[..|fs| - 1]), fs[|fs| - 1]).0
  }

  ghost predicate AllOk(s: State, fs: seq<Fragment>) {
    forall k :: 0 <= k < |fs| ==> Add(AddAll(s, fs[..k]), fs[k]).1 == Ok
  }

  /**
    Feeding frames makes the calls for their CRYPTO fragments in order, up to
    and with the first that does not return nil; that one decides the result.
   */
  lemma {:induction false} FeedStops(s: State, frames: seq<Frame>) returns (k: nat)
    ensures var fs := CryptoOf(frames);
            && k <= |fs| && AllOk(s, fs[..k])
            && (k == |fs| ==> Feed(s, frames) == (AddAll(s, fs), NeedMore))
            && (k < |fs| ==>
                  var (t, r) := Add(AddAll(s, fs[..k]), fs[k]);
                  r != Ok && Feed(s, frames) == (t, if r == Eof then Complete else Failed(r)))
    decreases |frames|
  {
    hide Add;
    var fs := CryptoOf(frames);
    if frames == [] {
      k := 0;
    } else if !frames[0].Crypto? {
      k := FeedStops(s, frames[1..]);
      assert CryptoOf(frames) == CryptoOf(frames[1..]);
    } else {
      var (t, r) := Add(s, fs[0]);
      assert fs[0] == frames[0].fragment && fs[1..] == CryptoOf(frames[1..]);
      FeedStep(s, frames, t, r);
      if r != Ok {
        k := 0;
        assert fs[..0] == [];
      } else {
        var j := FeedStops(t, frames[1..]);
        k := j + 1;
        AllOkCons(s, t, fs, j);
      }
    }
  }

  lemma {:induction false} AddAllCons(s: State, t: State, fs: seq<Fragment>, k: nat)
    requires k < |fs| && Add(s, fs[0]).0 == t
    ensures AddAll(s, fs[..k + 1]) == AddAll(t, fs[1..][..k])
  {
    hide Add;
    if k == 0 {
      assert fs[..1] == [fs[0]] && [fs[0]][..0] == [] && fs[1..][..0] == [];
    } else {
      AddAllCons(s, t, fs, k - 1);
      assert fs[..k + 1][..k] == fs[..k] && fs[1..][..k][..k - 1] == fs[1..][..k - 1];
      assert fs[..k + 1][k] == fs[1..][..k][k - 1];
    }
  }

  lemma AllOkCons(s: State, t: State, fs: seq<Fragment>, j: nat)
    requires fs != [] && j <= |fs[1..]| && Add(s, fs[0]) == (t, Ok) && AllOk(t, fs[1..][..j])
    ensures AllOk(s, fs[..j + 1])
    ensures AddAll(s, fs[..j + 1]) == AddAll(t, fs[1..][..j])
    ensures j == |fs[1..]| ==> AddAll(s, fs) == AddAll(t, fs[1..])
  {
    hide Add, AddAll;
    AddAllCons(s, t, fs, j);
    var gs := fs[..j + 1];
    forall k | 0 <= k < |gs|
      ensures Add(AddAll(s, gs[..k]), gs[k]).1 == Ok
    {
      assert gs[..k] == fs[..k];
      if k == 0 {
        NoCalls(s, fs);
      } else {
        AddAllCons(s, t, fs, k - 1);
        assert fs[1..][..j][..k - 1] == fs[1..][..k - 1];
        assert fs[1..][..j][k - 1] == fs[k];
      }
    }
    if j == |fs[1..]| {
      assert fs[..j + 1] == fs && fs[1..][..j] == fs[1..];
    }
  }

  lemma NoCalls(s: State, fs: seq<Fragment>)
    ensures AddAll(s, fs[..0]) == s
  {
  }

  // ----- The declared length -----

  /** A handshake message: its type, the length of its body in three bytes, its body. */
  function Handshake(kind: Byte, body: seq<Byte>): seq<Byte> {
    [kind] + BigEndian(|body|, 3) + body
  }

  /** A message declares its own length just when it is a handshake message. */
  lemma DeclaresItselfIff(m: seq<Byte>)
    requires |m| > 4
    ensures DeclaredLength(m) == |m| <==> |m| - 4 < 0x100_0000 && m == Handshake(m[0], m[4..])
  {
    PowersOf256();
    FromBigEndianRoundTrip(m[1..4]);
    assert Pow256(3) == 0x100_0000;
    if |m| - 4 < 0x100_0000 {
      BigEndianRoundTrip(|m| - 4, 3);
    }
    assert m == [m[0]] + m[1..4] + m[4..];
    if m == Handshake(m[0], m[4..]) {
      assert m[1..4] == BigEndian(|m| - 4, 3);
    }
  }

  // ----- Completeness -----

  ghost predicate PieceOf(f: Fragment, m: seq<Byte>) {
    f.End() <= |m| && m[f.offset..f.End()] == f.data
  }

  /** Non-empty pieces of `m`, in any order, no two overlapping. */
  ghost predicate Pieces(fs: seq<Fragment>, m: seq<Byte>) {
    && PairwiseDisjoint(fs)
    && NonEmpty(fs)
    && (forall f :: f in fs ==> PieceOf(f, m))
  }

  /** `fs`, in any order, is message `m` cut into non-empty pieces. */
  ghost predicate Tiles(fs: seq<Fragment>, m: seq<Byte>) {
    Pieces(fs, m) && forall i: nat :: i < |m| ==> Covered(fs, i)
  }

  lemma PiecesPrefix(fs: seq<Fragment>, m: seq<Byte>, k: nat)
    requires Pieces(fs, m) && k <= |fs|
    ensures Pieces(fs[..k], m)
    ensures forall j :: k <= j < |fs| ==> DisjointFrom(fs[..k], fs[j])
  {
  }

  /** At each of the first `n` arrivals at most 32 of the earlier pieces are waiting for one before them. */
  ghost predicate Flows(fs: seq<Fragment>, n: nat)
    requires n <= |fs|
  {
    forall k :: 0 <= k < n ==> |Waiting(fs[..k])| <= MAX_CRYPTO_FRAGMENTS
  }

  lemma FlowsShorter(fs: seq<Fragment>, i: nat, j: nat)
    requires i <= j <= |fs| && Flows(fs, j)
    ensures Flows(fs, i)
  {
  }

  lemma FewFlow(fs: seq<Fragment>)
    requires |fs| <= 33
    ensures Flows(fs, |fs|)
  {
    forall k | 0 <= k < |fs|
      ensures |Waiting(fs[..k])| <= MAX_CRYPTO_FRAGMENTS
    {
      MembersAtMost(Waiting(fs[..k]), fs[..k]);
    }
  }

  lemma SavedNext(s: State, a: seq<Fragment>, f: Fragment)
    requires Inv(s, a) && NonEmpty(a)
    requires f.data != [] && DisjointFrom(a, f) && f.End() <= MAX_CRYPTO_LENGTH
    ensures Check(s, f) == Ok <==> |Waiting(a)| <= MAX_CRYPTO_FRAGMENTS
    ensures |Waiting(a)| > MAX_CRYPTO_FRAGMENTS ==> Add(s, f) == (s, TooMany)
    ensures |Waiting(a)| <= MAX_CRYPTO_FRAGMENTS ==> Inv(Add(s, f).0, a + [f])
  {
    hide Waiting;
    PendingIsWaiting(s, a);
    SavedIff(s, a, f);
    DisjointClear(s, a, f);
    if Check(s, f) == Ok {
      SaveKeepsInv(s, a, f);
    }
  }

  lemma NextPiece(fs: seq<Fragment>, m: seq<Byte>, k: nat)
    requires Pieces(fs, m) && |m| <= MAX_CRYPTO_LENGTH && k < |fs|
    ensures NonEmpty(fs[..k]) && DisjointFrom(fs[..k], fs[k])
    ensures fs[k].data != [] && fs[k].End() <= MAX_CRYPTO_LENGTH
  {
    PiecesPrefix(fs, m, k);
    assert fs[k] in fs && PieceOf(fs[k], m);
  }

  /** Every piece so far has been saved, while few enough were waiting. */
  lemma {:induction false} PiecesSaved(fs: seq<Fragment>, m: seq<Byte>, k: nat)
    requires Pieces(fs, m) && |m| <= MAX_CRYPTO_LENGTH && k <= |fs| && Flows(fs, k)
    ensures Saved(fs[..k]) == fs[..k] && Inv(Run(fs[..k]), fs[..k])
  {
    hide Inv, Add, Check, Waiting;
    if k == 0 {
      RunInv([]);
    } else {
      var before, f := fs[..k - 1], fs[k - 1];
      PiecesSaved(fs, m, k - 1);
      NextPiece(fs, m, k - 1);
      SavedNext(Run(before), before, f);
      RunSnoc(before, f);
      assert fs[..k] == before + [f];
    }
  }

  /** Whatever pieces have arrived, the buffer is a prefix of the message. */
  lemma BufferIsPrefix(s: State, a: seq<Fragment>, m: seq<Byte>)
    requires Inv(s, a) && Pieces(a, m)
    ensures s.buf <= m
  {
    hide Inv, PairwiseDisjoint, Covered;
    InvGapFree(s, a);
    if |s.buf| > 0 {
      assert Supplies(a, |s.buf| - 1, s.buf[|s.buf| - 1]);
    }
    forall i: nat | i < |s.buf|
      ensures s.buf[i] == m[i]
    {
      assert Supplies(a, i, s.buf[i]);
      var f :| f in a && f.Covers(i) && f.data[i - f.offset] == s.buf[i];
      assert m[f.offset..f.End()][i - f.offset] == m[i];
    }
  }

  /** While a piece is missing, so is the end of the message. */
  lemma MissingPiece(s: State, a: seq<Fragment>, m: seq<Byte>, f: Fragment)
    requires Inv(s, a) && Pieces(a, m) && DisjointFrom(a, f) && f.data != [] && PieceOf(f, m)
    ensures |s.buf| <= f.offset
  {
    assert |s.buf| > f.offset ==> Covered(a, f.offset);
  }

  lemma PendingInside(s: State, a: seq<Fragment>, m: seq<Byte>)
    requires Inv(s, a) && Pieces(a, m)
    ensures forall off :: off in s.frags ==> off < |m|
  {
  }

  lemma AllPieces(s: State, a: seq<Fragment>, m: seq<Byte>)
    requires Inv(s, a) && Tiles(a, m)
    ensures s.buf == m && s.frags == map[]
  {
    BufferIsPrefix(s, a, m);
    InvGapFree(s, a);
    PendingInside(s, a, m);
  }

  /** What a call returns when its piece is saved. */
  lemma ResultOfSave(s: State, a: seq<Fragment>, f: Fragment, m: seq<Byte>)
    requires Inv(s, a) && Check(s, f) == Ok && Pieces(a + [f], m)
    requires 4 < |m| <= MAX_CRYPTO_LENGTH && DeclaredLength(m) == |m|
    ensures Add(s, f).1 == if Add(s, f).0.buf == m then Eof else Ok
  {
    hide Drain, Consistent, Check, Pieces;
    AddKeepsInv(s, a, f);
    BufferIsPrefix(Add(s, f).0, a + [f], m);
    if |Add(s, f).0.buf| > 4 {
      assert Add(s, f).0.buf[1..4] == m[1..4];
    }
  }

  lemma NextSaved(fs: seq<Fragment>, k: nat)
    requires k < |fs| && Saved(fs[..k]) == fs[..k] && Saved(fs[..k + 1]) == fs[..k + 1]
    ensures Check(Run(fs[..k]), fs[k]) == Ok && Run(fs[..k + 1]) == Add(Run(fs[..k]), fs[k]).0
  {
    assert fs[..k + 1] == fs[..k] + [fs[k]];
    RunSnoc(fs[..k], fs[k]);
  }

  lemma ResultOfPiece(fs: seq<Fragment>, m: seq<Byte>, k: nat)
    requires Tiles(fs, m) && k < |fs| && Flows(fs, k + 1)
    requires 4 < |m| <= 65536 && DeclaredLength(m) == |m|
    ensures Add(Run(fs[..k]), fs[k]).1 == if k == |fs| - 1 then Eof else Ok
  {
    hide Flows, Add, Run, Check, Inv, Saved;
    FlowsShorter(fs, k, k + 1);
    PiecesSaved(fs, m, k);
    PiecesSaved(fs, m, k + 1);
    PiecesPrefix(fs, m, k + 1);
    NextSaved(fs, k);
    assert fs[..k + 1][..k] == fs[..k] && fs[..k + 1] == fs[..k] + [fs[k]];
    ResultOfSave(Run(fs[..k]), fs[..k], fs[k], m);
    if k + 1 == |fs| {
      assert fs[..k + 1] == fs;
      AllPieces(Run(fs), fs, m);
    } else {
      assert fs[k + 1] in fs;
      MissingPiece(Run(fs[..k + 1]), fs[..k + 1], m, fs[k + 1]);
    }
  }

  /** Each of the first `n` fragments is saved, and the last of all completes the message. */
  ghost predicate Stepwise(fs: seq<Fragment>, n: nat)
    requires n <= |fs|
  {
    forall k :: 0 <= k < n ==>
      Add(Run(fs[..k]), fs[k]) == (Run(fs[..k + 1]), if k == |fs| - 1 then Eof else Ok)
  }

  lemma TilesStepwise(fs: seq<Fragment>, m: seq<Byte>, n: nat)
    requires Tiles(fs, m) && n <= |fs| && Flows(fs, n)
    requires 4 < |m| <= 65536 && DeclaredLength(m) == |m|
    ensures Stepwise(fs, n)
  {
    hide Add, Run, Flows, Tiles;
    forall k | 0 <= k < n
      ensures Add(Run(fs[..k]), fs[k]) == (Run(fs[..k + 1]), if k == |fs| - 1 then Eof else Ok)
    {
      FlowsShorter(fs, k + 1, n);
      ResultOfPiece(fs, m, k);
      RunNext(fs, k);
    }
  }

  lemma ReadsBack(fs: seq<Fragment>, m: seq<Byte>)
    requires Tiles(fs, m) && Flows(fs, |fs|)
    requires 4 < |m| <= 65536 && DeclaredLength(m) == |m|
    ensures Reconstructed(Run(fs)) == m && Run(fs).frags == map[]
  {
    PiecesSaved(fs, m, |fs|);
    assert fs[..|fs|] == fs;
    AllPieces(Run(fs), fs, m);
  }

  /**
    Every arrival order of a message cut into at most 33 non-empty pieces: each
    call returns nil but the last, which reports the end of the message, and
    then the message can be read back.
   */
  lemma AnyOrderCompletes(fs: seq<Fragment>, m: seq<Byte>)
    requires Tiles(fs, m) && |fs| <= 33
    requires 4 < |m| <= 65536 && DeclaredLength(m) == |m|
    ensures Stepwise(fs, |fs|)
    ensures Reconstructed(Run(fs)) == m && Run(fs).frags == map[]
  {
    FewFlow(fs);
    TilesStepwise(fs, m, |fs|);
    ReadsBack(fs, m);
  }

  lemma FeedStep(s: State, frames: seq<Frame>, s': State, r: AddResult)
    requires frames != [] && frames[0].Crypto? && Add(s, frames[0].fragment) == (s', r)
    ensures r == Ok ==> Feed(s, frames) == Feed(s', frames[1..])
    ensures r == Eof ==> Feed(s, frames) == (s', Complete)
    ensures r != Ok && r != Eof ==> Feed(s, frames) == (s', Failed(r))
  {
  }

  /** Feeding frames adds the next pieces; the message is complete just when they are the last. */
  lemma {:induction false} FeedPieces(fs: seq<Fragment>, i: nat, frames: seq<Frame>, j: nat)
    requires i <= j <= |fs| && fs[i..j] == CryptoOf(frames) && Stepwise(fs, j)
    ensures Feed(Run(fs[..i]), frames) == (Run(fs[..j]), if i < j == |fs| then Complete else NeedMore)
    decreases |frames|
  {
    if frames == [] {
    } else if frames[0].Crypto? {
      assert fs[i..j][1..] == CryptoOf(frames[1..]) && fs[i] == fs[i..j][0] == frames[0].fragment;
      FeedStep(Run(fs[..i]), frames, Run(fs[..i + 1]), if i == |fs| - 1 then Eof else Ok);
      if i + 1 < |fs| {
        assert fs[i + 1..j] == fs[i..j][1..];
        FeedPieces(fs, i + 1, frames[1..], j);
      }
    } else {
      assert CryptoOf(frames) == CryptoOf(frames[1..]);
      FeedPieces(fs, i, frames[1..], j);
    }
  }

  /** Feeding frames of which one is refused adds the pieces before it, and none after. */
  lemma {:induction false} FeedRefused(fs: seq<Fragment>, i: nat, frames: seq<Frame>, j: nat, k: nat)
    requires i <= k < j <= |fs| && fs[i..j] == CryptoOf(frames) && Stepwise(fs, k)
    requires Add(Run(fs[..k]), fs[k]) == (Run(fs[..k]), TooMany)
    ensures Feed(Run(fs[..i]), frames) == (Run(fs[..k]), Failed(TooMany))
    decreases |frames|
  {
    hide Add, Run;
    if frames[0].Crypto? {
      assert fs[i..j][1..] == CryptoOf(frames[1..]) && fs[i] == fs[i..j][0] == frames[0].fragment;
      if i == k {
        FeedStep(Run(fs[..i]), frames, Run(fs[..i]), TooMany);
      } else {
        assert fs[i + 1..j] == fs[i..j][1..];
        FeedStep(Run(fs[..i]), frames, Run(fs[..i + 1]), Ok);
        FeedRefused(fs, i + 1, frames[1..], j, k);
      }
    } else {
      assert CryptoOf(frames) == CryptoOf(frames[1..]);
      FeedRefused(fs, i, frames[1..], j, k);
    }
  }

  /** The saved fragments `a` are pieces of `m`, and none holds any of the piece `f`. */
  ghost predicate Lacks(s: State, a: seq<Fragment>, m: seq<Byte>, f: Fragment) {
    && Inv(s, a) && Pieces(a, m) && DisjointFrom(a, f) && f.data != [] && PieceOf(f, m)
    && 4 < |m| <= MAX_CRYPTO_LENGTH && DeclaredLength(m) == |m|
  }

  ghost predicate OtherPiece(g: Fragment, m: seq<Byte>, f: Fragment) {
    g.data != [] && PieceOf(g, m) && Disjoint(f, g)
  }

  lemma LacksIncomplete(s: State, a: seq<Fragment>, m: seq<Byte>, f: Fragment)
    requires Lacks(s, a, m, f)
    ensures s.buf != m && Reconstructed(s) == []
  {
    MissingPiece(s, a, m, f);
    BufferIsPrefix(s, a, m);
    if |s.buf| > 4 {
      assert s.buf[1..4] == m[1..4];
    }
  }

  lemma AddKeepsLacks(s: State, a: seq<Fragment>, m: seq<Byte>, f: Fragment, g: Fragment)
    requires Lacks(s, a, m, f) && OtherPiece(g, m, f)
    ensures Lacks(Add(s, g).0, if Check(s, g) == Ok then a + [g] else a, m, f)
    ensures Add(s, g).1 != Eof
  {
    if Check(s, g) == Ok {
      SaveKeepsInv(s, a, g);
      InvPieces(Save(s, g).0, a + [g], m);
      ResultOfSave(s, a, g, m);
      LacksIncomplete(Save(s, g).0, a + [g], m, f);
    }
  }

  lemma InvPieces(s: State, a: seq<Fragment>, m: seq<Byte>)
    requires Inv(s, a) && NonEmpty(a) && forall f :: f in a ==> PieceOf(f, m)
    ensures Pieces(a, m)
  {
  }

  /** No other pieces make up for a missing one. */
  lemma {:induction false} FeedKeepsLacks(s: State, a: seq<Fragment>, m: seq<Byte>, f: Fragment, frames: seq<Frame>)
    returns (b: seq<Fragment>)
    requires Lacks(s, a, m, f) && forall g :: g in CryptoOf(frames) ==> OtherPiece(g, m, f)
    ensures Lacks(Feed(s, frames).0, b, m, f) && Feed(s, frames).1 != Complete
    decreases |frames|
  {
    hide Lacks, Add, OtherPiece, Check;
    if frames == [] {
      b := a;
    } else if frames[0].Crypto? {
      var g := frames[0].fragment;
      assert g in CryptoOf(frames) && forall x :: x in CryptoOf(frames[1..]) ==> x in CryptoOf(frames);
      AddKeepsLacks(s, a, m, f, g);
      b := if Check(s, g) == Ok then a + [g] else a;
      var (s', r) := Add(s, g);
      FeedStep(s, frames, s', r);
      if r == Ok {
        b := FeedKeepsLacks(s', b, m, f, frames[1..]);
      }
    } else {
      assert CryptoOf(frames) == CryptoOf(frames[1..]);
      b := FeedKeepsLacks(s, a, m, f, frames[1..]);
    }
  }

  // ----- Exactly which orders complete -----

  lemma {:induction false} SavedFrom(fs: seq<Fragment>, f: Fragment) returns (j: nat)
    requires f in Saved(fs)
    ensures j < |fs| && fs[j] == f && Check(Run(fs[..j]), f) == Ok
  {
    hide Check, Run;
    var n := |fs| - 1;
    if f in Saved(fs[..n]) {
      j := SavedFrom(fs[..n], f);
      assert fs[..n][..j] == fs[..j];
    } else {
      j := n;
    }
  }

  /** A piece that is refused leaves a gap for good, since no other piece covers it. */
  lemma RefusedLeavesGap(fs: seq<Fragment>, m: seq<Byte>, k: nat)
    requires Pieces(fs, m) && k < |fs| && Check(Run(fs[..k]), fs[k]) != Ok
    ensures Run(fs).buf != m
  {
    hide Check, Run, Inv;
    Refinement(fs);
    assert fs[k] in fs && PieceOf(fs[k], m);
    if Run(fs).buf == m {
      assert Supplies(Saved(fs), fs[k].offset, m[fs[k].offset]);
      var f :| f in Saved(fs) && f.Covers(fs[k].offset);
      var j := SavedFrom(fs, f);
    }
  }

  /** Piece `k` is the first to be refused. */
  ghost predicate Refused(fs: seq<Fragment>, k: nat) {
    k < |fs| && Flows(fs, k) && Add(Run(fs[..k]), fs[k]) == (Run(fs[..k]), TooMany)
  }

  lemma RefusedLacks(fs: seq<Fragment>, m: seq<Byte>, k: nat)
    requires Tiles(fs, m) && Refused(fs, k) && 4 < |m| <= 65536 && DeclaredLength(m) == |m|
    ensures Lacks(Run(fs[..k]), fs[..k], m, fs[k])
  {
    PiecesSaved(fs, m, k);
    PiecesPrefix(fs, m, k);
    assert fs[k] in fs;
  }

  /** The pieces after `k` are no help for it. */
  lemma OtherPieces(fs: seq<Fragment>, m: seq<Byte>, k: nat, i: nat, j: nat)
    requires Tiles(fs, m) && k < i <= j <= |fs|
    ensures forall g :: g in fs[i..j] ==> OtherPiece(g, m, fs[k])
  {
    forall g | g in fs[i..j]
      ensures OtherPiece(g, m, fs[k])
    {
      var x :| i <= x < j && fs[x] == g;
      assert Disjoint(fs[k], fs[x]) && fs[x] in fs;
    }
  }

  /** The first arrival that finds more than 32 pieces waiting is refused. */
  lemma {:induction false} FirstRefused(fs: seq<Fragment>, m: seq<Byte>, n: nat) returns (k: nat)
    requires Pieces(fs, m) && |m| <= MAX_CRYPTO_LENGTH && n <= |fs| && !Flows(fs, n)
    ensures Refused(fs, k)
  {
    hide Waiting, Add, Run, Inv;
    if !Flows(fs, n - 1) {
      k := FirstRefused(fs, m, n - 1);
    } else {
      k := n - 1;
      PiecesSaved(fs, m, k);
      NextPiece(fs, m, k);
      SavedNext(Run(fs[..k]), fs[..k], fs[k]);
    }
  }

  /**
    For a message cut into any number of non-empty pieces, arriving in the order
    `fs`: each call but the last returns nil and the last reports the end of the
    message, and the message can be read back, each just when no arrival finds
    more than 32 earlier pieces beyond the gap-free prefix of what came before.
   */
  lemma CompletesIff(fs: seq<Fragment>, m: seq<Byte>)
    requires Tiles(fs, m) && 4 < |m| <= 65536 && DeclaredLength(m) == |m|
    ensures Stepwise(fs, |fs|) <==> Flows(fs, |fs|)
    ensures Reconstructed(Run(fs)) == m <==> Flows(fs, |fs|)
  {
    hide Waiting, Add, Run, Flows, Stepwise;
    if Flows(fs, |fs|) {
      TilesStepwise(fs, m, |fs|);
      ReadsBack(fs, m);
    } else {
      var k := FirstRefused(fs, m, |fs|);
      if Stepwise(fs, |fs|) {
        StepwiseResult(fs, k);
      }
      TooManyNotSaved(Run(fs[..k]), fs[k]);
      RefusedLeavesGap(fs, m, k);
    }
  }

  lemma StepwiseResult(fs: seq<Fragment>, k: nat)
    requires Stepwise(fs, |fs|) && k < |fs|
    ensures Add(Run(fs[..k]), fs[k]).1 == if k == |fs| - 1 then Eof else Ok
  {
    hide Add, Run;
    assert Add(Run(fs[..k]), fs[k]) == (Run(fs[..k + 1]), if k == |fs| - 1 then Eof else Ok);
  }

  lemma TooManyNotSaved(s: State, f: Fragment)
    requires Add(s, f).1 == TooMany
    ensures Check(s, f) != Ok
  {
  }

  lemma PiecesDistinct(a: seq<Fragment>)
    requires PairwiseDisjoint(a) && NonEmpty(a)
    ensures NoRepeats(a)
  {
    forall i, j | 0 <= i < j < |a|
      ensures a[i] != a[j]
    {
      assert Disjoint(a[i], a[j]) && a[j] in a;
    }
  }

  /** So the bound of 33 is sharp: with more pieces, the order that keeps the first one for last is refused. */
  lemma MorePiecesRejected(fs: seq<Fragment>, m: seq<Byte>)
    requires Tiles(fs, m) && |fs| > 33 && |m| <= MAX_CRYPTO_LENGTH
    requires fs[|fs| - 1].offset == 0
    ensures Add(Run(fs[..33]), fs[33]).1 == TooMany
  {
    var a := fs[..33];
    FewFlow(a);
    assert forall k :: 0 <= k < 33 ==> a[..k] == fs[..k];
    PiecesSaved(fs, m, 33);
    NextPiece(fs, m, 33);
    FirstMissing(fs, m, a);
    PiecesDistinct(a);
    CountDistinct(a);
    SavedNext(Run(a), a, fs[33]);
  }

  lemma FirstMissing(fs: seq<Fragment>, m: seq<Byte>, a: seq<Fragment>)
    requires Pieces(fs, m) && |fs| > 33 && fs[|fs| - 1].offset == 0 && a == fs[..33]
    ensures PairwiseDisjoint(a) && NonEmpty(a) && Waiting(a) == set f | f in a
  {
    var last := fs[|fs| - 1];
    assert last in fs;
    assert forall i :: 0 <= i < 33 ==> Disjoint(fs[i], last);
    assert !Covered(a, 0);
  }

  // ----- What is read back -----

  /**
    The bytes read back begin with the message that the header declares. They
    are that message and no more just when no saved fragment holds a byte at
    the position where it ends.
   */
  lemma ReadBackExact(fs: seq<Fragment>)
    requires Reconstructed(Run(fs)) != []
    ensures var b := Reconstructed(Run(fs));
            && b == Run(fs).buf && |b| > 4 && DeclaredLength(b) <= |b|
            && (b == b[..DeclaredLength(b)] <==> !Covered(Saved(fs), DeclaredLength(b)))
  {
    RunInv(fs);
    InvGapFree(Run(fs), Saved(fs));
    assert Run(fs).fullLen > 0 ==> |Run(fs).buf| > 4;
  }

  /** So a cut of `m` whose header declares no more than `m` is read back whole; `m` may go on after the message. */
  lemma TiledReadBack(fs: seq<Fragment>, m: seq<Byte>)
    requires Tiles(fs, m) && 4 < |m| <= 65536 && DeclaredLength(m) <= |m|
    ensures Reconstructed(Run(fs)) == m <==> Flows(fs, |fs|)
    ensures Flows(fs, |fs|) ==>
              (Reconstructed(Run(fs)) == m[..DeclaredLength(m)] <==> |m| == DeclaredLength(m))
  {
    hide Run, Flows;
    if Flows(fs, |fs|) {
      PiecesSaved(fs, m, |fs|);
      assert fs[..|fs|] == fs;
      AllPieces(Run(fs), fs, m);
    } else {
      var k := FirstRefused(fs, m, |fs|);
      TooManyNotSaved(Run(fs[..k]), fs[k]);
      RefusedLeavesGap(fs, m, k);
    }
  }

  /** A fragment may hold more than the message: one that declares five bytes and holds six is read back whole. */
  lemma MoreThanDeclared()
    ensures var f := Fragment(0, [1, 0, 0, 1, 7, 9]);
            Add(EMPTY, f).1 == Eof && Reconstructed(Add(EMPTY, f).0) == f.data && DeclaredLength(f.data) == 5
  {
    var f := Fragment(0, [1, 0, 0, 1, 7, 9]);
    var frags := map[0 := f.data];
    assert EMPTY.frags[0 := f.data] == frags && frags - {0} == map[];
    assert [] + f.data == f.data;
    assert Drain([], frags) == Drain(f.data, map[]) == (f.data, map[]);
    assert f.data[1..4] == [0, 0, 1];
    assert [0, 0, 1][..2] == [0, 0] && [0, 0][..1] == [0] && FromBigEndian([0]) == FromBigEndian([0, 0]) == 0;
  }
}
