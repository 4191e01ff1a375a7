/** The byte buffer that frames are read from, and the readers that push bytes back onto it. */
module Reader {
  import opened Bytes

  function Monus(a: nat, b: nat): nat { if a < b then 0 else a - b }

  /** A buffer when `inner` is null, else a rewound reader: pushed-back bytes in front of another reader. */
  class ByteReader {
    ghost var Remaining: seq<Byte>  // all that reading will yield
    ghost var Pushed: nat           // how much of that is pushed back
    ghost var Repr: set<object>

    var inner: ByteReader?
    var data: seq<Byte>             // the unread bytes of this reader alone
    var size: nat                   // the length of the slice pushed back, 0 once drained

    ghost predicate Valid()
      reads this, Repr
      decreases Repr
    {
      && this in Repr
      && Pushed <= |Remaining|
      && (inner == null ==> Remaining == data && Pushed == 0)
      && (inner != null ==>
            && inner in Repr && inner.Repr <= Repr && this !in inner.Repr
            && inner.Valid()
            && Remaining == data + inner.Remaining
            && Pushed == |data| + inner.Pushed
            && (size == 0 <==> data == []))
    }

    constructor Buffer(bytes: seq<Byte>)
      ensures Valid() && fresh(Repr)
      ensures Remaining == bytes && Pushed == 0
    {
      inner, data, size := null, bytes, 0;
      Remaining, Pushed, Repr := bytes, 0, {this};
    }

    constructor Rewind(r: ByteReader, bytes: seq<Byte>)
      requires r.Valid() && bytes != []
      ensures Valid() && fresh(Repr - r.Repr)
      ensures Remaining == bytes + r.Remaining && Pushed == |bytes| + r.Pushed
    {
      inner, data, size := r, bytes, |bytes|;
      Remaining, Pushed, Repr := bytes + r.Remaining, |bytes| + r.Pushed, {this} + r.Repr;
    }

    /** Bytes pushed back onto a reader; with none, it is the reader itself. */
    static method RewindReader(r: ByteReader, bytes: seq<Byte>) returns (rr: ByteReader)
      requires r.Valid()
      ensures rr.Valid() && fresh(rr.Repr - r.Repr)
      ensures rr.Remaining == bytes + r.Remaining && rr.Pushed == |bytes| + r.Pushed
      ensures bytes == [] ==> rr == r
    {
      if bytes == [] {
        rr := r;
      } else {
        rr := new ByteReader.Rewind(r, bytes);
      }
    }

    /**
      Reads up to `n` bytes. The end of input is reported when bytes are wanted
      of the buffer at the bottom and it is empty, even if pushed-back bytes were read.
     */
    method Read(n: nat) returns (b: seq<Byte>, eof: bool)
      requires Valid()
      modifies Repr
      ensures Valid() && Repr == old(Repr)
      ensures b == Take(old(Remaining), n)
      ensures Remaining == Drop(old(Remaining), n)
      ensures Pushed == Monus(old(Pushed), n)
      ensures eof <==> n > old(Pushed) && old(Pushed) == |old(Remaining)|
      decreases Repr
    {
      hide Take, Drop;
      if inner == null {
        eof := data == [] && n > 0;
        b, data := Take(data, n), Drop(data, n);
        Remaining := data;
      } else if size == 0 {
        assert Remaining == inner.Remaining;
        b, eof := inner.Read(n);
        Remaining, Pushed := inner.Remaining, inner.Pushed;
      } else if n < |data| {
        TakeDropConcat(data, inner.Remaining, n);
        b, data, eof := Take(data, n), Drop(data, n), false;
        Remaining, Pushed := data + inner.Remaining, |data| + inner.Pushed;
      } else {
        b, eof := DrainAndRead(n);
      }
    }

    /** Takes all that was pushed back, then reads the rest from the reader below. */
    method DrainAndRead(n: nat) returns (b: seq<Byte>, eof: bool)
      requires Valid() && inner != null && size > 0 && n >= |data|
      modifies Repr
      ensures Valid() && Repr == old(Repr)
      ensures b == Take(old(Remaining), n)
      ensures Remaining == Drop(old(Remaining), n)
      ensures Pushed == Monus(old(Pushed), n)
      ensures eof <==> n > old(Pushed) && old(Pushed) == |old(Remaining)|
      decreases Repr, 0
    {
      hide Take, Drop;
      TakeDropConcat(data, inner.Remaining, n);
      var d := data;
      data, size := [], 0;
      b, eof := inner.Read(n - |d|);
      b := d + b;
      Remaining, Pushed := inner.Remaining, inner.Pushed;
    }
  }
}
