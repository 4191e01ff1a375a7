/** Capturing a ClientHello record from a byte stream, and giving the stream back as if untouched. */
module Stream {
  import opened Bytes
  import opened Vli

  // ----- Reading the record -----

  /** `raw` is what the capture holds, `rest` what is left on the connection. */
  datatype FirstRecord = FirstRecord(raw: seq<Byte>, ok: bool, rest: seq<Byte>)

  /** The length that a record header declares. */
  function RecordLength(stream: seq<Byte>): nat
    requires |stream| >= 5
  {
    FromBigEndian(stream[3..5])
  }

  function ReadClientHello(stream: seq<Byte>): FirstRecord {
    if |stream| < 5 then FirstRecord(ReadPadded(stream, 5), false, [])
    else if stream[0] != 0x16 then FirstRecord(stream[..5], false, stream[5..])
    else
      var n := 5 + RecordLength(stream);
      if |stream| < n then FirstRecord(ReadPadded(stream, n), false, [])
      else FirstRecord(stream[..n], true, stream[n..])
  }

  /**
    The capture can be put back before the rest of the stream just when the
    record was not cut short. A short one is filled up with zero bytes that
    were never sent.
   */
  lemma CaptureIsWhatWasRead(stream: seq<Byte>)
    ensures var c := ReadClientHello(stream);
            c.raw + c.rest == stream <==>
              |stream| >= 5 && (stream[0] == 0x16 ==> |stream| >= 5 + RecordLength(stream))
  {
  }

  /** What is captured of any stream, and when it is a whole handshake record. */
  lemma CapturedBytes(stream: seq<Byte>)
    ensures var c := ReadClientHello(stream);
            var n := if |stream| < 5 || stream[0] != 0x16 then 5 else 5 + FromBigEndian(stream[3..5]);
            && (c.ok <==> |stream| >= 5 && stream[0] == 0x16 && |stream| >= n)
            && |c.raw| == n
            && (forall i :: 0 <= i < n ==> c.raw[i] == if i < |stream| then stream[i] else 0)
            && c.rest == if |stream| >= n then stream[n..] else []
  {
  }

  // ----- The rewound connection -----

  /** The replayed bytes still to read, the size of the slice they came from (0 once dropped), and the connection. */
  datatype Conn = Conn(replay: seq<Byte>, size: nat, rest: seq<Byte>)

  function Rewind(raw: seq<Byte>, rest: seq<Byte>): Conn {
    Conn(raw, |raw|, rest)
  }

  /** A read of up to `n` bytes; the connection itself may give fewer, down to one, as `few` says. */
  function ReadConn(c: Conn, n: nat, few: nat): (seq<Byte>, Conn) {
    if c.size == 0 then
      var k := if few == 0 then 1 else few;
      var m := if n < k then n else k;
      (Take(c.rest, m), c.(rest := Drop(c.rest, m)))
    else if c.replay == [] then ([], c.(size := 0))
    else (Take(c.replay, n), c.(replay := Drop(c.replay, n)))
  }

  datatype Request = Request(n: nat, few: nat)

  /** All that a sequence of reads delivers, and the connection after them. */
  function Deliver(c: Conn, requests: seq<Request>): (seq<Byte>, Conn)
    decreases |requests|
  {
    if requests == [] then ([], c) else
      var (b, c') := ReadConn(c, requests[0].n, requests[0].few);
      var (more, c'') := Deliver(c', requests[1..]);
      (b + more, c'')
  }

  ghost predicate Valid(c: Conn) {
    c.size == 0 ==> c.replay == []
  }

  ghost function Unread(c: Conn): seq<Byte> {
    c.replay + c.rest
  }

  lemma ReadKeeps(c: Conn, n: nat, few: nat)
    requires Valid(c)
    ensures var (b, c') := ReadConn(c, n, few); Valid(c') && b + Unread(c') == Unread(c)
  {
  }

  lemma {:induction false} DeliverKeeps(c: Conn, requests: seq<Request>)
    requires Valid(c)
    ensures var (b, c') := Deliver(c, requests); Valid(c') && b + Unread(c') == Unread(c)
    decreases |requests|
  {
    hide ReadConn;
    if requests == [] {
    } else {
      ReadKeeps(c, requests[0].n, requests[0].few);
      DeliverKeeps(ReadConn(c, requests[0].n, requests[0].few).1, requests[1..]);
    }
  }

  /**
    After a ClientHello has been captured, any reads on the rewound connection
    deliver the client's original stream from its first byte.
   */
  lemma Transparent(stream: seq<Byte>, requests: seq<Request>)
    requires ReadClientHello(stream).ok
    ensures var c := ReadClientHello(stream);
            var (b, c') := Deliver(Rewind(c.raw, c.rest), requests);
            b + Unread(c') == stream
  {
    var c := ReadClientHello(stream);
    CaptureIsWhatWasRead(stream);
    DeliverKeeps(Rewind(c.raw, c.rest), requests);
  }

  /** A read that wants bytes gets some while any are left, but for just one empty read when the replay ends. */
  lemma Progress(c: Conn, n: nat, few: nat)
    requires Valid(c) && n > 0 && Unread(c) != []
    ensures var (b, c') := ReadConn(c, n, few);
            && (b == [] <==> c.size > 0 && c.replay == [])
            && (b == [] ==> c'.size == 0 && ReadConn(c', n, few).0 != [])
  {
  }

  class RewindConn {
    var reader: seq<Byte>
    var size: nat
    var conn: seq<Byte>

    ghost function Abs(): Conn
      reads this
    {
      Conn(reader, size, conn)
    }

    constructor (c: seq<Byte>, buf: seq<Byte>)
      ensures Abs() == Rewind(buf, c)
    {
      reader, size, conn := buf, |buf|, c;
    }

    method Read(n: nat, few: nat) returns (b: seq<Byte>)
      modifies this
      ensures (b, Abs()) == ReadConn(old(Abs()), n, few)
    {
      if size == 0 {
        var m := if n < (if few == 0 then 1 else few) then n else if few == 0 then 1 else few;
        b, conn := Take(conn, m), Drop(conn, m);
      } else if reader == [] {
        size, b := 0, [];
      } else {
        b, reader := Take(reader, n), Drop(reader, n);
      }
    }
  }

  // ----- The record made around a QUIC ClientHello -----

  function Record(p: seq<Byte>): seq<Byte> {
    [0x16, 0, 0, |p| / 0x100 % 0x100, |p| % 0x100] + p
  }

  method BuildRecord(p: seq<Byte>) returns (record: array<Byte>)
    ensures fresh(record) && record[..] == Record(p)
  {
    record := new Byte[5 + |p|](_ => 0);
    record[0] := 0x16;
    record[1] := 0x00;
    record[2] := 0x00;
    record[3] := |p| / 0x100 % 0x100;
    record[4] := |p| % 0x100;
    var i := 0;
    while i < |p|
      invariant 0 <= i <= |p|
      invariant record[..5] == Record(p)[..5]
      invariant record[5..5 + i] == p[..i]
    {
      record[5 + i] := p[i];
      i := i + 1;
    }
    assert record[..] == record[..5] + record[5..5 + |p|];
  }

  /** Reading the record back yields it whole just when the message is shorter than 65536 bytes. */
  lemma RecordReadsBack(p: seq<Byte>)
    ensures ReadClientHello(Record(p)) == FirstRecord(Record(p), true, []) <==> |p| < 65536
    ensures ReadClientHello(Record(p)).raw == Record(p)[..5 + |p| % 65536]
    ensures Record(p)[..3] == [0x16, 0, 0] && Record(p)[5..] == p
  {
    hide FromBigEndian;
    var r, n := Record(p), |p|;
    assert r[3..5] == [n / 0x100 % 0x100, n % 0x100];
    LowBytes(n);
    assert n < 65536 ==> r[..5 + n] == r;
  }

  lemma LowBytes(n: nat)
    ensures FromBigEndian([n / 0x100 % 0x100, n % 0x100]) == n % 0x1_0000
  {
    var a: Byte, b: Byte := n / 0x100 % 0x100, n % 0x100;
    var s: seq<Byte>, t: seq<Byte> := [a, b], [a];
    assert s[..1] == t && t[..0] == [];
    assert FromBigEndian(t) == a;
    assert n % 0x1_0000 == n / 0x100 % 0x100 * 0x100 + n % 0x100;
  }
}
