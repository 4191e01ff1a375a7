/**
  The extension block of a TLS ClientHello (section 4.2 of RFC 8446), as walked
  in the raw message, and the reserved values (section 2 of RFC 8701).
 */
module Extensions {
  import opened Bytes
  import opened Sorting

  type U16 = x: int | 0 <= x < 0x1_0000

  const GREASE_PLACEHOLDER: U16 := 0x0A0A
  const ALPN: U16 := 16
  const KEY_SHARE: U16 := 51

  predicate IsGrease(v: U16) {
    v / 0x100 == v % 0x100 && v % 0x10 == 0xA
  }

  function Ungrease(v: U16): U16 {
    if IsGrease(v) then GREASE_PLACEHOLDER else v
  }

  const PSK_GREASE: seq<Byte> := [0x0B, 0x2A, 0x49, 0x68, 0x87, 0xA6, 0xC5, 0xE4]

  function UngreasePSK(v: Byte): Byte {
    if v in PSK_GREASE then 0x0B else v
  }

  function UngreaseALPN(s: seq<Byte>): seq<Byte> {
    if |s| == 2 && s[0] == s[1] && s[0] % 0x10 == 0xA then [0x0A, 0x0A] else s
  }

  /** The sixteen reserved values of section 2 of RFC 8701: 0x0A0A, 0x1A1A and so on to 0xFAFA. */
  const RESERVED: set<int> := set n | 0 <= n < 16 :: 0x0A0A + 0x1010 * n

  lemma GreaseIff(v: U16)
    ensures IsGrease(v) <==> v in RESERVED
  {
    if IsGrease(v) {
      var n := v % 0x100 / 0x10;
      assert v == 0x0A0A + 0x1010 * n;
    }
    if v in RESERVED {
      var n :| 0 <= n < 16 && v == 0x0A0A + 0x1010 * n;
      TwiceTheByte(v, 0x0A + 0x10 * n);
    }
  }

  lemma TwiceTheByte(v: U16, b: int)
    requires 0 <= b < 0x100 && v == 0x100 * b + b
    ensures v / 0x100 == b && v % 0x100 == b && v % 0x10 == b % 0x10
  {
  }

  lemma UngreaseIs(v: U16)
    ensures Ungrease(v) == if v in RESERVED then 0x0A0A else v
  {
    GreaseIff(v);
  }

  /** The `n`th of the eight reserved modes of the same section. */
  ghost predicate ReservedMode(v: Byte, n: nat) {
    n < 8 && v == 0x0B + 0x1F * n
  }

  lemma UngreasePSKIs(v: Byte)
    ensures UngreasePSK(v) == if exists n :: ReservedMode(v, n) then 0x0B else v
  {
    if i :| 0 <= i < 8 && PSK_GREASE[i] == v {
      assert ReservedMode(v, i);
    }
  }

  /** Reserved protocol names are the two bytes of a reserved value. */
  lemma UngreaseALPNIs(s: seq<Byte>)
    ensures UngreaseALPN(s) == if |s| == 2 && FromBigEndian(s) in RESERVED then [0x0A, 0x0A] else s
  {
    if |s| == 2 {
      var a: int, b: int := s[0], s[1];
      assert s[..1] == [s[0]] && s[..1][..0] == [] && FromBigEndian(s[..1]) == a;
      var v := 0x100 * a + b;
      assert v / 0x100 == a && v % 0x100 == b && v % 0x10 == b % 0x10;
      GreaseIff(v);
    }
  }

  // ----- Walking the raw extension block -----

  datatype Raw = Raw(id: U16, data: seq<Byte>)

  function U16At(s: seq<Byte>, i: nat): (v: U16)
    requires i + 2 <= |s|
  {
    FromBigEndianRoundTrip(s[i..i + 2]);
    PowersOf256();
    FromBigEndian(s[i..i + 2])
  }

  /** After the total length: groups with their lengths and data, and nothing else. */
  predicate KeySharesOk(s: seq<Byte>)
    decreases |s|
  {
    s == [] ||
    (|s| >= 4 &&
     var n := U16At(s, 2);
     4 + n <= |s| && KeySharesOk(s[4 + n..]))
  }

  predicate ExtensionOk(e: Raw) {
    e.id == KEY_SHARE ==> |e.data| >= 2 && KeySharesOk(e.data[2..])
  }

  /** The groups and lengths read until the data ends or fails; reserved groups are replaced. */
  function SharesOf(s: seq<Byte>): seq<U16>
    decreases |s|
  {
    if |s| < 4 then [] else
      var n := U16At(s, 2);
      [Ungrease(U16At(s, 0)), n] + if 4 + n <= |s| then SharesOf(s[4 + n..]) else []
  }

  /** One round of the loop over key shares. */
  lemma SharesStep(s: seq<Byte>)
    ensures s == [] ==> SharesOf(s) == [] && KeySharesOk(s)
    ensures 0 < |s| < 4 ==> SharesOf(s) == [] && !KeySharesOk(s)
    ensures |s| >= 4 ==>
              var group, n: nat := U16At(s, 0), U16At(s, 2);
              if 4 + n <= |s| then
                && SharesOf(s) == [Ungrease(group), n] + SharesOf(s[4 + n..])
                && (KeySharesOk(s) <==> KeySharesOk(s[4 + n..]))
              else SharesOf(s) == [Ungrease(group), n] && !KeySharesOk(s)
  {
  }

  /** What the walk keeps beside the IDs: the raw ALPN extension, and key share groups with their lengths. */
  datatype Extra = Extra(alpn: seq<Byte>, shares: seq<U16>)

  function Keep(x: Extra, e: Raw): Extra {
    if e.id == ALPN then x.(alpn := e.data)
    else if e.id == KEY_SHARE && |e.data| >= 2 then x.(shares := x.shares + SharesOf(e.data[2..]))
    else x
  }

  datatype Walk = Ids(ids: seq<U16>) | WalkError

  datatype NextRaw = Got(e: Raw, rest: seq<Byte>) | Bad

  function NextExtension(s: seq<Byte>): (r: NextRaw)
    ensures r.Got? ==> |r.rest| < |s|
  {
    if |s| < 4 then Bad else
      var id := FromBigEndian(s[..2]);
      var n := FromBigEndian(s[2..4]);
      FromBigEndianRoundTrip(s[..2]);
      PowersOf256();
      if |s| < 4 + n then Bad else Got(Raw(id, s[4..4 + n]), s[4 + n..])
  }

  /** The extension IDs in order, reserved ones replaced. */
  function WalkBlock(s: seq<Byte>): Walk
    decreases |s|
  {
    if s == [] then Ids([]) else
      match NextExtension(s)
      case Bad => WalkError
      case Got(e, rest) =>
        if !ExtensionOk(e) then WalkError else
          var w := WalkBlock(rest);
          if w.WalkError? then WalkError else Ids([Ungrease(e.id)] + w.ids)
  }

  /** What the walk has kept when it ends, in whatever way. */
  function KeepBlock(x: Extra, s: seq<Byte>): Extra
    decreases |s|
  {
    if s == [] then x else
      match NextExtension(s)
      case Bad => x
      case Got(e, rest) => if ExtensionOk(e) then KeepBlock(Keep(x, e), rest) else Keep(x, e)
  }

  /** The message under parse: what the walk of its raw extensions fills. */
  class RawWalk {
    var alpnWithLengths: seq<Byte>
    var keyshareGroupsWithLengths: seq<U16>
    var extensions: seq<U16>

    ghost function Abs(): Extra
      reads this
    {
      Extra(alpnWithLengths, keyshareGroupsWithLengths)
    }

    constructor ()
      ensures Abs() == Extra([], []) && extensions == []
    {
      alpnWithLengths, keyshareGroupsWithLengths, extensions := [], [], [];
    }

    method ParseKeyShares(data: seq<Byte>) returns (ok: bool)
      modifies this`keyshareGroupsWithLengths
      ensures keyshareGroupsWithLengths == old(keyshareGroupsWithLengths) + SharesOf(data)
      ensures ok <==> KeySharesOk(data)
    {
      hide Ungrease, U16At, SharesOf, KeySharesOk;
      var s := data;
      while s != []
        invariant keyshareGroupsWithLengths + SharesOf(s) == old(keyshareGroupsWithLengths) + SharesOf(data)
        invariant KeySharesOk(s) <==> KeySharesOk(data)
        decreases |s|
      {
        SharesStep(s);
        if |s| < 4 {
          return false;
        }
        var group, length: nat := U16At(s, 0), U16At(s, 2);
        keyshareGroupsWithLengths := keyshareGroupsWithLengths + [Ungrease(group), length];
        if |s| < 4 + length {
          return false;
        }
        s := s[4 + length..];
      }
      SharesStep(s);
      return true;
    }

    method ParseExtensionExtra(e: Raw) returns (id: U16, ok: bool)
      modifies this`alpnWithLengths, this`keyshareGroupsWithLengths
      ensures Abs() == Keep(old(Abs()), e)
      ensures ok <==> ExtensionOk(e)
      ensures ok ==> id == Ungrease(e.id)
    {
      id, ok := e.id, true;
      if e.id == ALPN {
        alpnWithLengths := e.data;
      } else if e.id == KEY_SHARE {
        if |e.data| < 2 {
          return 0, false;
        }
        ok := ParseKeyShares(e.data[2..]);
      } else if IsGrease(e.id) {
        id := GREASE_PLACEHOLDER;
      }
    }

    /** The IDs are stored only if the whole block was walked; the rest is kept in any case. */
    method ParseExtensionsExtra(block: seq<Byte>) returns (w: Walk)
      modifies this
      ensures w == WalkBlock(block)
      ensures Abs() == KeepBlock(old(Abs()), block)
      ensures extensions == if w.Ids? then w.ids else old(extensions)
    {
      hide NextExtension, ExtensionOk, Keep, Ungrease;
      var s, ids := block, [];
      while s != []
        invariant WalkBlock(block) == if WalkBlock(s).WalkError? then WalkError else Ids(ids + WalkBlock(s).ids)
        invariant KeepBlock(Abs(), s) == KeepBlock(old(Abs()), block)
        invariant extensions == old(extensions)
        decreases |s|
      {
        var e := NextExtension(s);
        if e.Bad? {
          return WalkError;
        }
        var id, ok := ParseExtensionExtra(e.e);
        if !ok {
          return WalkError;
        }
        ids := ids + [id];
        s := e.rest;
      }
      extensions := ids;
      return Ids(ids);
    }
  }

  function Written(e: Raw): (s: seq<Byte>)
    ensures s != []
  {
    BigEndian(e.id, 2) + BigEndian(|e.data|, 2) + e.data
  }

  function WriteBlock(es: seq<Raw>): seq<Byte> {
    if es == [] then [] else Written(es[0]) + WriteBlock(es[1..])
  }

  lemma NextInvertsWritten(e: Raw, t: seq<Byte>)
    requires |e.data| < 0x1_0000
    ensures NextExtension(Written(e) + t) == Got(e, t)
  {
    var s := Written(e) + t;
    assert s[..2] == BigEndian(e.id, 2) && s[2..4] == BigEndian(|e.data|, 2);
    assert s[4..4 + |e.data|] == e.data && s[4 + |e.data|..] == t;
    PowersOf256();
    BigEndianRoundTrip(e.id, 2);
    BigEndianRoundTrip(|e.data|, 2);
  }

  const IdOf: Raw -> U16 := (e: Raw) => Ungrease(e.id)

  ghost predicate AllOk(es: seq<Raw>) {
    forall i :: 0 <= i < |es| ==> ExtensionOk(es[i])
  }

  lemma EmptyWalk()
    ensures WalkBlock([]) == Ids([])
  {
  }

  lemma WalkFirst(e: Raw, t: seq<Byte>)
    requires |e.data| < 0x1_0000
    ensures WalkBlock(Written(e) + t) ==
              if !ExtensionOk(e) || WalkBlock(t).WalkError? then WalkError
              else Ids([Ungrease(e.id)] + WalkBlock(t).ids)
  {
    hide NextExtension, ExtensionOk, Written, Ungrease;
    NextInvertsWritten(e, t);
  }

  /** Walking a written block yields its IDs, unless a key share in it is malformed. */
  lemma {:induction false} WalkInvertsWrite(es: seq<Raw>)
    requires forall i :: 0 <= i < |es| ==> |es[i].data| < 0x1_0000
    ensures WalkBlock(WriteBlock(es)) == if AllOk(es) then Ids(Map(IdOf, es)) else WalkError
  {
    hide WalkBlock, ExtensionOk, Written, Ungrease;
    if es == [] {
      EmptyWalk();
    } else {
      WalkFirst(es[0], WriteBlock(es[1..]));
      WalkInvertsWrite(es[1..]);
      assert AllOk(es) <==> ExtensionOk(es[0]) && AllOk(es[1..]);
      assert Map(IdOf, es) == [Ungrease(es[0].id)] + Map(IdOf, es[1..]);
    }
  }

  // ----- Key shares -----

  datatype Share = Share(group: U16, key: seq<Byte>)

  function WriteShares(ks: seq<Share>): seq<Byte> {
    if ks == [] then []
    else BigEndian(ks[0].group, 2) + BigEndian(|ks[0].key|, 2) + ks[0].key + WriteShares(ks[1..])
  }

  function GroupsWithLengths(ks: seq<Share>): seq<U16>
    requires forall i :: 0 <= i < |ks| ==> |ks[i].key| < 0x1_0000
  {
    if ks == [] then [] else [Ungrease(ks[0].group), |ks[0].key|] + GroupsWithLengths(ks[1..])
  }

  lemma ShareAt(k: Share, t: seq<Byte>)
    requires |k.key| < 0x1_0000
    ensures var s := BigEndian(k.group, 2) + BigEndian(|k.key|, 2) + k.key + t;
            U16At(s, 0) == k.group && U16At(s, 2) == |k.key| && s[4 + |k.key|..] == t
  {
    var s := BigEndian(k.group, 2) + BigEndian(|k.key|, 2) + k.key + t;
    assert s[0..2] == BigEndian(k.group, 2) && s[2..4] == BigEndian(|k.key|, 2) && s[4 + |k.key|..] == t;
    PowersOf256();
    BigEndianRoundTrip(k.group, 2);
    BigEndianRoundTrip(|k.key|, 2);
  }

  /** A written list of key shares is well formed, and its groups and lengths are read back. */
  lemma {:induction false} SharesInvertWrite(ks: seq<Share>)
    requires forall i :: 0 <= i < |ks| ==> |ks[i].key| < 0x1_0000
    ensures KeySharesOk(WriteShares(ks)) && SharesOf(WriteShares(ks)) == GroupsWithLengths(ks)
  {
    hide U16At, Ungrease;
    if ks == [] {
    } else {
      SharesInvertWrite(ks[1..]);
      ShareAt(ks[0], WriteShares(ks[1..]));
    }
  }

  /** Walking a written block keeps what each of its extensions gives, in order. */
  lemma {:induction false} KeepInvertsWrite(es: seq<Raw>, x: Extra)
    requires AllOk(es) && forall i :: 0 <= i < |es| ==> |es[i].data| < 0x1_0000
    ensures KeepBlock(x, WriteBlock(es)) == KeepAll(x, es)
    decreases |es|
  {
    hide NextExtension, ExtensionOk, Written, Keep;
    if es == [] {
    } else {
      NextInvertsWritten(es[0], WriteBlock(es[1..]));
      KeepInvertsWrite(es[1..], Keep(x, es[0]));
    }
  }

  function KeepAll(x: Extra, es: seq<Raw>): Extra
    decreases |es|
  {
    if es == [] then x else KeepAll(Keep(x, es[0]), es[1..])
  }

  // ----- Nothing else is accepted -----

  lemma TwoBytesOnly(s: seq<Byte>, i: nat)
    requires i + 2 <= |s|
    ensures BigEndian(U16At(s, i), 2) == s[i..i + 2]
  {
    FromBigEndianRoundTrip(s[i..i + 2]);
  }

  ghost predicate ShortKeys(ks: seq<Share>) {
    forall i :: 0 <= i < |ks| ==> |ks[i].key| < 0x1_0000
  }

  lemma {:induction false} SharesOnly(s: seq<Byte>) returns (ks: seq<Share>)
    requires KeySharesOk(s)
    ensures ShortKeys(ks) && s == WriteShares(ks)
    decreases |s|
  {
    hide U16At, WriteShares, KeySharesOk, SharesOf, Ungrease, BigEndian;
    SharesStep(s);
    if s == [] {
      ks := [];
      NoShares();
    } else {
      var n: nat := U16At(s, 2);
      var k := Share(U16At(s, 0), s[4..4 + n]);
      var rest := SharesOnly(s[4 + n..]);
      ks := [k] + rest;
      TwoBytesOnly(s, 0);
      TwoBytesOnly(s, 2);
      FirstShare(k, rest);
      FourParts(s, n);
    }
  }

  lemma FourParts(s: seq<Byte>, n: nat)
    requires 4 + n <= |s|
    ensures s == s[0..2] + s[2..4] + s[4..4 + n] + s[4 + n..]
  {
  }

  lemma NoShares()
    ensures WriteShares([]) == []
  {
  }

  lemma FirstShare(k: Share, rest: seq<Share>)
    ensures WriteShares([k] + rest) == BigEndian(k.group, 2) + BigEndian(|k.key|, 2) + k.key + WriteShares(rest)
  {
    assert ([k] + rest)[1..] == rest;
  }

  /** An extension is accepted just when it is not a key share (51), or is two bytes and a list of key shares. */
  lemma ExtensionOkIff(e: Raw)
    ensures ExtensionOk(e) <==>
            e.id != 51 || (|e.data| >= 2 && exists ks :: ShortKeys(ks) && e.data[2..] == WriteShares(ks))
  {
    hide WriteShares;
    if e.id == 51 && |e.data| >= 2 {
      if KeySharesOk(e.data[2..]) {
        var ks := SharesOnly(e.data[2..]);
      }
      if ks :| ShortKeys(ks) && e.data[2..] == WriteShares(ks) {
        SharesInvertWrite(ks);
      }
    }
  }

  lemma NextOnlyWritten(s: seq<Byte>)
    requires NextExtension(s).Got?
    ensures var r := NextExtension(s); |r.e.data| < 0x1_0000 && s == Written(r.e) + r.rest
  {
    var n := FromBigEndian(s[2..4]);
    FromBigEndianRoundTrip(s[..2]);
    FromBigEndianRoundTrip(s[2..4]);
    PowersOf256();
    assert s == s[..2] + s[2..4] + s[4..4 + n] + s[4 + n..];
  }

  ghost predicate ShortData(es: seq<Raw>) {
    forall i :: 0 <= i < |es| ==> |es[i].data| < 0x1_0000
  }

  lemma {:induction false} WalkOnly(s: seq<Byte>) returns (es: seq<Raw>)
    requires WalkBlock(s).Ids?
    ensures ShortData(es) && AllOk(es) && s == WriteBlock(es)
    decreases |s|
  {
    hide NextExtension, ExtensionOk, Written;
    if s == [] {
      es := [];
    } else {
      var next := NextExtension(s);
      NextOnlyWritten(s);
      var rest := WalkOnly(next.rest);
      es := [next.e] + rest;
      assert es[1..] == rest;
    }
  }

  /** A block is walked to `ids` just when it is a list of acceptable extensions with these IDs, once replaced. */
  lemma WalkIff(s: seq<Byte>, ids: seq<U16>)
    ensures WalkBlock(s) == Ids(ids) <==>
            exists es :: ShortData(es) && AllOk(es) && s == WriteBlock(es) && ids == Map(IdOf, es)
  {
    hide WalkBlock, WriteBlock, AllOk, IdOf;
    if WalkBlock(s) == Ids(ids) {
      var es := WalkOnly(s);
      WalkInvertsWrite(es);
    }
    if es :| ShortData(es) && AllOk(es) && s == WriteBlock(es) && ids == Map(IdOf, es) {
      WalkInvertsWrite(es);
    }
  }

  // ----- What is kept -----

  /** The ALPN extension (16) that comes last is kept as it is. */
  lemma {:induction false} AlpnKept(x: Extra, es: seq<Raw>, j: nat)
    requires j < |es| && es[j].id == 16 && forall i :: j < i < |es| ==> es[i].id != 16
    ensures KeepAll(x, es).alpn == es[j].data
    decreases |es|
  {
    hide SharesOf;
    if j == 0 {
      assert forall i :: 0 <= i < |es[1..]| ==> es[1..][i] == es[i + 1];
      AlpnLeft(Keep(x, es[0]), es[1..]);
    } else {
      assert forall i :: 0 <= i < |es[1..]| ==> es[1..][i] == es[i + 1];
      AlpnKept(Keep(x, es[0]), es[1..], j - 1);
    }
  }

  lemma {:induction false} AlpnLeft(x: Extra, es: seq<Raw>)
    requires forall i :: 0 <= i < |es| ==> es[i].id != 16
    ensures KeepAll(x, es).alpn == x.alpn
    decreases |es|
  {
    hide SharesOf;
    if es == [] {
    } else {
      AlpnLeft(Keep(x, es[0]), es[1..]);
    }
  }

  lemma {:induction false} SharesLeft(x: Extra, es: seq<Raw>)
    requires forall i :: 0 <= i < |es| ==> es[i].id != 51
    ensures KeepAll(x, es).shares == x.shares
    decreases |es|
  {
    hide SharesOf;
    if es == [] {
    } else {
      SharesLeft(Keep(x, es[0]), es[1..]);
    }
  }

  /** Of the one key share extension (51) the groups and lengths are kept. */
  lemma {:induction false} SharesKept(x: Extra, es: seq<Raw>, j: nat, ks: seq<Share>)
    requires j < |es| && es[j].id == 51 && forall i :: 0 <= i < |es| && i != j ==> es[i].id != 51
    requires ShortKeys(ks) && |es[j].data| >= 2 && es[j].data[2..] == WriteShares(ks)
    ensures KeepAll(x, es).shares == x.shares + GroupsWithLengths(ks)
    decreases |es|
  {
    hide SharesOf, WriteShares, GroupsWithLengths;
    assert forall i :: 0 <= i < |es[1..]| ==> es[1..][i] == es[i + 1];
    if j == 0 {
      SharesInvertWrite(ks);
      SharesLeft(Keep(x, es[0]), es[1..]);
    } else {
      SharesKept(Keep(x, es[0]), es[1..], j - 1, ks);
    }
  }
}
