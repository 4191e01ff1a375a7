/** QUIC frames that an Initial packet may carry here (sections 19.1, 19.2 and 19.6 of RFC 9000). */
module Frames {
  import opened Bytes

  datatype Fragment = Fragment(offset: nat, data: seq<Byte>) {
    function End(): nat { offset + |data| }

    predicate Covers(i: nat) { offset <= i < End() }
  }

  datatype Frame = Padding(length: nat) | Ping | Crypto(fragment: Fragment) {
    function FrameType(): nat {
      match this
      case Padding(_) => 0
      case Ping => 1
      case Crypto(_) => 6
    }
  }

  /** The CRYPTO fragments of a frame list, in order. */
  function CryptoOf(frames: seq<Frame>): seq<Fragment> {
    if frames == [] then []
    else (if frames[0].Crypto? then [frames[0].fragment] else []) + CryptoOf(frames[1..])
  }
}
