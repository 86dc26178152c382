/** The segment wrapper with the hash it is used with (`core/src/segment_compat.hpp`): Keccak-256 over bytes. */
module SegmentHash {
  import opened Prelude
  import Keccak
  import SegmentCompat
  import SdsReceive
  import Varint

  function AsOctet(x: byte): bv8 {
    x as bv8
  }

  function Octets(b: seq<byte>): seq<bv8> {
    seq(|b|, i requires 0 <= i < |b| => AsOctet(b[i]))
  }

  function AsByte(x: bv8): byte {
    x as int
  }

  function Bytes(d: seq<bv8>): seq<byte> {
    seq(|d|, i requires 0 <= i < |d| => AsByte(d[i]))
  }

  function Keccak256(b: seq<byte>): seq<byte> {
    Bytes(Keccak.Digest(Octets(b)))
  }

  /** Bytes go into the sponge in order and unchanged. */
  lemma OctetsOf(b: seq<byte>, i: nat)
    requires i < |b|
    ensures |Octets(b)| == |b| && Octets(b)[i] as int == b[i]
  {
    hide AsOctet;
    SameOctet(b[i]);
    assert Octets(b)[i] == AsOctet(b[i]);
  }

  lemma SameOctet(x: byte)
    ensures AsOctet(x) as int == x
  {
    assert x % 256 == x;
  }

  /** And so its digest comes out. */
  lemma HashOf(b: seq<byte>, i: nat)
    requires i < 32
    ensures |Keccak.Digest(Octets(b))| == 32 && |Keccak256(b)| == 32
    ensures Keccak256(b)[i] == Keccak.Digest(Octets(b))[i] as int
  {
    hide Keccak.AbsorbAll, Keccak.Padded, Octets;
  }

  lemma HashLength(b: seq<byte>)
    ensures |Keccak256(b)| == 32
  {
    hide Keccak.AbsorbAll, Keccak.Padded;
  }

  /** Unwrapping undoes wrapping, with nothing assumed about the hash. */
  lemma UnwrapInvertsKeccakWrap(p: seq<byte>)
    requires |SegmentCompat.WrapSingle(Keccak256, p)| < Varint.TWO64
    ensures SegmentCompat.Unwrap(Keccak256, SegmentCompat.WrapSingle(Keccak256, p)) == Some(p)
    ensures SegmentCompat.IsSegmentWrapped(SegmentCompat.WrapSingle(Keccak256, p))
  {
    hide SegmentCompat.WrapSingle, SegmentCompat.Unwrap, SegmentCompat.IsSegmentWrapped, Keccak256;
    HashLength(p);
    SegmentCompat.UnwrapInvertsWrap(Keccak256, p);
  }

  /** The two library generations agree, with nothing assumed about the hash. */
  lemma GenerationsAgreeUnderKeccak(raw: seq<SdsReceive.Field>, wrapped: seq<SdsReceive.Field>, p: seq<byte>,
                                    topic: seq<byte>, eventTopic: seq<byte>, sender: seq<byte>, from: seq<byte>,
                                    rawEvent: SdsReceive.Json, wrappedEvent: SdsReceive.Json)
    requires p != [] && p[0] != 0x0A
    requires SdsReceive.Carries(raw, topic, p, rawEvent) && SdsReceive.SenderOf(raw, sender) == from
    requires SdsReceive.Carries(wrapped, topic, SegmentCompat.WrapSingle(Keccak256, p), wrappedEvent)
    requires SdsReceive.SenderOf(wrapped, sender) == from
    ensures SdsReceive.Verdicts(Keccak256, eventTopic, sender, rawEvent) == SdsReceive.Forwarded(topic, from, p)
    ensures SdsReceive.Verdicts(Keccak256, eventTopic, sender, wrappedEvent) == SdsReceive.Forwarded(topic, from, p)
  {
    hide SegmentCompat.WrapSingle, SdsReceive.Verdicts, SdsReceive.Carries, SdsReceive.SenderOf, Keccak256;
    HashLength(p);
    SdsReceive.GenerationsAgree(Keccak256, raw, wrapped, p, topic, eventTopic, sender, from, rawEvent, wrappedEvent);
  }
}
