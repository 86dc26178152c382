/** The BLE mesh frame codec (`ble_mesh/src/mesh.hpp`). */
module BleFrame {
  import opened Prelude

  /**
    The content id is a truncated hash of topic and payload and does not depend on the hop count.
    It is treated as injective, so the pair itself stands for it.
  */
  datatype FrameId = FrameId(topic: seq<byte>, payload: seq<byte>)

  datatype Frame = Frame(id: FrameId, hop: int)

  const WIRE_VER: byte := 1

  /** [ version | hop | topic length, two bytes big-endian | topic | payload ] */
  function Encode(f: Frame): seq<byte> {
    [WIRE_VER, f.hop % 256, (|f.id.topic| / 256) % 256, |f.id.topic| % 256] + f.id.topic + f.id.payload
  }

  lemma ToInt32Below(n: nat)
    ensures ToInt32(n) <= n
  {
  }

  function Decode(b: seq<byte>): Option<Frame> {
    if |b| < 4 || b[0] != WIRE_VER then None
    else
      var hop := b[1] as int;
      var tlen := Be16(b[2], b[3]);
      ToInt32Below(|b|);
      if ToInt32(|b|) < 4 + tlen then None
      else Some(Frame(FrameId(b[4..4 + tlen], b[4 + tlen..]), hop))
  }

  /** What the two length bytes and the cast of the buffer size to `int` can carry. */
  predicate Encodable(id: FrameId) {
    |id.topic| < 65536 && ToInt32(4 + |id.topic| + |id.payload|) >= 4 + |id.topic|
  }

  /** The round trip holds for exactly the encodable frames, with the hop count reduced to its wire byte. */
  lemma RoundTripIffEncodable(f: Frame)
    ensures Decode(Encode(f)) == Some(Frame(f.id, f.hop % 256)) <==> Encodable(f.id)
  {
    var b, t := Encode(f), |f.id.topic|;
    assert |b| == 4 + t + |f.id.payload|;
    if t < 65536 {
      assert Be16(b[2], b[3]) == t;
      assert b[4..4 + t] == f.id.topic && b[4 + t..] == f.id.payload;
    }
  }

  /** A frame has only one encoding: whatever decodes is the encoding of what it decodes to. */
  lemma DecodedIsCanonical(b: seq<byte>)
    requires Decode(b).Some?
    ensures Encode(Decode(b).value) == b
    ensures Encodable(Decode(b).value.id)
  {
    hide Be16;
    ToInt32Below(|b|);
    hide ToInt32;
    Be16Bytes(b[2], b[3]);
    SplitFrame(b, Be16(b[2], b[3]));
  }

  lemma Be16Bytes(hi: byte, lo: byte)
    ensures Be16(hi, lo) < 65536 && (Be16(hi, lo) / 256) % 256 == hi && Be16(hi, lo) % 256 == lo
  {
  }

  lemma SplitFrame(b: seq<byte>, tlen: nat)
    requires 4 + tlen <= |b|
    ensures b == [b[0], b[1], b[2], b[3]] + b[4..4 + tlen] + b[4 + tlen..]
  {
  }

  /** On the wire: version 1, the hop count, and the length of the topic, most significant byte first. */
  lemma HeaderBytes(topic: seq<byte>, payload: seq<byte>)
    requires |topic| == 0x0102
    ensures Encode(Frame(FrameId(topic, payload), 7)) == [0x01, 0x07, 0x01, 0x02] + topic + payload
    ensures Encode(Frame(FrameId(topic, payload), -1)) == [0x01, 0xFF, 0x01, 0x02] + topic + payload
  {
  }

  /** The bytes of one frame: topic "t", payload "hi", hop count 6. */
  lemma GoldenBytes()
    ensures Encode(Frame(FrameId([0x74], [0x68, 0x69]), 6)) == [0x01, 0x06, 0x00, 0x01, 0x74, 0x68, 0x69]
  {
  }
}
