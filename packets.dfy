/**
 * The fixed RakNet offline messages the prober exchanges: the unconnected ping
 * it sends and the start of the unconnected pong it expects back.
 */
module Packets {
  import opened Bytes

  /** Message ID of an unconnected ping. */
  const UnconnectedPing: byte := 0x01
  /** Message ID of an unconnected pong. */
  const UnconnectedPong: byte := 0x1C

  /** The client alive time the ping carries; the server echoes it in its pong. */
  const AliveTime: seq<byte> := [0x00, 0x00, 0x00, 0x00, 0x77, 0x6f, 0x6c, 0x6c]

  /** The 16-byte RakNet "offline message" magic. */
  const Magic: seq<byte> :=
    [0x00, 0xff, 0xff, 0x00, 0xfe, 0xfe, 0xfe, 0xfe, 0xfd, 0xfd, 0xfd, 0xfd, 0x12, 0x34, 0x56, 0x78]

  /** The client ID the prober announces. */
  const ClientId: seq<byte> := [0x00, 0x00, 0x00, 0x77, 0x6f, 0x6c, 0x6b, 0x65]

  /** `PING_PACKAGE`: the 33 bytes sent, written out byte by byte as the source has them. */
  const PingPackage: seq<byte> := [
    0x01,
    0x00, 0x00, 0x00, 0x00, 0x77, 0x6f, 0x6c, 0x6c,
    0x00, 0xff, 0xff, 0x00, 0xfe, 0xfe, 0xfe, 0xfe, 0xfd, 0xfd, 0xfd, 0xfd, 0x12, 0x34, 0x56,
    0x78,
    0x00, 0x00, 0x00, 0x77, 0x6f, 0x6c, 0x6b, 0x65
  ]

  /** `PONG_START`: the 9 bytes a reply must begin with. */
  const PongStart: seq<byte> := [
    0x1C,
    0x00, 0x00, 0x00, 0x00, 0x77, 0x6f, 0x6c, 0x6c
  ]

  /** The ping is the ping ID, the 8-byte alive time, the magic and the client ID, at fixed offsets. */
  lemma PingLayout()
    ensures |PingPackage| == 33
    ensures PingPackage[0] == UnconnectedPing
    ensures PingPackage[1..9] == AliveTime
    ensures PingPackage[9..25] == Magic
    ensures PingPackage[25..33] == ClientId
    ensures PingPackage == [UnconnectedPing] + AliveTime + Magic + ClientId
  {
    var p := PingPackage;
    var head, rest := [UnconnectedPing] + AliveTime, Magic + ClientId;
    assert p == head + rest;
    assert p[1..9] == head[1..];
    assert p[9..25] == rest[..16];
  }

  /**
   * The expected pong prefix is the pong ID followed by the alive time the ping
   * sent, so checking it is checking the echo.
   */
  lemma PongEchoesPing()
    ensures |PongStart| == 9
    ensures PongStart[0] == UnconnectedPong
    ensures PongStart[1..] == PingPackage[1..9]
  {
    PingLayout();
  }

  /** The pong prefix is non-zero at offsets 0 and 5 to 8, so zero bytes there can never match it. */
  lemma PongStartNonZero()
    ensures PongStart[0] != 0
    ensures forall i | 5 <= i < 9 :: PongStart[i] != 0
  {
  }
}
