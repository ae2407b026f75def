/**
 * One unconnected ping/pong exchange, from the moment the reply arrives: the
 * reply is received into a zeroed 17-byte buffer, accepted only if it starts
 * with the expected pong prefix, and then bytes 9 to 16 are rendered as the
 * server GUID string. The socket itself is abstracted to the result of `recv`.
 */
module Prober {
  import opened Bytes
  import opened Hex
  import opened GuidText
  import opened Packets

  /** Size of the receive buffer: the reply is truncated to this many bytes. */
  const BufferLength: nat := 17
  /** Offset of the server GUID in the reply, right after the pong prefix. */
  const GuidStart: nat := 9

  /** What `recv` delivered: a datagram, or an error (a timeout among them). */
  datatype Reply = Datagram(payload: seq<byte>) | RecvError(message: string)

  /** How the probe ends: an answering server and its GUID, a reply of the wrong shape, or no reply. */
  datatype Outcome = Alive(guid: string) | Malformed | Timeout(message: string)

  /** The process exit status: `main` returns normally on success and calls `exit(1)` otherwise. */
  function ExitStatus(o: Outcome): int
  {
    if o.Alive? then 0 else 1
  }

  /** The buffer `[0; 17]` after `recv` of datagram `d`: its first bytes, zero-filled past its end. */
  function Window(d: seq<byte>): (w: seq<byte>)
    ensures |w| == BufferLength
    ensures forall i | 0 <= i < BufferLength :: w[i] == if i < |d| then d[i] else 0
  {
    if |d| >= BufferLength then d[..BufferLength] else d + seq(BufferLength - |d|, _ => 0)
  }

  /** The outcome the source reaches for a given result of `recv`. */
  function Classify(reply: Reply): Outcome
  {
    match reply
    case Datagram(d) =>
      var w := Window(d);
      if StartsWith(w, PongStart) then Alive(Render(w[GuidStart..])) else Malformed
    case RecvError(e) => Timeout(e)
  }

  /**
   * `recv` on a connected datagram socket: copies as much of the datagram as
   * fits into `buffer`, leaves the rest of the buffer alone, and returns the
   * number of bytes copied; the rest of the datagram is discarded.
   */
  method Recv(buffer: array<byte>, d: seq<byte>) returns (n: nat)
    modifies buffer
    ensures n == if |d| < buffer.Length then |d| else buffer.Length
    ensures forall i | 0 <= i < buffer.Length :: buffer[i] == if i < n then d[i] else old(buffer[i])
  {
    n := if |d| < buffer.Length then |d| else buffer.Length;
    var i := 0;
    while i < n
      invariant 0 <= i <= n
      invariant forall j | 0 <= j < buffer.Length :: buffer[j] == if j < i then d[j] else old(buffer[j])
    {
      buffer[i] := d[i];
      i := i + 1;
    }
  }

  /** Builds `server_guid` from the buffer: the first token, then a space and a token per further byte. */
  method RenderGuid(pong: array<byte>) returns (guid: string)
    requires pong.Length == BufferLength
    ensures guid == Render(pong[GuidStart..])
  {
    guid := Token(pong[GuidStart]);
    assert pong[GuidStart..GuidStart + 1] == [pong[GuidStart]];
    for i := GuidStart + 1 to pong.Length
      invariant guid == Render(pong[GuidStart..i])
    {
      RenderSnoc(pong[GuidStart..i], pong[i]);
      assert pong[GuidStart..i + 1] == pong[GuidStart..i] + [pong[i]];
      guid := guid + " " + Token(pong[i]);
    }
    assert pong[GuidStart..pong.Length] == pong[GuidStart..];
  }

  /** The reply handling of `main`: a zeroed buffer, `recv` into it, the prefix check and the GUID. */
  method Probe(reply: Reply) returns (outcome: Outcome)
    ensures outcome == Classify(reply)
  {
    var pong := new byte[BufferLength](_ => 0);
    match reply
    case Datagram(d) =>
      var received := Recv(pong, d);  // the count is ignored, as `Ok(_)` does
      assert pong[..] == Window(d);
      if StartsWith(pong[..], PongStart) {
        var guid := RenderGuid(pong);
        outcome := Alive(guid);
      } else {
        outcome := Malformed;
      }
    case RecvError(e) =>
      outcome := Timeout(e);
  }

  /**
   * A datagram is accepted exactly when its own first 9 bytes are the pong
   * prefix; every other datagram is malformed and the exit status is 1.
   */
  lemma AcceptedIff(d: seq<byte>)
    ensures Classify(Datagram(d)).Alive? <==> |d| >= GuidStart && d[..GuidStart] == PongStart
    ensures !Classify(Datagram(d)).Alive? ==> Classify(Datagram(d)) == Malformed
    ensures ExitStatus(Classify(Datagram(d))) == 0 <==> Classify(Datagram(d)).Alive?
  {
    var w := Window(d);
    StartsWithAt(w, PongStart);
    if |d| < GuidStart {
      assert w[8] == 0 != PongStart[8];
    } else if d[..GuidStart] == PongStart {
      assert w[..GuidStart] == d[..GuidStart];
    } else {
      var i :| 0 <= i < GuidStart && d[i] != PongStart[i];
      assert w[i] != PongStart[i];
    }
  }

  /**
   * A datagram shorter than the pong prefix never matches: the buffer is zero
   * past its end, and the prefix is non-zero at offset 8.
   */
  lemma ShortDatagramRejected(d: seq<byte>)
    requires |d| < GuidStart
    ensures Classify(Datagram(d)) == Malformed
    ensures ExitStatus(Classify(Datagram(d))) == 1
  {
    PongStartNonZero();
    assert Window(d)[8] == 0;
    assert Window(d)[..GuidStart][8] != PongStart[8];
  }

  /** A failed `recv` (a timeout or another error) ends the probe with exit status 1. */
  lemma RecvErrorFails(e: string)
    ensures Classify(RecvError(e)) == Timeout(e)
    ensures ExitStatus(Classify(RecvError(e))) == 1
  {
  }

  /** Only the first 17 bytes of a datagram matter: cutting off the rest changes nothing. */
  lemma TailIgnored(d: seq<byte>)
    ensures Classify(Datagram(d)) ==
            Classify(Datagram(d[..if |d| < BufferLength then |d| else BufferLength]))
  {
    var k := if |d| < BufferLength then |d| else BufferLength;
    assert Window(d) == Window(d[..k]);
  }

  /**
   * An accepted reply's GUID string is 8 well-formed tokens separated by single
   * spaces (7 in all), token `i` being that of buffer byte `9 + i`, and it parses
   * back to those 8 bytes.
   */
  lemma GuidShape(d: seq<byte>)
    requires Classify(Datagram(d)).Alive?
    ensures var g := Classify(Datagram(d)).guid;
      && |Split(g)| == 8
      && (forall i | 0 <= i < 8 :: IsToken(Split(g)[i]) && Split(g)[i] == Token(Window(d)[GuidStart + i]))
      && multiset(g)[' '] == 7
      && ParseGuid(g) == Some(Window(d)[GuidStart..])
  {
    RenderShape(Window(d)[GuidStart..]);
  }

  /**
   * A correctly prefixed reply shorter than 17 bytes is still accepted, and
   * every GUID byte it did not carry reads as zero, rendered "0".
   */
  lemma ShortReplyZeroFilled(d: seq<byte>)
    requires GuidStart <= |d| < BufferLength && d[..GuidStart] == PongStart
    ensures Classify(Datagram(d)).Alive?
    ensures var ts := Split(Classify(Datagram(d)).guid);
      && |ts| == 8
      && (forall i | 0 <= i < |d| - GuidStart :: ts[i] == Token(d[GuidStart + i]))
      && (forall i | |d| - GuidStart <= i < 8 :: ts[i] == "0")
  {
    AcceptedIff(d);
    GuidShape(d);
  }

  /**
   * A reply with tag 0x1C, the echoed alive time, GUID bytes DE AD 00 0A FF 01 23 45
   * and more bytes after them is accepted, and its GUID string reads
   * "DE AD 0 A FF 1 23 45": those eight tokens, separated by single spaces.
   */
  lemma ExampleReply()
    ensures var o := Classify(Datagram(PongStart + [0xDE, 0xAD, 0x00, 0x0A, 0xFF, 0x01, 0x23, 0x45] + Magic));
      && o.Alive?
      && o.guid == "DE AD 0 A FF 1 23 45"
      && Split(o.guid) == ["DE", "AD", "0", "A", "FF", "1", "23", "45"]
      && multiset(o.guid)[' '] == 7
  {
    var bs: seq<byte> := [0xDE, 0xAD, 0x00, 0x0A, 0xFF, 0x01, 0x23, 0x45];
    var d := PongStart + bs + Magic;
    assert d[..GuidStart] == PongStart;
    AcceptedIff(d);
    assert Window(d)[GuidStart..] == bs;
    RenderShape(bs);
    ExampleTokens();
    ExampleJoin();
  }

  /** Joining the example's eight tokens with single spaces. */
  lemma ExampleJoin()
    ensures Join(["DE", "AD", "0", "A", "FF", "1", "23", "45"]) == "DE AD 0 A FF 1 23 45"
  {
    var ts := ["DE", "AD", "0", "A", "FF", "1", "23", "45"];
    assert Join(ts[..1]) == "DE";
    assert Join(ts[..2]) == "DE AD";
    assert ts[..3][..2] == ts[..2];
    assert Join(ts[..3]) == "DE AD 0";
    assert ts[..4][..3] == ts[..3];
    assert Join(ts[..4]) == "DE AD 0 A";
    assert ts[..5][..4] == ts[..4];
    assert Join(ts[..5]) == "DE AD 0 A FF";
    assert ts[..6][..5] == ts[..5];
    assert Join(ts[..6]) == "DE AD 0 A FF 1";
    assert ts[..7][..6] == ts[..6];
    assert Join(ts[..7]) == "DE AD 0 A FF 1 23";
    assert ts[..7] == ts[..|ts| - 1];
  }

  /** The tokens of the bytes DE AD 00 0A FF 01 23 45. */
  lemma ExampleTokens()
    ensures Tokens([0xDE, 0xAD, 0x00, 0x0A, 0xFF, 0x01, 0x23, 0x45]) == ["DE", "AD", "0", "A", "FF", "1", "23", "45"]
  {
    assert Token(0xDE) == "DE" && Token(0xAD) == "AD" && Token(0x00) == "0" && Token(0x0A) == "A";
    assert Token(0xFF) == "FF" && Token(0x01) == "1" && Token(0x23) == "23" && Token(0x45) == "45";
  }
}
