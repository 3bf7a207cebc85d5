/**
 * One hop through a local switch: a node transmits a data frame on its link, the
 * switch decodes it (ClientHandler.run) and writes it on to the next connection
 * (ClientHandler.sendFrame or sendToCCS), and the next hop decodes what was written.
 */
module EndToEnd {
  import opened Wrappers
  import opened Frames
  import opened SwitchTables
  import opened Endpoint

  /** The bytes "hello" and "iello". */
  const Hello: seq<byte> := [0x68, 0x65, 0x6C, 0x6C, 0x6F]
  const Iello: seq<byte> := [0x69, 0x65, 0x6C, 0x6C, 0x6F]

  /** What the switch decodes from the node's (possibly corrupted) transmission. */
  function SwitchDecodes(f: Frame, noise: Noise): Result<Frame, FrameError>
    requires !IsAck(f)
  {
    TransmitShape(f, noise);
    FromBytes(Transmit(f, noise)[0].bytes)
  }

  /**
   * As written: the switch re-stamps the checksum when it writes a frame on, so a data
   * frame corrupted anywhere but its size byte leaves the switch with a checksum that
   * checks. The corruption the node injected is invisible to the receiving node.
   */
  lemma SwitchHidesCorruption(f: Frame, noise: Noise, to: ConnId)
    requires WellFormed(f) && !IsAck(f) && noise.fires && noise.draw % |Encode(f)| != 3
    ensures SwitchDecodes(f, noise).Ok? && !CrcValid(SwitchDecodes(f, noise).value)
    ensures var g := FromBytes(Written(Delivery(to, SwitchDecodes(f, noise).value)));
      g.Ok? && CrcValid(g.value)
  {
    CorruptedDataIsDetected(f, noise);
    EncodeLayout(f);
  }

  /**
   * What the next hop decodes after the switch: the fields of the corrupted buffer, the
   * flipped byte included, under a checksum that checks.
   */
  lemma ArrivesWithByteFlipped(f: Frame, noise: Noise, to: ConnId)
    requires WellFormed(f) && !IsAck(f) && noise.fires && noise.draw % |Encode(f)| != 3
    ensures var i := noise.draw % |Encode(f)|;
      var b := Encode(f)[i := FlipLow(Encode(f)[i])];
      var g := FromBytes(Written(Delivery(to, SwitchDecodes(f, noise).value)));
      g.Ok? && CrcValid(g.value) && g.value.src == b[0] && g.value.dst == b[1] && g.value.data == b[HeaderLength..]
  {
    SwitchHidesCorruption(f, noise, to);
    DecodedFields(Transmit(f, noise)[0].bytes);
  }

  /** A data frame from node 17 to node 35 carrying "hello", as Frame.dataFrame builds it. */
  predicate IsHelloFrame(f: Frame) {
    WellFormed(f) && !IsAck(f) && f.src == 17 && f.dst == 35 && f.data == Hello
  }

  /** Node 17's frame is one: dataFrame(17, 35, "hello") succeeds. */
  lemma HelloFrameBuilt()
    ensures DataFrame(17, 35, Some(Hello)).Ok? && IsHelloFrame(DataFrame(17, 35, Some(Hello)).value)
  {
  }

  /**
   * For example, "hello" from node 17 to node 35 with byte 5 flipped reaches node 35 as
   * "iello" with a valid checksum; HandleDataFrame then logs it and answers OK.
   */
  lemma HelloArrivesAsIello(f: Frame, to: ConnId)
    requires IsHelloFrame(f)
    ensures var g := FromBytes(Written(Delivery(to, SwitchDecodes(f, Noise(true, 5)).value)));
      g.Ok? && CrcValid(g.value) && g.value.src == 17 && g.value.dst == 35 && g.value.data == Iello
  {
    EncodeLayout(f);
    assert |Encode(f)| == 10 && 5 % 10 == 5;
    ArrivesWithByteFlipped(f, Noise(true, 5), to);
    var b := Encode(f);
    assert b[5] == Hello[0];
    assert b[5 := 0x69][HeaderLength..] == Iello;
  }

  /**
   * And with byte 1 flipped the same frame is addressed to node 34, which receives it
   * with a valid checksum, logs it and answers OK: node 17 counts it as delivered.
   */
  lemma HelloMisdeliveredTo34(f: Frame, to: ConnId)
    requires IsHelloFrame(f)
    ensures var g := FromBytes(Written(Delivery(to, SwitchDecodes(f, Noise(true, 1)).value)));
      g.Ok? && CrcValid(g.value) && g.value.src == 17 && g.value.dst == 34 && g.value.data == Hello
  {
    EncodeLayout(f);
    assert |Encode(f)| == 10 && 1 % 10 == 1;
    ArrivesWithByteFlipped(f, Noise(true, 1), to);
    var b := Encode(f);
    assert b[1 := 34][HeaderLength..] == b[HeaderLength..];
  }

  /**
   * Corrected: a switch that relays the checksum byte it received passes the corruption
   * on, so the receiving node (or the switch itself, for a broken size byte) notices it
   * and the sender's CRC_ERR/retry path runs.
   */
  lemma RelayedCorruptionIsDetected(f: Frame, noise: Noise, to: ConnId)
    requires WellFormed(f) && !IsAck(f) && noise.fires
    ensures SwitchDecodes(f, noise).Err? ||
      var g := FromBytes(Relayed(Delivery(to, SwitchDecodes(f, noise).value)));
      g.Ok? && !CrcValid(g.value)
  {
    CorruptedDataIsDetected(f, noise);
  }

  /** Corrected, clean path: without noise the relayed frame arrives intact with a valid checksum. */
  lemma RelayedCleanFrameArrives(f: Frame, noise: Noise, to: ConnId)
    requires WellFormed(f) && !IsAck(f) && !noise.fires
    ensures var g := FromBytes(Relayed(Delivery(to, SwitchDecodes(f, noise).value)));
      g.Ok? && CrcValid(g.value) && g.value.src == f.src && g.value.dst == f.dst && g.value.data == f.data
  {
    CleanTransmissionDecodes(f, noise);
  }

  /** With the corrected relay, "hello" corrupted to "iello" reaches node 35 with a checksum that fails. */
  lemma RelayedIelloIsRejected(f: Frame, to: ConnId)
    requires IsHelloFrame(f)
    ensures var g := FromBytes(Relayed(Delivery(to, SwitchDecodes(f, Noise(true, 5)).value)));
      g.Ok? && !CrcValid(g.value) && g.value.dst == 35
  {
    EncodeLayout(f);
    assert |Encode(f)| == 10 && 5 % 10 == 5;
    RelayedCorruptionIsDetected(f, Noise(true, 5), to);
    var b := Encode(f);
    var c := b[5 := FlipLow(b[5])];
    assert |c| == 10 && c[3] == 5;
    DecodedFields(c);
  }
}
