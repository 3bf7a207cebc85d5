/**
 * The frame wire format: a 5-byte header [src, dst, crc, sizeOrAck, ackType]
 * followed by 0..255 payload bytes. `sizeOrAck == 0` marks an acknowledgment;
 * the "CRC" is the low byte of the sum of all bytes with byte 2 taken as 0.
 */
module Frames {
  import opened Wrappers

  /** An unsigned byte; Java's signed bytes are always read back with `& 0xFF`. */
  type byte = b: int | 0 <= b < 256

  const AckTimeout: byte := 0x00
  const AckCrcErr: byte := 0x01
  const AckFirewall: byte := 0x10
  const AckOk: byte := 0x11

  const HeaderLength := 5
  const MaxPayload := 255

  /** A frame as held in memory; `crc` is the checksum byte read off the wire (0 when built locally). */
  datatype Frame = Frame(src: byte, dst: byte, sizeOrAck: byte, ackType: byte, data: seq<byte>, crc: byte)

  datatype FrameError =
    | NullPayload
    | BadPayloadLength(length: nat)
    | TooShort(length: nat)
    | LengthMismatch(expected: nat, actual: nat)

  /** The low eight bits of a Java int, as `x & 0xFF` computes them. */
  function LowByte(x: int): byte {
    x % 256
  }

  predicate IsAck(f: Frame) {
    f.sizeOrAck == 0
  }

  /** The frames the public constructors and the decoder produce: the size field counts the payload. */
  predicate WellFormed(f: Frame) {
    |f.data| == f.sizeOrAck
  }

  /** Frame.dataFrame: a payload of 1..255 bytes; `None` is a null payload. */
  function DataFrame(src: int, dst: int, payload: Option<seq<byte>>): (r: Result<Frame, FrameError>)
    ensures r.Ok? <==> payload.Some? && 1 <= |payload.value| <= MaxPayload
    ensures r.Ok? ==> WellFormed(r.value) && !IsAck(r.value) && r.value.ackType == 0
    ensures r.Ok? ==> r.value.data == payload.value && r.value.sizeOrAck == |payload.value|
    ensures r.Ok? ==> r.value.src == src % 256 && r.value.dst == dst % 256 && r.value.crc == 0
    ensures payload.None? ==> r == Err(NullPayload)
  {
    if payload.None? then Err(NullPayload)
    else if |payload.value| == 0 || |payload.value| > MaxPayload then Err(BadPayloadLength(|payload.value|))
    else Ok(Frame(LowByte(src), LowByte(dst), LowByte(|payload.value|), 0x00, payload.value, 0x00))
  }

  /** Frame.ackFrame: never carries a payload. */
  function AckFrame(src: int, dst: int, ackType: byte): (r: Frame)
    ensures IsAck(r) && WellFormed(r) && r.data == []
    ensures r.ackType == ackType && r.src == src % 256 && r.dst == dst % 256 && r.crc == 0
  {
    Frame(LowByte(src), LowByte(dst), 0, ackType, [], 0x00)
  }

  /** The serialised header and payload with byte 2 still zero. */
  function Unstamped(f: Frame): seq<byte> {
    [f.src, f.dst, 0, f.sizeOrAck, f.ackType] + f.data
  }

  /** Sum of all bytes, accumulated from the front as the checksum loop does. */
  function Sum(s: seq<byte>): nat {
    if |s| == 0 then 0 else Sum(s[..|s| - 1]) + s[|s| - 1]
  }

  /** Frame.computeCrc: the low byte of the sum, which a byte-wide running sum also reaches. */
  function Checksum(s: seq<byte>): (c: byte)
    ensures |s| > 0 ==> c == (Sum(s[..|s| - 1]) % 256 + s[|s| - 1]) % 256
  {
    if |s| > 0 then ModOfSum(Sum(s[..|s| - 1]), s[|s| - 1]); Sum(s) % 256 else 0
  }

  lemma ModOfSum(a: nat, x: nat)
    ensures (a + x) % 256 == (a % 256 + x) % 256
  {
    assert a == a / 256 * 256 + a % 256;
    assert a + x == a / 256 * 256 + (a % 256 + x);
  }

  /** The bytes Frame.toBytes produces. */
  function Encode(f: Frame): (b: seq<byte>)
    ensures |b| == HeaderLength + |f.data|
  {
    Unstamped(f)[2 := Checksum(Unstamped(f))]
  }

  /** Frame.isCrcValid: the stored checksum matches a recomputation over the fields. */
  predicate CrcValid(f: Frame)
    ensures CrcValid(f) <==> f.crc == Encode(f)[2]
  {
    f.crc == Checksum(Unstamped(f))
  }

  /** Frame.fromBytes: checks the lengths, never the checksum. */
  function FromBytes(buf: seq<byte>): (r: Result<Frame, FrameError>)
    ensures r.Ok? <==> |buf| >= HeaderLength && |buf| == HeaderLength + buf[3]
    ensures |buf| < HeaderLength ==> r == Err(TooShort(|buf|))
    ensures r.Ok? ==> WellFormed(r.value) && r.value.crc == buf[2]
    ensures r.Ok? ==> Unstamped(r.value) == buf[2 := 0]
  {
    if |buf| < HeaderLength then Err(TooShort(|buf|))
    else
      var size := buf[3];
      var expected := HeaderLength + (if size > 0 then size else 0);
      if |buf| != expected then Err(LengthMismatch(expected, |buf|))
      else
        var data := if size > 0 then buf[HeaderLength..HeaderLength + size] else [];
        Ok(Frame(buf[0], buf[1], buf[3], buf[4], data, buf[2]))
  }

  /** Frame.computeCrc: an accumulator loop over the buffer. */
  method ComputeCrc(buf: array<byte>) returns (crc: byte)
    ensures crc == Checksum(buf[..])
  {
    var sum: nat := 0;
    for i := 0 to buf.Length
      invariant sum == Sum(buf[..i])
    {
      assert buf[..i + 1][..i] == buf[..i];
      sum := sum + buf[i];
    }
    assert buf[..] == buf[..buf.Length];
    crc := sum % 256;
  }

  /** Fills a fresh buffer with header and payload, byte 2 zero (shared by toBytes and isCrcValid). */
  method Serialize(f: Frame) returns (buf: array<byte>)
    ensures fresh(buf) && buf[..] == Unstamped(f)
  {
    buf := new byte[HeaderLength + |f.data|](_ => 0);
    buf[0], buf[1], buf[2], buf[3], buf[4] := f.src, f.dst, 0x00, f.sizeOrAck, f.ackType;
    forall j | 0 <= j < |f.data| {
      buf[HeaderLength + j] := f.data[j];
    }
    assert buf[..] == Unstamped(f);
  }

  /** Frame.toBytes: serialise, then stamp the checksum into byte 2. */
  method ToBytes(f: Frame) returns (buf: array<byte>)
    ensures fresh(buf) && buf[..] == Encode(f)
  {
    buf := Serialize(f);
    var crc := ComputeCrc(buf);
    buf[2] := crc;
  }

  /** Frame.isCrcValid: serialise the fields with byte 2 zero, recompute with computeCrc, compare. */
  method IsCrcValid(f: Frame) returns (ok: bool)
    ensures ok <==> CrcValid(f)
  {
    var buf := Serialize(f);
    var recomputed := ComputeCrc(buf);
    ok := recomputed == f.crc;
  }

  /** toBytes produces exactly 5 + |data| bytes in the documented layout, with byte 2 stamped. */
  lemma EncodeLayout(f: Frame)
    ensures |Encode(f)| == HeaderLength + |f.data|
    ensures Encode(f)[0] == f.src && Encode(f)[1] == f.dst
    ensures Encode(f)[3] == f.sizeOrAck && Encode(f)[4] == f.ackType
    ensures Encode(f)[HeaderLength..] == f.data
    ensures Encode(f)[2] == Checksum(Encode(f)[2 := 0])
  {
    assert Encode(f)[2 := 0] == Unstamped(f);
  }

  /** Decoding an encoded well-formed frame gives back every field, and its checksum checks. */
  lemma RoundTrip(f: Frame)
    requires WellFormed(f)
    ensures FromBytes(Encode(f)).Ok?
    ensures var g := FromBytes(Encode(f)).value;
      g.src == f.src && g.dst == f.dst && g.sizeOrAck == f.sizeOrAck && g.ackType == f.ackType
      && g.data == f.data && IsAck(g) == IsAck(f) && CrcValid(g)
  {
    var e := Encode(f);
    EncodeLayout(f);
    var g := FromBytes(e).value;
    assert g.data == e[HeaderLength..];
    assert Unstamped(g) == Unstamped(f);
  }

  /** Conversely, a buffer that decodes to a frame whose checksum checks is that frame's encoding. */
  lemma EncodeFromBytes(buf: seq<byte>)
    requires FromBytes(buf).Ok? && CrcValid(FromBytes(buf).value)
    ensures Encode(FromBytes(buf).value) == buf
  {
    var g := FromBytes(buf).value;
    assert Unstamped(g) == buf[2 := 0];
    assert Encode(g) == buf[2 := 0][2 := buf[2]];
  }

  /** fromBytes reads each field from its place in the buffer. */
  lemma DecodedFields(buf: seq<byte>)
    requires FromBytes(buf).Ok?
    ensures var g := FromBytes(buf).value;
      g.src == buf[0] && g.dst == buf[1] && g.sizeOrAck == buf[3] && g.ackType == buf[4]
      && g.data == buf[HeaderLength..]
  {
    var g := FromBytes(buf).value;
    assert Unstamped(g)[HeaderLength..] == g.data;
  }

  /** fromBytes accepts a wrong checksum; only isCrcValid shows the mismatch. */
  lemma DecodeIgnoresChecksum(buf: seq<byte>)
    requires |buf| >= HeaderLength && |buf| == HeaderLength + buf[3]
    ensures FromBytes(buf).Ok?
    ensures CrcValid(FromBytes(buf).value) <==> buf[2] == Checksum(buf[2 := 0])
  {
  }

  /** Changing one byte changes the sum by the difference. */
  lemma {:induction false} SumUpdate(s: seq<byte>, i: nat, v: byte)
    requires i < |s|
    ensures Sum(s[i := v]) == Sum(s) - s[i] + v
  {
    var n := |s| - 1;
    assert s[i := v][..n] == if i < n then s[..n][i := v] else s[..n];
    if i < n {
      SumUpdate(s[..n], i, v);
    }
  }

  /** So replacing one byte by a different one always changes the checksum. */
  lemma ChecksumNoticesChange(s: seq<byte>, i: nat, v: byte)
    requires i < |s| && v != s[i]
    ensures Checksum(s[i := v]) != Checksum(s)
  {
    SumUpdate(s, i, v);
    ModDiffers(Sum(s[i := v]), Sum(s));
  }

  /** Two sums less than 256 apart but not equal leave different low bytes. */
  lemma ModDiffers(a: nat, b: nat)
    requires a != b && -256 < a - b < 256
    ensures a % 256 != b % 256
  {
    assert a == a / 256 * 256 + a % 256;
    assert b == b / 256 * 256 + b % 256;
  }

  /**
   * Any single-byte change to an encoded well-formed frame is noticed by the receiver:
   * either fromBytes rejects the length, or the decoded frame's checksum does not check.
   */
  lemma SingleByteChangeDetected(f: Frame, i: nat, v: byte)
    requires WellFormed(f) && i < |Encode(f)| && v != Encode(f)[i]
    ensures var r := FromBytes(Encode(f)[i := v]); r.Err? || !CrcValid(r.value)
  {
    var u := Unstamped(f);
    var c := Encode(f)[i := v];
    EncodeLayout(f);
    var r := FromBytes(c);
    if r.Ok? {
      assert i != 3;
      if i == 2 {
        assert c[2 := 0] == u;
      } else {
        assert c[2 := 0] == u[i := v];
        ChecksumNoticesChange(u, i, v);
      }
    }
  }
}
