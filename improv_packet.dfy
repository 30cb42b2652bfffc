/** The frames the Improv test script sends to the device over the serial
    line: the bytes 'I' 'M', the protocol version, the command, the payload
    length, the payload, and the CRC-8 of every byte before it.

    `EncodeFrame` is the layout as a value; `CreateImprovPacket` is the
    script's builder, which grows the packet step by step and fails where
    Python's `bytearray` rejects a value outside 0..255. `ParseFrame` is the
    receiving side's reading of the same layout and serves as the encoder's
    inverse. */
module ImprovPacket {
  import opened ImprovCrc

  const IMPROV_SERIAL_VERSION: byte := 1

  const IMPROV_CMD_GET_CURRENT_STATE: byte := 0x01
  const IMPROV_CMD_GET_DEVICE_INFO: byte := 0x02
  const IMPROV_CMD_GET_WIFI_NETWORKS: byte := 0x03
  const IMPROV_CMD_SET_WIFI: byte := 0x04

  /** `ord('I')` and `ord('M')`. */
  const HEADER_I: byte := 0x49
  const HEADER_M: byte := 0x4D

  /** Bytes of a frame that are not payload: five header bytes and the CRC. */
  const OVERHEAD: nat := 6

  /** Python raises `ValueError` when a `bytearray` is built from an integer
      outside 0..255. */
  datatype Error = ByteOutOfRange

  datatype Result<T> = Ok(value: T) | Err(error: Error)

  datatype Option<T> = None | Some(value: T)

  /** What a frame carries besides its fixed bytes. */
  datatype Frame = Frame(command: byte, data: seq<byte>)

  /** The bytes the CRC covers: header, version, command, length, payload. */
  function Body(command: byte, data: seq<byte>): seq<byte>
    requires |data| < 256
  {
    [HEADER_I, HEADER_M, IMPROV_SERIAL_VERSION, command, |data| as byte] + data
  }

  /** The complete frame: the body followed by its checksum. */
  function EncodeFrame(command: byte, data: seq<byte>): (p: seq<byte>)
    requires |data| < 256
    ensures |p| == |data| + OVERHEAD
    ensures p[5..|p| - 1] == data
  {
    var body := Body(command, data);
    body + [Crc(body)]
  }

  /** Where each field sits in an encoded frame: six bytes longer than the
      payload, the fixed header, the command and the payload length in
      bytes 0..4, the payload verbatim from byte 5, and a trailing byte that
      is the checksum of everything before it. */
  lemma FrameLayout(command: byte, data: seq<byte>)
    requires |data| < 256
    ensures |EncodeFrame(command, data)| == |data| + OVERHEAD
    ensures EncodeFrame(command, data)[..5]
      == [HEADER_I, HEADER_M, IMPROV_SERIAL_VERSION, command, |data| as byte]
    ensures EncodeFrame(command, data)[5..|data| + 5] == data
    ensures EncodeFrame(command, data)[|data| + 5] == Crc(EncodeFrame(command, data)[..|data| + 5])
  {
    var body := Body(command, data);
    var p := EncodeFrame(command, data);
    assert p[..|data| + 5] == body;
  }

  /** Integrity: the checksum over a whole frame, CRC byte included, is 0. */
  lemma FrameChecksToZero(command: byte, data: seq<byte>)
    requires |data| < 256
    ensures Crc(EncodeFrame(command, data)) == 0
  {
    var p := EncodeFrame(command, data);
    assert p[..|p| - 1] == Body(command, data);
    CrcResidue(p);
  }

  /** The receiver's reading of a frame: `None` unless the header, version
      and length byte are as the layout says and the checksum over the whole
      frame is 0. A length byte can only count up to 255 payload bytes. */
  function ParseFrame(p: seq<byte>): (r: Option<Frame>)
    ensures r.Some? ==> |r.value.data| == |p| - OVERHEAD
  {
    if OVERHEAD <= |p| < OVERHEAD + 256 && p[0] == HEADER_I && p[1] == HEADER_M
       && p[2] == IMPROV_SERIAL_VERSION && p[4] == (|p| - OVERHEAD) as byte
       && Crc(p) == 0
    then Some(Frame(p[3], p[5..|p| - 1]))
    else None
  }

  /** Every encoded frame is accepted and yields back its command and
      payload. */
  lemma ParseEncode(command: byte, data: seq<byte>)
    requires |data| < 256
    ensures ParseFrame(EncodeFrame(command, data)) == Some(Frame(command, data))
  {
    FrameLayout(command, data);
    FrameChecksToZero(command, data);
  }

  /** Every accepted byte string is the encoding of what it yields, so the
      encoder is onto the accepted frames and the parser loses nothing. */
  lemma EncodeParse(p: seq<byte>)
    requires ParseFrame(p).Some?
    ensures |ParseFrame(p).value.data| < 256
    ensures EncodeFrame(ParseFrame(p).value.command, ParseFrame(p).value.data) == p
  {
    var f := ParseFrame(p).value;
    CrcResidue(p);
    assert p[..|p| - 1] == Body(f.command, f.data);
    assert p == p[..|p| - 1] + [p[|p| - 1]];
  }

  /** Two calls that differ in command or payload never produce the same
      bytes. */
  lemma EncodeInjective(c1: byte, d1: seq<byte>, c2: byte, d2: seq<byte>)
    requires |d1| < 256 && |d2| < 256
    requires EncodeFrame(c1, d1) == EncodeFrame(c2, d2)
    ensures c1 == c2 && d1 == d2
  {
    ParseEncode(c1, d1);
    ParseEncode(c2, d2);
  }

  /** A frame with any one byte altered in transit is rejected. */
  lemma CorruptedFrameRejected(command: byte, data: seq<byte>, k: nat, y: byte)
    requires |data| < 256
    requires k < |EncodeFrame(command, data)|
    requires y != EncodeFrame(command, data)[k]
    ensures ParseFrame(EncodeFrame(command, data)[k := y]) == None
  {
    var p := EncodeFrame(command, data);
    var q := p[k := y];
    assert p == p[..k] + [p[k]] + p[k + 1..];
    assert q == p[..k] + [y] + p[k + 1..];
    SingleByteChangeDetected(p[..k], p[k], y, p[k + 1..]);
    FrameChecksToZero(command, data);
  }

  /** `create_improv_packet`: start from the five header bytes, extend with
      the payload, append the checksum of what has been built so far. The
      command and the payload length must each fit in a byte, or the
      `bytearray` constructor raises. */
  method CreateImprovPacket(command: int, data: seq<byte> := []) returns (r: Result<seq<byte>>)
    ensures r.Err? <==> !(0 <= command < 256 && |data| < 256)
    ensures r.Ok? ==> |data| < 256 && r.value == EncodeFrame(command as byte, data)
  {
    if !(0 <= command < 256) || !(|data| < 256) {
      return Err(ByteOutOfRange);
    }
    var packet: seq<byte> := [HEADER_I, HEADER_M, IMPROV_SERIAL_VERSION, command as byte, |data| as byte];
    packet := packet + data;
    var crc := CalculateCrc(packet);
    packet := packet + [crc];
    return Ok(packet);
  }
}
