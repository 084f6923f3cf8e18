/** The over-the-air frame envelope: magic, type, sequence, length, payload. */
module RadioFrame {
  import opened Words
  import opened NavTypes

  const NAV_RADIO_MAGIC0: uint8 := 0x4e
  const NAV_RADIO_MAGIC1: uint8 := 0x52
  const NAV_RADIO_HEADER_LEN := 6
  const NAV_RADIO_MAX_FRAME_BYTES := 128

  datatype Frame = Frame(kind: uint8, seqNo: uint16, payload: seq<uint8>)

  predicate Sendable(f: Frame) {
    |f.payload| <= NAV_RADIO_MAX_FRAME_BYTES
  }

  /** The bytes of a frame on the air. */
  function FrameBytes(f: Frame): seq<uint8>
    requires Sendable(f)
  {
    [NAV_RADIO_MAGIC0, NAV_RADIO_MAGIC1, f.kind, f.seqNo % 0x100, f.seqNo / 0x100, |f.payload|] + f.payload
  }

  function DecodeFrame(bytes: seq<uint8>): Result<Frame> {
    if |bytes| < NAV_RADIO_HEADER_LEN || bytes[0] != NAV_RADIO_MAGIC0 || bytes[1] != NAV_RADIO_MAGIC1 then
      Failure(BadFrame)
    else if bytes[5] > NAV_RADIO_MAX_FRAME_BYTES || |bytes| != NAV_RADIO_HEADER_LEN + bytes[5] then
      Failure(BadFrame)
    else
      Success(Frame(bytes[2], (bytes[3] as int) + 0x100 * (bytes[4] as int), bytes[NAV_RADIO_HEADER_LEN..]))
  }

  /** Decoding inverts encoding. */
  lemma DecodeInvertsEncode(f: Frame)
    requires Sendable(f)
    ensures DecodeFrame(FrameBytes(f)) == Success(f)
  {
    assert FrameBytes(f)[NAV_RADIO_HEADER_LEN..] == f.payload;
  }

  /** The decoder accepts exactly the byte strings some frame encodes to. */
  lemma DecoderAcceptsExactlyImages(bytes: seq<uint8>)
    ensures DecodeFrame(bytes).Success? <==> exists f :: Sendable(f) && FrameBytes(f) == bytes
    ensures DecodeFrame(bytes).Success? ==>
      Sendable(DecodeFrame(bytes).value) && FrameBytes(DecodeFrame(bytes).value) == bytes
  {
    if DecodeFrame(bytes).Success? {
      var f := DecodeFrame(bytes).value;
      assert FrameBytes(f) == bytes;
    }
    forall f | Sendable(f) && FrameBytes(f) == bytes
      ensures DecodeFrame(bytes).Success?
    {
      DecodeInvertsEncode(f);
    }
  }

  /** Writes a frame into a caller's buffer; a buffer too small, or a payload too long, is left untouched. */
  method EncodeFrame(f: Frame, out: array<uint8>) returns (status: Status, length: nat)
    modifies out
    ensures status ==
      if !Sendable(f) || out.Length < NAV_RADIO_HEADER_LEN + |f.payload| then BadFrame else Ok
    ensures status.Ok? ==> length <= out.Length && out[..length] == FrameBytes(f) && out[length..] == old(out[length..])
    ensures !status.Ok? ==> out[..] == old(out[..])
  {
    if |f.payload| > NAV_RADIO_MAX_FRAME_BYTES || out.Length < NAV_RADIO_HEADER_LEN + |f.payload| {
      return BadFrame, 0;
    }
    out[0] := NAV_RADIO_MAGIC0;
    out[1] := NAV_RADIO_MAGIC1;
    out[2] := f.kind;
    out[3] := f.seqNo % 0x100;
    out[4] := f.seqNo / 0x100;
    out[5] := |f.payload|;
    ghost var header := out[..NAV_RADIO_HEADER_LEN];
    for i := 0 to |f.payload|
      invariant out[..NAV_RADIO_HEADER_LEN] == header
      invariant out[NAV_RADIO_HEADER_LEN..NAV_RADIO_HEADER_LEN + i] == f.payload[..i]
      invariant out[NAV_RADIO_HEADER_LEN + |f.payload|..] == old(out[NAV_RADIO_HEADER_LEN + |f.payload|..])
    {
      out[NAV_RADIO_HEADER_LEN + i] := f.payload[i];
    }
    length := NAV_RADIO_HEADER_LEN + |f.payload|;
    assert out[..length] == out[..NAV_RADIO_HEADER_LEN] + out[NAV_RADIO_HEADER_LEN..length];
    assert f.payload[..|f.payload|] == f.payload;
    status := Ok;
  }
}
