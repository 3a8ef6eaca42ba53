/** The two 14-byte command frames written to the Grassy Core's GATT
    characteristic: the set-time frame, which carries hour, minute and second
    each in one byte, and the constant configuration frame. */
module CommandCodec {
  import opened Optional

  /** One octet, as the program's `uint8_t`. */
  type Byte = x: int | 0 <= x < 256

  type Frame = seq<Byte>

  /** Both frames are this many bytes long. */
  const FrameLength: nat := 14

  /** Offsets of the hour, minute and second bytes in a set-time frame. */
  const HourOffset: nat := 5
  const MinuteOffset: nat := 8
  const SecondOffset: nat := 11

  predicate IsPayloadOffset(i: int) {
    i == HourOffset || i == MinuteOffset || i == SecondOffset
  }

  /** The set-time layout: every byte outside the three payload offsets is
      fixed to the value given here (the payload positions hold 0 here and
      are never compared against it). */
  const SetTimeTemplate: Frame :=
    [0x80, 0x31, 0x06, 0x00, 0x00, 0x00, 0x00, 0x00, 0x00, 0x00, 0x00, 0x00, 0x00, 0x00]

  /** The constant configuration frame. */
  const FixedConfigBytes: Frame :=
    [0x80, 0x31, 0x01, 0x00, 0x00, 0x3B, 0x00, 0x00, 0x01, 0x00, 0x00, 0x6E, 0x01, 0x00]

  /** The two commands the program sends. */
  datatype Command =
    | SetTime(hour: Byte, minute: Byte, second: Byte)
    | FixedConfig

  /** True when `f` has the set-time layout, whatever its three payload bytes. */
  predicate HasSetTimeLayout(f: Frame) {
    && |f| == FrameLength
    && forall i :: 0 <= i < FrameLength && !IsPayloadOffset(i) ==> f[i] == SetTimeTemplate[i]
  }

  /** The bytes the program builds for a command. */
  function Encode(c: Command): (f: Frame)
    ensures |f| == FrameLength
    ensures c.SetTime? ==> HasSetTimeLayout(f)
    ensures c.SetTime? ==>
      f[HourOffset] == c.hour && f[MinuteOffset] == c.minute && f[SecondOffset] == c.second
    ensures c.FixedConfig? ==> !HasSetTimeLayout(f)
  {
    match c
    case SetTime(hour, minute, second) =>
      [0x80, 0x31, 0x06, 0x00, 0x00, hour, 0x00, 0x00, minute, 0x00, 0x00, second, 0x00, 0x00]
    case FixedConfig =>
      assert FixedConfigBytes[2] != SetTimeTemplate[2];
      FixedConfigBytes
  }

  /** Reads a frame back into the command it carries, or None when the bytes
      are neither a set-time frame nor the configuration frame.  This is how a
      receiver would interpret the frames; the program only ever encodes. */
  function Decode(f: Frame): (r: Option<Command>)
    ensures r.Some? ==> Encode(r.value) == f
  {
    if f == FixedConfigBytes then
      Some(FixedConfig)
    else if HasSetTimeLayout(f) then
      var c := SetTime(f[HourOffset], f[MinuteOffset], f[SecondOffset]);
      assert forall i :: 0 <= i < FrameLength ==> Encode(c)[i] == f[i] by {
        forall i | 0 <= i < FrameLength
          ensures Encode(c)[i] == f[i]
        {
          if !IsPayloadOffset(i) {
            assert f[i] == SetTimeTemplate[i];
          }
        }
      }
      Some(c)
    else
      None
  }

  /** Decoding an encoded command gives the command back. */
  lemma DecodeEncode(c: Command)
    ensures Decode(Encode(c)) == Some(c)
  {
  }

  /** Distinct commands are sent as distinct frames. */
  lemma EncodeInjective(c: Command, d: Command)
    ensures Encode(c) == Encode(d) <==> c == d
  {
    if Encode(c) == Encode(d) {
      DecodeEncode(c);
      DecodeEncode(d);
    }
  }
}
