/** Config-register packets to a device: 0x0118 writes and 0x0119 read requests. */
module ConfigCodec {
  import opened Wire
  import opened Scramble

  const READ_TYPE := 0x0119
  const WRITE_TYPE := 0x0118
  const HEADER: seq<byte> := [0, 1, 0, 7]
  const ID_WIDTH := 16
  const RESERVED := 14

  /** _finalize_config_packet up to the scramble; the checksum is appended by the caller. */
  function RawPacket(messageType: int, deviceId: string, payload: seq<byte>): (r: Result<seq<byte>>)
    requires IsU16(messageType)
    ensures r.Ok? <==> |payload| + 18 <= 0xFFFF && IsAscii(deviceId) && |deviceId| <= ID_WIDTH
    ensures r.Ok? ==> |r.value| == 24 + |payload|
  {
    var length := |payload| + 18;
    if length > 0xFFFF then Err else
    match IdField(deviceId, ID_WIDTH)
    case Err => Err
    case Ok(field) => Ok(HEADER + PutU16(length) + PutU16(messageType) + field + payload)
  }

  /** crc stands for the two checksum bytes, whatever they are. */
  function Finalize(messageType: int, deviceId: string, payload: seq<byte>, crc: seq<byte>): Result<seq<byte>>
    requires IsU16(messageType)
  {
    match RawPacket(messageType, deviceId, payload)
    case Err => Err
    case Ok(raw) => Ok(Scrambled(raw) + crc)
  }

  function BuildReadPacket(deviceId: string, registerNo: int, crc: seq<byte>): Result<seq<byte>> {
    if !IsU16(registerNo) then Err
    else Finalize(READ_TYPE, deviceId, Repeat(NUL, RESERVED) + PutU16(1) + PutU16(registerNo), crc)
  }

  function WriteTlv(registerNo: int, value: seq<byte>): seq<byte>
    requires IsU16(registerNo) && |value| <= 0xFFFF - 4
  {
    PutU16(1) + PutU16(|value| + 4) + PutU16(registerNo) + PutU16(|value|) + value
  }

  function BuildWritePacket(deviceId: string, registerNo: int, value: string, crc: seq<byte>): Result<seq<byte>> {
    if !IsU16(registerNo) then Err else
    match EncodeAscii(value)
    case Err => Err
    case Ok(bytes) =>
      if |bytes| > 0xFFFF - 40 then Err
      else Finalize(WRITE_TYPE, deviceId, Repeat(NUL, RESERVED) + WriteTlv(registerNo, bytes), crc)
  }

  datatype ConfigValue = Ascii(text: string) | Hex(raw: seq<byte>)

  datatype ConfigWrite = ConfigWrite(
    deviceId: string, configType: int, tlvLength: int, register: int, valueLength: int, value: ConfigValue)

  function DecodeStrict(raw: seq<byte>): ConfigValue {
    if forall i :: 0 <= i < |raw| ==> raw[i] < 128 then Ascii(DecodeReplace(raw)) else Hex(raw)
  }

  /** decode_0118 on an unscrambled packet. */
  function Decode0118(data: seq<byte>): Option<ConfigWrite> {
    if |data| < 46 || GetU16(data, 6) != WRITE_TYPE then None
    else if 46 > |data| - 2 then None
    else
      var valueLength := GetU16(data, 44);
      if 46 + valueLength > |data| - 2 then None
      else Some(ConfigWrite(
        ReadRightPadded(data[8..24]), GetU16(data, 38), GetU16(data, 40), GetU16(data, 42), valueLength,
        DecodeStrict(data[46..46 + valueLength])))
  }

  /** Where the parts of a raw packet end up. */
  lemma RawPacketLayout(messageType: int, deviceId: string, payload: seq<byte>)
    requires IsU16(messageType) && RawPacket(messageType, deviceId, payload).Ok?
    ensures var raw := RawPacket(messageType, deviceId, payload).value;
      && GetU16(raw, 4) == |payload| + 18
      && GetU16(raw, 6) == messageType
      && raw[8..24] == IdField(deviceId, ID_WIDTH).value
      && raw[24..] == payload
  {
    var raw := RawPacket(messageType, deviceId, payload).value;
    assert raw[4..6] == PutU16(|payload| + 18) && raw[6..8] == PutU16(messageType);
    GetPutU16(raw, 4, |payload| + 18);
    GetPutU16(raw, 6, messageType);
  }

  lemma WriteTlvLayout(prefix: seq<byte>, registerNo: int, value: seq<byte>, suffix: seq<byte>)
    requires IsU16(registerNo) && |value| <= 0xFFFF - 4
    ensures var data, at := prefix + WriteTlv(registerNo, value) + suffix, |prefix|;
      && GetU16(data, at) == 1 && GetU16(data, at + 2) == |value| + 4
      && GetU16(data, at + 4) == registerNo && GetU16(data, at + 6) == |value|
      && data[at + 8..at + 8 + |value|] == value
  {
    var data, at := prefix + WriteTlv(registerNo, value) + suffix, |prefix|;
    assert data[at..at + 2] == PutU16(1) && data[at + 2..at + 4] == PutU16(|value| + 4);
    assert data[at + 4..at + 6] == PutU16(registerNo) && data[at + 6..at + 8] == PutU16(|value|);
    GetPutU16(data, at, 1);
    GetPutU16(data, at + 2, |value| + 4);
    GetPutU16(data, at + 4, registerNo);
    GetPutU16(data, at + 6, |value|);
  }

  /** Exactly when a config write can be built: nothing else is refused. */
  lemma WriteBuildsIff(deviceId: string, registerNo: int, value: string, crc: seq<byte>)
    ensures BuildWritePacket(deviceId, registerNo, value, crc).Ok? <==>
      IsU16(registerNo) && IsAscii(value) && |value| <= 0xFFFF - 40 && IsAscii(deviceId) && |deviceId| <= ID_WIDTH
  {}

  /** What any receiver sees of a finished packet after unscrambling it, trailer included. */
  lemma FinalizeArrives(messageType: int, deviceId: string, payload: seq<byte>, crc: seq<byte>)
    requires IsU16(messageType) && RawPacket(messageType, deviceId, payload).Ok?
    ensures var received := Scrambled(Finalize(messageType, deviceId, payload, crc).value);
      && |received| == 24 + |payload| + |crc|
      && GetU16(received, 6) == messageType
      && ReadRightPadded(received[8..24]) == RStrip(deviceId, '\0')
      && received[24..24 + |payload|] == payload
  {
    var raw := RawPacket(messageType, deviceId, payload).value;
    var received := Scrambled(Scrambled(raw) + crc);
    UnscrambleWithTrailer(raw, crc);
    RawPacketLayout(messageType, deviceId, payload);
    assert received[..|raw|] == raw;
    assert received[6] == raw[6] && received[7] == raw[7];
    assert received[8..24] == received[..|raw|][8..24];
    assert received[24..24 + |payload|] == received[..|raw|][24..];
    IdFieldReadBack(deviceId, ID_WIDTH);
  }

  /** The decoder on any packet whose body is a write TLV before a two-byte trailer. */
  lemma DecodeReadsWriteTlv(data: seq<byte>, registerNo: int, value: seq<byte>)
    requires IsU16(registerNo) && |value| <= 0xFFFF - 4
    requires |data| == 48 + |value| && GetU16(data, 6) == WRITE_TYPE
    requires data[24..46 + |value|] == Repeat(NUL, RESERVED) + WriteTlv(registerNo, value)
    ensures Decode0118(data) == Some(ConfigWrite(
      ReadRightPadded(data[8..24]), 1, |value| + 4, registerNo, |value|, DecodeStrict(value)))
  {
    var prefix, tail := data[..24] + Repeat(NUL, RESERVED), data[46 + |value|..];
    assert data == data[..24] + data[24..46 + |value|] + tail;
    assert data == prefix + WriteTlv(registerNo, value) + tail;
    WriteTlvLayout(prefix, registerNo, value, tail);
  }

  /** The packet that a buildable write is. */
  lemma WritePacketIs(deviceId: string, registerNo: int, value: string, crc: seq<byte>)
    requires BuildWritePacket(deviceId, registerNo, value, crc).Ok?
    ensures IsU16(registerNo) && IsAscii(value) && |value| <= 0xFFFF - 40
    ensures var payload := Repeat(NUL, RESERVED) + WriteTlv(registerNo, AsciiBytes(value));
      RawPacket(WRITE_TYPE, deviceId, payload).Ok?
      && BuildWritePacket(deviceId, registerNo, value, crc) == Finalize(WRITE_TYPE, deviceId, payload, crc)
  {}

  lemma AsciiDecodesStrictly(value: string)
    requires IsAscii(value)
    ensures DecodeStrict(AsciiBytes(value)) == Ascii(value)
  {
    DecodeEncoded(value);
  }

  /** Build, send, unscramble with any two trailer bytes, decode: the same write comes back. */
  lemma {:induction false} WriteRoundTrip(deviceId: string, registerNo: int, value: string, crc: seq<byte>)
    requires |crc| == 2
    requires BuildWritePacket(deviceId, registerNo, value, crc).Ok?
    ensures Decode0118(Scrambled(BuildWritePacket(deviceId, registerNo, value, crc).value)) ==
      Some(ConfigWrite(RStrip(deviceId, '\0'), 1, |value| + 4, registerNo, |value|, Ascii(value)))
  {
    WritePacketIs(deviceId, registerNo, value, crc);
    var payload := Repeat(NUL, RESERVED) + WriteTlv(registerNo, AsciiBytes(value));
    FinalizeArrives(WRITE_TYPE, deviceId, payload, crc);
    DecodeReadsWriteTlv(Scrambled(Finalize(WRITE_TYPE, deviceId, payload, crc).value), registerNo, AsciiBytes(value));
    AsciiDecodesStrictly(value);
  }

  /** The identity itself survives exactly when it does not end in NUL. */
  lemma {:induction false} WriteIdentitySurvivesIff(deviceId: string, registerNo: int, value: string, crc: seq<byte>)
    requires |crc| == 2
    requires BuildWritePacket(deviceId, registerNo, value, crc).Ok?
    ensures Decode0118(Scrambled(BuildWritePacket(deviceId, registerNo, value, crc).value)).Some?
    ensures Decode0118(Scrambled(BuildWritePacket(deviceId, registerNo, value, crc).value)).value.deviceId == deviceId
      <==> EndsClear(deviceId, '\0')
  {
    WriteRoundTrip(deviceId, registerNo, value, crc);
    StripUnchangedIff(deviceId, '\0');
  }

  /** A read request carries its type, identity and register through the same wrapping. */
  lemma {:induction false} ReadRequestArrives(deviceId: string, registerNo: int, crc: seq<byte>)
    requires BuildReadPacket(deviceId, registerNo, crc).Ok?
    ensures var received := Scrambled(BuildReadPacket(deviceId, registerNo, crc).value);
      && |received| == 42 + |crc| && GetU16(received, 6) == READ_TYPE
      && ReadRightPadded(received[8..24]) == RStrip(deviceId, '\0')
      && received[24..42] == Repeat(NUL, RESERVED) + PutU16(1) + PutU16(registerNo)
  {
    FinalizeArrives(READ_TYPE, deviceId, Repeat(NUL, RESERVED) + PutU16(1) + PutU16(registerNo), crc);
  }
}
