/** The formats byte by byte, in the protocol's own numbers. */
module ProtocolBytes {
  import opened Wire
  import Scramble
  import ConfigCodec
  import C = ConfigResponse
  import E = EmbeddedBlock
  import M = ModbusMessage
  import ModbusCommand

  function Zeros(n: nat): seq<byte> { seq(n, _ => 0) }

  /** A text in a field of this width, padded with zero bytes. */
  function Padded(text: string, width: nat): seq<byte>
    requires IsAscii(text) && |text| <= width
  {
    AsciiBytes(text) + Zeros(width - |text|)
  }

  lemma NulsAreZeros(n: nat)
    ensures Repeat(NUL, n) == Zeros(n)
  {}

  lemma IdFieldIsPadded(id: string, width: nat)
    ensures IdField(id, width) == if IsAscii(id) && |id| <= width then Ok(Padded(id, width)) else Err
  {
    if |id| <= width {
      NulsAreZeros(width - |id|);
    }
  }

  // ---- config packets

  /** What a device unscrambles of any config packet, whatever trailer follows. */
  lemma ConfigBytes(messageType: int, deviceId: string, payload: seq<byte>, crc: seq<byte>)
    requires IsU16(messageType) && IsAscii(deviceId) && |deviceId| <= 16 && |payload| <= 65517
    ensures var length := 18 + |payload|;
      var built := ConfigCodec.Finalize(messageType, deviceId, payload, crc);
      && built.Ok?
      && Scramble.Scrambled(built.value)[..24 + |payload|] ==
        [0, 1, 0, 7] + [length / 256, length % 256] + [messageType / 256, messageType % 256] + Padded(deviceId, 16) +
        payload
  {
    IdFieldIsPadded(deviceId, 16);
    Scramble.UnscrambleWithTrailer(ConfigCodec.RawPacket(messageType, deviceId, payload).value, crc);
  }

  /** A read request: length 36, type 0x0119, fourteen zeros, one register. */
  lemma ReadRequestBytes(deviceId: string, registerNo: int, crc: seq<byte>)
    requires 0 <= registerNo < 65536 && IsAscii(deviceId) && |deviceId| <= 16
    ensures ConfigCodec.BuildReadPacket(deviceId, registerNo, crc).Ok?
    ensures Scramble.Scrambled(ConfigCodec.BuildReadPacket(deviceId, registerNo, crc).value)[..42] ==
      [0, 1, 0, 7] + [0, 36] + [0x01, 0x19] + Padded(deviceId, 16) +
      (Zeros(14) + [0, 1] + [registerNo / 256, registerNo % 256])
  {
    NulsAreZeros(14);
    ConfigBytes(0x0119, deviceId, Zeros(14) + [0, 1] + [registerNo / 256, registerNo % 256], crc);
  }

  /** A write: length 40 more than the value, type 0x0118, and before the value its register and length. */
  lemma WriteBytes(deviceId: string, registerNo: int, value: string, crc: seq<byte>)
    requires 0 <= registerNo < 65536 && IsAscii(deviceId) && |deviceId| <= 16 && IsAscii(value) && |value| <= 65495
    ensures ConfigCodec.BuildWritePacket(deviceId, registerNo, value, crc).Ok?
    ensures Scramble.Scrambled(ConfigCodec.BuildWritePacket(deviceId, registerNo, value, crc).value)[..46 + |value|] ==
      [0, 1, 0, 7] + [(40 + |value|) / 256, (40 + |value|) % 256] + [0x01, 0x18] + Padded(deviceId, 16) +
      (Zeros(14) + TlvBytes(registerNo, value))
  {
    ConfigCodec.WritePacketIs(deviceId, registerNo, value, crc);
    TlvIs(registerNo, value);
    ConfigBytes(0x0118, deviceId, Zeros(14) + TlvBytes(registerNo, value), crc);
  }

  lemma TlvIs(registerNo: int, value: string)
    requires 0 <= registerNo < 65536 && IsAscii(value) && |value| <= 65495
    ensures Repeat(NUL, 14) + ConfigCodec.WriteTlv(registerNo, AsciiBytes(value)) ==
      Zeros(14) + TlvBytes(registerNo, value)
  {
    NulsAreZeros(14);
  }

  function TlvBytes(registerNo: int, value: string): (bytes: seq<byte>)
    requires 0 <= registerNo < 65536 && IsAscii(value) && |value| <= 65495
    ensures |bytes| == 8 + |value|
  {
    [0, 1] + [(4 + |value|) / 256, (4 + |value|) % 256] + [registerNo / 256, registerNo % 256] +
      [|value| / 256, |value| % 256] + AsciiBytes(value)
  }

  /** A packet is read as a write exactly when its type is 0x0118 and the value that it announces ends before the
      two-byte trailer. */
  lemma DecodedWriteIff(data: seq<byte>)
    ensures ConfigCodec.Decode0118(data).Some? <==>
      |data| >= 48 && data[6] == 0x01 && data[7] == 0x18 && 46 + data[44] as int * 256 + data[45] as int <= |data| - 2
    ensures ConfigCodec.Decode0118(data).Some? ==>
      var w, length := ConfigCodec.Decode0118(data).value, data[44] as int * 256 + data[45] as int;
      && w.configType == data[38] as int * 256 + data[39] as int
      && w.tlvLength == data[40] as int * 256 + data[41] as int
      && w.register == data[42] as int * 256 + data[43] as int && w.valueLength == length
      && w.value == ConfigCodec.DecodeStrict(data[46..46 + length])
  {}

  /** The first register of a config response, where its length field fits: the bytes up to there are its value. */
  lemma FirstEntryIs(data: seq<byte>, length: int)
    requires |data| >= 47 && length == data[43] as int * 256 + data[44] as int && 0 < length <= |data| - 47
    ensures |C.EntriesOf(data)| >= 1
    ensures C.EntriesOf(data)[0] ==
      C.Entry(data[41] as int * 256 + data[42] as int, Strip(DecodeReplace(data[45..45 + length]), '\0'))
  {
    FirstTlvIsDecoded(data, length);
  }

  lemma FirstTlvIsDecoded(data: seq<byte>, length: int)
    requires |data| >= 47 && length == GetU16(data, 43) && 0 < length <= |data| - 47
    ensures |C.EntriesOf(data)| >= 1
    ensures C.EntriesOf(data)[0] == C.Decoded(C.Tlv(GetU16(data, 41), data[45..45 + length]))
  {
    C.ScanPart(data, 41, |data| - 2, length);
    EntriesAreFound(data, C.Tlv(GetU16(data, 41), data[45..45 + length]), C.Scan(data[45 + length..|data| - 2]));
  }

  lemma EntriesAreFound(data: seq<byte>, first: C.Tlv, rest: seq<C.Tlv>)
    requires |data| >= 47 && C.Scan(data[41..|data| - 2]) == [first] + rest
    ensures |C.EntriesOf(data)| >= 1 && C.EntriesOf(data)[0] == C.Decoded(first)
  {
    FirstIsDecoded([first] + rest);
  }

  /** Where it does not fit, all from there up to the trailer is one value of the older layout. */
  lemma LegacyEntryIs(data: seq<byte>, length: int)
    requires |data| >= 47 && length == data[43] as int * 256 + data[44] as int && !(0 < length <= |data| - 47)
    ensures C.EntriesOf(data) ==
      [C.Entry(data[41] as int * 256 + data[42] as int, Strip(DecodeReplace(data[45..|data| - 2]), '\0'))]
  {
    C.ScanHead(data, 41, |data| - 2);
    assert C.Scan(data[41..|data| - 2]) == [];
  }

  lemma FirstIsDecoded(found: seq<C.Tlv>)
    requires found != []
    ensures |C.DecodedAll(found)| >= 1 && C.DecodedAll(found)[0] == C.Decoded(found[0])
  {}

  // ---- Modbus messages

  /** A header is accepted exactly when it is complete, names protocol 7 and the true length, and its function is one
      of six. */
  lemma ModbusHeaderIff(buffer: seq<byte>)
    ensures M.ParseHeader(buffer).Some? <==>
      && |buffer| >= 38 && buffer[2] == 0 && buffer[3] == 7
      && buffer[4] as int * 256 + buffer[5] as int == |buffer| - 8
      && (buffer[7] == 3 || buffer[7] == 4 || buffer[7] == 5 || buffer[7] == 6 || buffer[7] == 16 || buffer[7] == 100)
  {}

  /** From here to the end, but for the trailer, if there is one, stand whole blocks. */
  ghost predicate HoldsBlocks(buffer: seq<byte>, offset: nat, blocks: seq<M.Block>, stop: nat) {
    && offset <= stop <= |buffer| && (|buffer| == stop || |buffer| == stop + 2)
    && M.AllExact(blocks) && M.BuildBlocks(blocks) == Ok(buffer[offset..stop])
  }

  lemma HeldBlocksParse(buffer: seq<byte>, offset: nat, blocks: seq<M.Block>, stop: nat)
    requires HoldsBlocks(buffer, offset, blocks, stop)
    ensures M.ParseBlocks(buffer, offset) == Some((blocks, stop))
  {
    M.BlocksBuild(blocks);
    M.ParseBlocksOfBuilt(buffer, offset, blocks);
  }

  lemma ParsedBlocksAreHeld(buffer: seq<byte>, offset: nat)
    requires offset <= |buffer| && M.ParseBlocks(buffer, offset).Some?
    requires |buffer| - M.ParseBlocks(buffer, offset).value.1 in {0, 2}
    ensures HoldsBlocks(buffer, offset, M.ParseBlocks(buffer, offset).value.0, M.ParseBlocks(buffer, offset).value.1)
  {
    M.ParseBlocksRebuild(buffer, offset);
  }

  ghost predicate HasBlocks(buffer: seq<byte>, offset: nat) {
    exists blocks, stop :: HoldsBlocks(buffer, offset, blocks, stop)
  }

  /** A message is accepted exactly when its header is, and what follows is an acknowledgement of five bytes for
      function
      6, and otherwise whole blocks, after 37 bytes of metadata for function 4; in each case with or without two
      trailing bytes. */
  lemma ModbusAcceptedIff(buffer: seq<byte>)
    ensures M.Parsed(buffer).Some? <==>
      && M.ParseHeader(buffer).Some?
      && (if buffer[7] == 6 then |buffer| == 43 || |buffer| == 45
          else HasBlocks(buffer, if buffer[7] == 4 then 75 else 38))
  {
    if M.ParseHeader(buffer).Some? && buffer[7] != 6 {
      var offset := if buffer[7] == 4 then 75 else 38;
      if M.Parsed(buffer).Some? {
        ParsedBlocksAreHeld(buffer, offset);
      }
      if HasBlocks(buffer, offset) {
        var blocks, stop :| HoldsBlocks(buffer, offset, blocks, stop);
        HeldBlocksParse(buffer, offset, blocks, stop);
      }
    }
  }

  /** A block is its first and last register and then its values, two bytes for each register. */
  lemma BlockBytes(b: M.Block)
    requires b.Exact()
    ensures M.BuildBlock(b) == Ok([b.start / 256, b.start % 256] + [b.end / 256, b.end % 256] + b.values)
    ensures 0 <= b.start <= b.end < 65536 && |b.values| == 2 * (b.end - b.start + 1)
  {}

  /** The bytes of a message before its body: protocol 7, a length that counts two trailing bytes, the function and the
      identity. */
  lemma ModbusHeaderBytes(m: M.Message)
    requires M.WellShaped(m) && M.Build(m).Ok?
    ensures IsAscii(m.deviceId) && |m.deviceId| <= 30
    ensures var bytes := M.Build(m).value;
      && 38 <= |bytes| <= 65541
      && bytes[..38] == [m.unknown / 256, m.unknown % 256] + [0, 7] + [(|bytes| - 6) / 256, (|bytes| - 6) % 256] +
        [1, m.function_] + Padded(m.deviceId, 30)
      && bytes[38..] == M.BuildBody(m).value
  {
    IdFieldIsPadded(m.deviceId, 30);
    M.BodyLayout(m);
  }

  /** The metadata of an input message: serial and time, years counted from 2000, in whole milliseconds. */
  lemma MetadataBytes(m: M.Metadata)
    requires m.timestamp.Some? && M.IsDateTime(m.timestamp.value) && M.BuildMetadata(m).Ok?
    ensures IsAscii(m.deviceSn) && |m.deviceSn| <= 30
    ensures var t, bytes := m.timestamp.value, M.BuildMetadata(m).value;
      && |bytes| == 37 && bytes[..30] == Padded(m.deviceSn, 30)
      && bytes[30] == t.year - 2000 && bytes[31] == t.month && bytes[32] == t.day && bytes[33] == t.hour
      && bytes[34] == t.minute && bytes[35] == t.second && bytes[36] == t.microsecond / 1000
  {
    IdFieldIsPadded(m.deviceSn, 30);
    var t := m.timestamp.value;
    var fields := [t.year - 2000, t.month, t.day, t.hour, t.minute, t.second, t.microsecond / 1000];
    assert fields[0] == t.year - 2000 && fields[6] == t.microsecond / 1000;
  }

  /** An acknowledgement: register, status, value. */
  lemma AckBytes(a: M.WriteAck)
    requires M.BuildAck(a).Ok?
    ensures M.BuildAck(a).value ==
      [a.registerNo / 256, a.registerNo % 256] + [a.status] + [a.value / 256, a.value % 256]
  {}

  /** A register command: its length is 36 more than what follows its two words. */
  lemma CommandBytes(h: ModbusCommand.Header, extra: nat)
    requires M.IsFunction(h.f) && ModbusCommand.Pack(h, extra).Ok?
    ensures IsAscii(h.deviceId) && |h.deviceId| <= 30
    ensures ModbusCommand.Pack(h, extra).value ==
      [0, 1] + [0, 7] + [(36 + extra) / 256, (36 + extra) % 256] + [1, h.f] + Padded(h.deviceId, 30) +
      [h.first / 256, h.first % 256] + [h.second / 256, h.second % 256]
  {
    IdFieldIsPadded(h.deviceId, 30);
  }

  /** A command is accepted exactly when it begins with 1 and protocol 7, its length covers at least the two words and
      is true with or without two trailing bytes, and its function is one of six. */
  lemma CommandHeaderIff(buffer: seq<byte>)
    ensures ModbusCommand.Unpack(buffer).Some? <==>
      && |buffer| >= 42 && buffer[0] == 0 && buffer[1] == 1 && buffer[2] == 0 && buffer[3] == 7 && buffer[6] == 1
      && (buffer[7] == 3 || buffer[7] == 4 || buffer[7] == 5 || buffer[7] == 6 || buffer[7] == 16 || buffer[7] == 100)
      && var size := buffer[4] as int * 256 + buffer[5] as int + 6;
        size >= 42 && (|buffer| == size || |buffer| == size + 2)
  {}

  // ---- embedded blocks

  /** At this distance from byte 54 stands a range of at most 2048 registers whose words end two bytes before the
      end. */
  ghost predicate BlockAt(packet: seq<byte>, offset: int) {
    && 0 <= offset && offset + 58 <= |packet|
    && var start := packet[offset + 54] as int * 256 + packet[offset + 55] as int;
      var end := packet[offset + 56] as int * 256 + packet[offset + 57] as int;
      && start <= end <= start + 2047 && offset + 58 + 2 * (end - start + 1) == |packet| - 2
  }

  lemma FitsIff(packet: seq<byte>, offset: int)
    requires |packet| >= 62
    ensures E.Fits(packet[54..], offset, |packet| - 56) <==> BlockAt(packet, offset)
  {}

  /** A block is found exactly when the packet has 62 bytes and there is one; it is the first one, with its range and
      its big-endian words. */
  lemma EmbeddedBlockIff(packet: seq<byte>)
    ensures E.Reference(packet).Some? <==> |packet| >= 62 && exists offset: int :: BlockAt(packet, offset)
    ensures E.Reference(packet).Some? ==> var b := E.Reference(packet).value;
      && BlockAt(packet, b.offset) && (forall o: int :: o < b.offset ==> !BlockAt(packet, o))
      && b.start == packet[b.offset + 54] as int * 256 + packet[b.offset + 55] as int
      && b.end == packet[b.offset + 56] as int * 256 + packet[b.offset + 57] as int
      && |b.values| == b.end - b.start + 1
      && forall i :: 0 <= i < |b.values| ==>
        b.values[i] == packet[b.offset + 58 + 2 * i] as int * 256 + packet[b.offset + 59 + 2 * i] as int
  {
    if |packet| >= 62 {
      E.ReferenceIsLargestFit(packet);
      forall o: int
        ensures E.Fits(packet[54..], o, |packet| - 56) <==> BlockAt(packet, o)
      {
        FitsIff(packet, o);
      }
      if E.Reference(packet).Some? {
        assert BlockAt(packet, E.Reference(packet).value.offset);
      }
    }
  }
}
