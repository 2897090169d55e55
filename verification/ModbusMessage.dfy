/** Growatt Modbus messages: header, optional metadata, register blocks or a write acknowledgement. */
module ModbusMessage {
  import opened Wire

  const HEADER_SIZE := 38
  const METADATA_SIZE := 37
  const ACK_SIZE := 5
  const MIN_BLOCK_SIZE := 6
  const TRAILER_SIZE := 2
  const ID_WIDTH := 30

  const READ_INPUT := 4
  const PRESET_SINGLE := 6

  predicate IsFunction(f: int) { f in {3, 4, 5, 6, 16, 100} }

  datatype Block = Block(start: int, end: int, values: seq<byte>) {
    /** A block whose byte count matches its range. */
    predicate Exact() { IsU16(start) && IsU16(end) && start <= end && |values| == (end - start + 1) * 2 }

    function Size(): nat { 4 + |values| }
  }

  datatype Timestamp = Timestamp(year: int, month: int, day: int, hour: int, minute: int, second: int, microsecond: int)

  function DaysInMonth(year: int, month: int): int {
    if month == 2 then (if year % 4 == 0 && (year % 100 != 0 || year % 400 == 0) then 29 else 28)
    else if month in {4, 6, 9, 11} then 30 else 31
  }

  /** The values that datetime accepts. */
  predicate IsDateTime(t: Timestamp) {
    && 1 <= t.year <= 9999 && 1 <= t.month <= 12 && 1 <= t.day <= DaysInMonth(t.year, t.month)
    && 0 <= t.hour < 24 && 0 <= t.minute < 60 && 0 <= t.second < 60 && 0 <= t.microsecond < 1_000_000
  }

  datatype Metadata = Metadata(deviceSn: string, timestamp: Option<Timestamp>)

  datatype WriteAck = WriteAck(registerNo: int, value: int, status: int)

  datatype Message = Message(
    unknown: int, deviceId: string, metadata: Option<Metadata>, function_: int, blocks: seq<Block>,
    ack: Option<WriteAck>)

  // ---- building

  function BuildBlock(b: Block): Result<seq<byte>> {
    if IsU16(b.start) && IsU16(b.end) then Ok(PutU16(b.start) + PutU16(b.end) + b.values) else Err
  }

  function BuildBlocks(blocks: seq<Block>): Result<seq<byte>> {
    if blocks == [] then Ok([]) else
    match (BuildBlock(blocks[0]), BuildBlocks(blocks[1..]))
    case (Ok(first), Ok(rest)) => Ok(first + rest)
    case _ => Err
  }

  predicate IsByte(n: int) { 0 <= n < 256 }

  /** struct.pack of single bytes, which raises when one of them does not fit */
  function PackBytes(fields: seq<int>): (r: Result<seq<byte>>)
    ensures r.Ok? ==> |r.value| == |fields| && forall i :: 0 <= i < |fields| ==> r.value[i] == fields[i]
  {
    if forall i :: 0 <= i < |fields| ==> IsByte(fields[i])
      then Ok(seq(|fields|, i requires 0 <= i < |fields| && IsByte(fields[i]) => fields[i]))
    else Err
  }

  /** Of the seven fields only the year and the milliseconds can fail to fit. */
  function PackTimestamp(t: Timestamp): (r: Result<seq<byte>>)
    requires IsDateTime(t)
    ensures r.Ok? <==> 2000 <= t.year <= 2255 && t.microsecond < 256_000
    ensures r.Ok? ==> |r.value| == 7
  {
    var fields := [t.year - 2000, t.month, t.day, t.hour, t.minute, t.second, t.microsecond / 1000];
    assert fields[0] == t.year - 2000 && fields[6] == t.microsecond / 1000;
    PackBytes(fields)
  }

  function BuildMetadata(m: Metadata): (r: Result<seq<byte>>)
    requires m.timestamp.Some? ==> IsDateTime(m.timestamp.value)
    ensures r.Ok? ==> |r.value| == METADATA_SIZE
  {
    if m.timestamp.None? then Err else
    match (IdField(m.deviceSn, ID_WIDTH), PackTimestamp(m.timestamp.value))
    case (Ok(id), Ok(stamp)) => Ok(id + stamp)
    case _ => Err
  }

  function BuildAck(a: WriteAck): (r: Result<seq<byte>>)
    ensures r.Ok? ==> |r.value| == ACK_SIZE
  {
    if IsU16(a.registerNo) && IsByte(a.status) && IsU16(a.value) then
      Ok(PutU16(a.registerNo) + [a.status] + PutU16(a.value))
    else Err
  }

  function BlocksSize(blocks: seq<Block>): nat {
    if blocks == [] then 0 else blocks[0].Size() + BlocksSize(blocks[1..])
  }

  function MsgLen(m: Message): nat {
    32 + (if m.metadata.Some? then METADATA_SIZE else 0) + BlocksSize(m.blocks) + (if m.ack.Some? then ACK_SIZE else 0)
  }

  ghost predicate DatedMetadata(m: Message) {
    m.metadata.Some? && m.metadata.value.timestamp.Some? ==> IsDateTime(m.metadata.value.timestamp.value)
  }

  function BuildHeader(m: Message): (r: Result<seq<byte>>)
    ensures r.Ok? ==> |r.value| == HEADER_SIZE
  {
    if !IsU16(m.unknown) || !IsU16(MsgLen(m)) || !IsByte(m.function_) then Err else
    match IdField(m.deviceId, ID_WIDTH)
    case Err => Err
    case Ok(id) => Ok(PutU16(m.unknown) + PutU16(7) + PutU16(MsgLen(m)) + [1, m.function_] + id)
  }

  /** Everything after the header. */
  function BuildBody(m: Message): Result<seq<byte>>
    requires DatedMetadata(m)
  {
    var meta := if m.metadata.Some? then BuildMetadata(m.metadata.value) else Ok([]);
    var ack := if m.ack.Some? then BuildAck(m.ack.value) else Ok([]);
    match (meta, BuildBlocks(m.blocks), ack)
    case (Ok(a), Ok(b), Ok(c)) => Ok(a + b + c)
    case _ => Err
  }

  function Build(m: Message): Result<seq<byte>>
    requires DatedMetadata(m)
  {
    match (BuildHeader(m), BuildBody(m))
    case (Ok(header), Ok(body)) => Ok(header + body)
    case _ => Err
  }

  // ---- parsing

  function ParseBlock(buffer: seq<byte>, offset: nat): (r: Option<Block>)
    requires offset <= |buffer|
    ensures r.Some? ==> r.value.Exact() && offset + r.value.Size() <= |buffer|
  {
    if |buffer| - offset < 4 then None else
    var start, end := GetU16(buffer, offset), GetU16(buffer, offset + 2);
    if end < start then None else
    var size := 4 + (end - start + 1) * 2;
    if |buffer| - offset < size then None
    else Some(Block(start, end, buffer[offset + 4..offset + size]))
  }

  function ParseTimestamp(b: seq<byte>): (r: Option<Timestamp>)
    requires |b| == 7
    ensures r.Some? ==> IsDateTime(r.value)
  {
    var t := Timestamp(b[0] as int + 2000, b[1], b[2], b[3], b[4], b[5], b[6] as int * 1000);
    if IsDateTime(t) then Some(t) else None
  }

  function ParseMetadata(buffer: seq<byte>, offset: nat): Option<Metadata> {
    if |buffer| - offset < METADATA_SIZE then None
    else Some(Metadata(ReadBothStripped(buffer[offset..offset + ID_WIDTH]),
                       ParseTimestamp(buffer[offset + ID_WIDTH..offset + METADATA_SIZE])))
  }

  function ParseAck(buffer: seq<byte>, offset: nat): Option<WriteAck> {
    if |buffer| - offset < ACK_SIZE then None
    else Some(WriteAck(GetU16(buffer, offset), GetU16(buffer, offset + 3), buffer[offset + 2]))
  }

  /** The blocks from offset on and where they stop, or None when one of them is malformed. */
  function ParseBlocks(buffer: seq<byte>, offset: nat): (r: Option<(seq<Block>, nat)>)
    requires offset <= |buffer|
    ensures r.Some? ==> offset <= r.value.1 <= |buffer| < r.value.1 + MIN_BLOCK_SIZE
    decreases |buffer| - offset
  {
    if |buffer| - offset < MIN_BLOCK_SIZE then Some(([], offset)) else
    match ParseBlock(buffer, offset)
    case None => None
    case Some(block) =>
      Prepend([block], ParseBlocks(buffer, offset + block.Size()))
  }

  function Prepend(blocks: seq<Block>, r: Option<(seq<Block>, nat)>): Option<(seq<Block>, nat)> {
    match r
    case None => None
    case Some((rest, stop)) => Some((blocks + rest, stop))
  }

  lemma PrependLaws(a: seq<Block>, b: seq<Block>, r: Option<(seq<Block>, nat)>)
    ensures Prepend([], r) == r
    ensures Prepend(a, Prepend(b, r)) == Prepend(a + b, r)
  {
    if r.Some? {
      assert [] + r.value.0 == r.value.0;
      ConcatAssociates(a, b, r.value.0);
    }
  }

  lemma ReadOneMore(buffer: seq<byte>, at: nat, blocks: seq<Block>)
    requires at + MIN_BLOCK_SIZE <= |buffer| && ParseBlock(buffer, at).Some?
    ensures var block := ParseBlock(buffer, at).value;
      Prepend(blocks, ParseBlocks(buffer, at)) == Prepend(blocks + [block], ParseBlocks(buffer, at + block.Size()))
  {
    var block := ParseBlock(buffer, at).value;
    PrependLaws(blocks, [block], ParseBlocks(buffer, at + block.Size()));
  }

  /** The source's loop over a moving offset. */
  method ReadBlocks(buffer: seq<byte>, offset: nat) returns (r: Option<(seq<Block>, nat)>)
    requires offset <= |buffer|
    ensures r == ParseBlocks(buffer, offset)
  {
    var at, blocks := offset, [];
    PrependLaws([], [], ParseBlocks(buffer, offset));
    while |buffer| - at >= MIN_BLOCK_SIZE
      invariant offset <= at <= |buffer|
      invariant ParseBlocks(buffer, offset) == Prepend(blocks, ParseBlocks(buffer, at))
    {
      var block := ParseBlock(buffer, at);
      if block.None? {
        return None;
      }
      ReadOneMore(buffer, at, blocks);
      blocks := blocks + [block.value];
      at := at + block.value.Size();
    }
    assert blocks + [] == blocks;
    return Some((blocks, at));
  }

  /** The header as parsed: unknown, function and identity, or None when it is refused. */
  function ParseHeader(buffer: seq<byte>): Option<(int, int, string)> {
    if |buffer| < HEADER_SIZE || GetU16(buffer, 2) != 7 then None
    else if GetU16(buffer, 4) != |buffer| - 8 || !IsFunction(buffer[7]) then None
    else Some((GetU16(buffer, 0), buffer[7] as int, ReadBothStripped(buffer[8..38])))
  }

  function ParseBody(buffer: seq<byte>, unknown: int, f: int, id: string): Option<Message>
    requires |buffer| >= HEADER_SIZE
  {
    var metadata := if f == READ_INPUT then ParseMetadata(buffer, HEADER_SIZE) else None;
    if f == READ_INPUT && metadata.None? then None else
    var offset := if f == READ_INPUT then HEADER_SIZE + METADATA_SIZE else HEADER_SIZE;
    if f == PRESET_SINGLE then
      if |buffer| - offset !in {ACK_SIZE, ACK_SIZE + TRAILER_SIZE} then None
      else match ParseAck(buffer, offset)
        case None => None
        case Some(ack) => Some(Message(unknown, id, metadata, f, [], Some(ack)))
    else match ParseBlocks(buffer, offset)
      case None => None
      case Some((blocks, stop)) =>
        if |buffer| - stop !in {0, TRAILER_SIZE} then None
        else Some(Message(unknown, id, metadata, f, blocks, None))
  }

  function Parsed(buffer: seq<byte>): Option<Message> {
    match ParseHeader(buffer)
    case None => None
    case Some((unknown, f, id)) => ParseBody(buffer, unknown, f, id)
  }

  method Parse(buffer: seq<byte>) returns (r: Option<Message>)
    ensures r == Parsed(buffer)
  {
    if |buffer| < HEADER_SIZE {
      return None;
    }
    var unknown, seven, msgLen, f := GetU16(buffer, 0), GetU16(buffer, 2), GetU16(buffer, 4), buffer[7] as int;
    if seven != 7 || msgLen != |buffer| - 8 || !IsFunction(f) {
      return None;
    }
    var id, offset := ReadBothStripped(buffer[8..38]), HEADER_SIZE;
    var metadata: Option<Metadata> := None;
    if f == READ_INPUT {
      metadata := ParseMetadata(buffer, offset);
      if metadata.None? {
        return None;
      }
      offset := offset + METADATA_SIZE;
    }
    if f == PRESET_SINGLE {
      if |buffer| - offset !in {ACK_SIZE, ACK_SIZE + TRAILER_SIZE} {
        return None;
      }
      return Some(Message(unknown, id, metadata, f, [], ParseAck(buffer, offset)));
    }
    var blocks := ReadBlocks(buffer, offset);
    if blocks.None? || |buffer| - blocks.value.1 !in {0, TRAILER_SIZE} {
      return None;
    }
    return Some(Message(unknown, id, metadata, f, blocks.value.0, None));
  }

  // ---- round trips

  ghost predicate AllExact(blocks: seq<Block>) { forall i :: 0 <= i < |blocks| ==> blocks[i].Exact() }

  lemma {:induction false} BlocksBuild(blocks: seq<Block>)
    requires AllExact(blocks)
    ensures BuildBlocks(blocks).Ok? && |BuildBlocks(blocks).value| == BlocksSize(blocks)
  {
    if blocks != [] {
      BlocksBuild(blocks[1..]);
    }
  }

  lemma ParseBlockOfBuilt(buffer: seq<byte>, offset: nat, b: Block)
    requires b.Exact() && offset + b.Size() <= |buffer|
    requires buffer[offset..offset + b.Size()] == BuildBlock(b).value
    ensures ParseBlock(buffer, offset) == Some(b)
  {
    var piece := buffer[offset..offset + b.Size()];
    SliceOfSlice(buffer, offset, offset + b.Size(), 0, 2);
    SliceOfSlice(buffer, offset, offset + b.Size(), 2, 4);
    SliceOfSlice(buffer, offset, offset + b.Size(), 4, b.Size());
    assert piece[0..2] == PutU16(b.start) && piece[2..4] == PutU16(b.end) && piece[4..b.Size()] == b.values;
    GetPutU16(buffer, offset, b.start);
    GetPutU16(buffer, offset + 2, b.end);
  }

  ghost predicate ParsesTo(buffer: seq<byte>, offset: nat, blocks: seq<Block>, stop: nat) {
    offset <= |buffer| && ParseBlocks(buffer, offset) == Some((blocks, stop))
  }

  lemma ParseBlocksCons(buffer: seq<byte>, offset: nat, blocks: seq<Block>, stop: nat)
    requires blocks != [] && offset + MIN_BLOCK_SIZE <= |buffer| && ParseBlock(buffer, offset) == Some(blocks[0])
    requires ParsesTo(buffer, offset + blocks[0].Size(), blocks[1..], stop)
    ensures ParsesTo(buffer, offset, blocks, stop)
  {
    assert [blocks[0]] + blocks[1..] == blocks;
  }

  /** The built blocks stand in the buffer from offset on. */
  ghost predicate BuiltAt(buffer: seq<byte>, offset: nat, blocks: seq<Block>) {
    && AllExact(blocks) && offset + BlocksSize(blocks) <= |buffer|
    && BuildBlocks(blocks) == Ok(buffer[offset..offset + BlocksSize(blocks)])
  }

  /** What building some exact blocks yields: the first one's bytes, then the others'. */
  lemma BuiltSplits(blocks: seq<Block>)
    requires blocks != [] && AllExact(blocks)
    ensures BuildBlock(blocks[0]).Ok? && BuildBlocks(blocks[1..]).Ok?
    ensures BuildBlocks(blocks) == Ok(BuildBlock(blocks[0]).value + BuildBlocks(blocks[1..]).value)
    ensures |BuildBlock(blocks[0]).value| == blocks[0].Size()
    ensures |BuildBlocks(blocks[1..]).value| == BlocksSize(blocks[1..])
    ensures BlocksSize(blocks) == blocks[0].Size() + BlocksSize(blocks[1..]) && blocks[0].Size() >= MIN_BLOCK_SIZE
  {
    BlocksBuild(blocks[1..]);
  }

  /** Where the first block of built bytes ends, the others begin. */
  lemma FirstOfBuilt(buffer: seq<byte>, offset: nat, blocks: seq<Block>)
    requires blocks != [] && BuiltAt(buffer, offset, blocks)
    ensures BlocksSize(blocks) == blocks[0].Size() + BlocksSize(blocks[1..]) && blocks[0].Size() >= MIN_BLOCK_SIZE
    ensures ParseBlock(buffer, offset) == Some(blocks[0])
    ensures BuiltAt(buffer, offset + blocks[0].Size(), blocks[1..])
  {
    var next, end := offset + blocks[0].Size(), offset + BlocksSize(blocks);
    var rest := BuildBlocks(blocks[1..]).value;
    BuiltSplits(blocks);
    FirstOfSplit(buffer, offset, next, end, blocks[0], rest);
    RestIsBuilt(buffer, next, end, blocks[1..]);
  }

  lemma RestIsBuilt(buffer: seq<byte>, next: nat, end: nat, rest: seq<Block>)
    requires AllExact(rest) && next + BlocksSize(rest) == end <= |buffer| && BuildBlocks(rest) == Ok(buffer[next..end])
    ensures BuiltAt(buffer, next, rest)
  {}

  lemma FirstOfSplit(buffer: seq<byte>, offset: nat, next: nat, end: nat, first: Block, rest: seq<byte>)
    requires first.Exact() && next == offset + first.Size() <= end <= |buffer| && BuildBlock(first).Ok?
    requires |BuildBlock(first).value| == first.Size() && buffer[offset..end] == BuildBlock(first).value + rest
    ensures ParseBlock(buffer, offset) == Some(first) && buffer[next..end] == rest
  {
    SplitSlice(buffer, offset, next, end, BuildBlock(first).value, rest);
    ParseBlockOfBuilt(buffer, offset, first);
  }

  lemma {:induction false} ParseBlocksOfBuilt(buffer: seq<byte>, offset: nat, blocks: seq<Block>)
    requires BuiltAt(buffer, offset, blocks) && |buffer| < offset + BlocksSize(blocks) + MIN_BLOCK_SIZE
    ensures ParsesTo(buffer, offset, blocks, offset + BlocksSize(blocks))
    decreases |blocks|
  {
    if blocks != [] {
      var next := offset + blocks[0].Size();
      FirstOfBuilt(buffer, offset, blocks);
      ParseBlocksOfBuilt(buffer, next, blocks[1..]);
      assert next + BlocksSize(blocks[1..]) == offset + BlocksSize(blocks);
      ParseBlocksCons(buffer, offset, blocks, offset + BlocksSize(blocks));
    }
  }

  lemma ParseBlockRebuilds(buffer: seq<byte>, offset: nat)
    requires offset <= |buffer| && ParseBlock(buffer, offset).Some?
    ensures var b := ParseBlock(buffer, offset).value; BuildBlock(b) == Ok(buffer[offset..offset + b.Size()])
  {
    var b := ParseBlock(buffer, offset).value;
    assert buffer[offset..offset + 2] == PutU16(b.start) && buffer[offset + 2..offset + 4] == PutU16(b.end);
    assert buffer[offset..offset + b.Size()] ==
      buffer[offset..offset + 2] + buffer[offset + 2..offset + 4] + buffer[offset + 4..offset + b.Size()];
  }

  /** Parsed blocks rebuild to exactly the bytes they were read from. */
  lemma {:induction false} ParseBlocksRebuild(buffer: seq<byte>, offset: nat)
    requires offset <= |buffer| && ParseBlocks(buffer, offset).Some?
    ensures var (blocks, stop) := ParseBlocks(buffer, offset).value;
      AllExact(blocks) && BuildBlocks(blocks) == Ok(buffer[offset..stop])
    decreases |buffer| - offset
  {
    var (blocks, stop) := ParseBlocks(buffer, offset).value;
    if |buffer| - offset < MIN_BLOCK_SIZE {
      assert buffer[offset..offset] == [];
    } else {
      var first := ParseBlock(buffer, offset).value;
      var next := offset + first.Size();
      ParseBlockRebuilds(buffer, offset);
      ParseBlocksRebuild(buffer, next);
      RebuildStep(buffer, offset, next, stop, first, ParseBlocks(buffer, next).value.0);
    }
  }

  lemma RebuildStep(buffer: seq<byte>, offset: nat, next: nat, stop: nat, first: Block, rest: seq<Block>)
    requires offset <= next <= stop <= |buffer|
    requires BuildBlock(first) == Ok(buffer[offset..next]) && BuildBlocks(rest) == Ok(buffer[next..stop])
    ensures BuildBlocks([first] + rest) == Ok(buffer[offset..stop])
  {
    assert ([first] + rest)[1..] == rest;
    assert buffer[offset..next] + buffer[next..stop] == buffer[offset..stop];
  }

  /** The shape the format prescribes: metadata for function 4 only, an acknowledgement for function 6 only. */
  ghost predicate WellShaped(m: Message) {
    && IsFunction(m.function_) && AllExact(m.blocks) && DatedMetadata(m)
    && (m.metadata.Some? <==> m.function_ == READ_INPUT)
    && (m.ack.Some? <==> m.function_ == PRESET_SINGLE)
    && (m.ack.Some? ==> m.blocks == [])
  }

  /** What the format can carry of a message: stripped identities, whole milliseconds. */
  function Carried(m: Message): Message {
    m.(deviceId := Strip(m.deviceId, '\0'),
       metadata := if m.metadata.None? then None else Some(CarriedMetadata(m.metadata.value)))
  }

  function CarriedMetadata(m: Metadata): Metadata {
    Metadata(Strip(m.deviceSn, '\0'),
             if m.timestamp.None? then None
             else Some(m.timestamp.value.(microsecond := m.timestamp.value.microsecond / 1000 * 1000)))
  }

  lemma HeaderRoundTrip(m: Message, rest: seq<byte>)
    requires BuildHeader(m).Ok? && IsFunction(m.function_) && |rest| == MsgLen(m) - 30
    ensures ParseHeader(BuildHeader(m).value + rest) == Some((m.unknown, m.function_, Strip(m.deviceId, '\0')))
  {
    var id := IdField(m.deviceId, ID_WIDTH).value;
    var buffer := BuildHeader(m).value + rest;
    assert buffer[0..2] == PutU16(m.unknown) && buffer[2..4] == PutU16(7) && buffer[4..6] == PutU16(MsgLen(m));
    assert buffer[7] == m.function_ && buffer[8..38] == id;
    GetPutU16(buffer, 0, m.unknown);
    GetPutU16(buffer, 2, 7);
    GetPutU16(buffer, 4, MsgLen(m));
    IdFieldReadBackBoth(m.deviceId, ID_WIDTH);
  }

  lemma MetadataRoundTrip(m: Metadata, buffer: seq<byte>, offset: nat)
    requires m.timestamp.Some? && IsDateTime(m.timestamp.value) && BuildMetadata(m).Ok?
    requires offset + METADATA_SIZE <= |buffer| && buffer[offset..offset + METADATA_SIZE] == BuildMetadata(m).value
    ensures ParseMetadata(buffer, offset) == Some(CarriedMetadata(m))
  {
    var id, stamp := IdField(m.deviceSn, ID_WIDTH).value, PackTimestamp(m.timestamp.value).value;
    SliceOfSlice(buffer, offset, offset + METADATA_SIZE, 0, ID_WIDTH);
    SliceOfSlice(buffer, offset, offset + METADATA_SIZE, ID_WIDTH, METADATA_SIZE);
    assert (id + stamp)[0..ID_WIDTH] == id && (id + stamp)[ID_WIDTH..METADATA_SIZE] == stamp;
    IdFieldReadBackBoth(m.deviceSn, ID_WIDTH);
  }

  lemma AckRoundTrip(a: WriteAck, buffer: seq<byte>, offset: nat)
    requires BuildAck(a).Ok? && offset + ACK_SIZE <= |buffer| && buffer[offset..offset + ACK_SIZE] == BuildAck(a).value
    ensures ParseAck(buffer, offset) == Some(a)
  {
    SliceOfSlice(buffer, offset, offset + ACK_SIZE, 0, 2);
    SliceOfSlice(buffer, offset, offset + ACK_SIZE, 3, 5);
    var built := BuildAck(a).value;
    assert built[0..2] == PutU16(a.registerNo) && built[3..5] == PutU16(a.value);
    assert buffer[offset + 2] == buffer[offset..offset + ACK_SIZE][2];
    GetPutU16(buffer, offset, a.registerNo);
    GetPutU16(buffer, offset + 3, a.value);
  }

  lemma BodyLayout(m: Message)
    requires WellShaped(m) && BuildBody(m).Ok?
    ensures |BuildBody(m).value| == MsgLen(m) - 32
    ensures m.function_ == READ_INPUT ==>
      BuildMetadata(m.metadata.value).Ok?
      && BuildBody(m).value == BuildMetadata(m.metadata.value).value + BuildBlocks(m.blocks).value
    ensures m.function_ == PRESET_SINGLE ==>
      BuildAck(m.ack.value).Ok? && BuildBody(m).value == BuildAck(m.ack.value).value
    ensures m.function_ != READ_INPUT && m.function_ != PRESET_SINGLE ==>
      BuildBody(m).value == BuildBlocks(m.blocks).value
  {
    BlocksBuild(m.blocks);
  }

  /** Blocks from offset up to the trailer. */
  lemma BlocksBody(m: Message, buffer: seq<byte>, offset: nat)
    requires AllExact(m.blocks) && offset + BlocksSize(m.blocks) + TRAILER_SIZE == |buffer|
    requires BuildBlocks(m.blocks) == Ok(buffer[offset..offset + BlocksSize(m.blocks)])
    ensures ParseBlocks(buffer, offset) == Some((m.blocks, |buffer| - TRAILER_SIZE))
  {
    BlocksBuild(m.blocks);
    ParseBlocksOfBuilt(buffer, offset, m.blocks);
  }

  /** The metadata's bytes stand after the header. */
  ghost predicate HasMetadata(m: Metadata, buffer: seq<byte>)
    requires m.timestamp.Some? ==> IsDateTime(m.timestamp.value)
  {
    && BuildMetadata(m).Ok? && HEADER_SIZE + METADATA_SIZE <= |buffer|
    && buffer[HEADER_SIZE..HEADER_SIZE + METADATA_SIZE] == BuildMetadata(m).value
  }

  lemma InputParts(m: Message, buffer: seq<byte>, end: nat)
    requires WellShaped(m) && BuildBody(m).Ok? && m.function_ == READ_INPUT
    requires end == HEADER_SIZE + |BuildBody(m).value| <= |buffer| && buffer[HEADER_SIZE..end] == BuildBody(m).value
    ensures HasMetadata(m.metadata.value, buffer)
    ensures end == HEADER_SIZE + METADATA_SIZE + BlocksSize(m.blocks)
    ensures BuiltAt(buffer, HEADER_SIZE + METADATA_SIZE, m.blocks)
  {
    BodyLayout(m);
    BlocksBuild(m.blocks);
    SplitSlice(buffer, HEADER_SIZE, HEADER_SIZE + METADATA_SIZE, end,
               BuildMetadata(m.metadata.value).value, BuildBlocks(m.blocks).value);
  }

  lemma InputMetadata(m: Metadata, buffer: seq<byte>)
    requires (m.timestamp.Some? ==> IsDateTime(m.timestamp.value)) && HasMetadata(m, buffer)
    ensures ParseMetadata(buffer, HEADER_SIZE) == Some(CarriedMetadata(m))
  {
    MetadataRoundTrip(m, buffer, HEADER_SIZE);
  }

  lemma BodyRoundTrip(m: Message, buffer: seq<byte>, id: string)
    requires WellShaped(m) && BuildBody(m).Ok?
    requires |buffer| == HEADER_SIZE + |BuildBody(m).value| + TRAILER_SIZE
    requires buffer[HEADER_SIZE..HEADER_SIZE + |BuildBody(m).value|] == BuildBody(m).value
    ensures ParseBody(buffer, m.unknown, m.function_, id) == Some(Carried(m).(deviceId := id))
  {
    BodyLayout(m);
    if m.function_ == PRESET_SINGLE {
      AckRoundTrip(m.ack.value, buffer, HEADER_SIZE);
    } else if m.function_ == READ_INPUT {
      InputParts(m, buffer, HEADER_SIZE + |BuildBody(m).value|);
      InputMetadata(m.metadata.value, buffer);
      ParseBlocksOfBuilt(buffer, HEADER_SIZE + METADATA_SIZE, m.blocks);
    } else {
      BlocksBuild(m.blocks);
      BlocksBody(m, buffer, HEADER_SIZE);
    }
  }

  /** Build, append any two trailer bytes, parse: everything the format can carry comes back. */
  lemma MessageRoundTrip(m: Message, trailer: seq<byte>)
    requires WellShaped(m) && Build(m).Ok? && |trailer| == TRAILER_SIZE
    ensures Parsed(Build(m).value + trailer) == Some(Carried(m))
  {
    var header, body := BuildHeader(m).value, BuildBody(m).value;
    ConcatAssociates(header, body, trailer);
    BodyLayout(m);
    HeaderRoundTrip(m, body + trailer);
    BodyRoundTrip(m, header + body + trailer, Strip(m.deviceId, '\0'));
  }

  /** What the format can carry unchanged: clear identities and whole milliseconds. */
  ghost predicate Exactly(m: Message)
    requires m.metadata.Some? ==> m.metadata.value.timestamp.Some?
  {
    && BothEndsClear(m.deviceId, '\0')
    && (m.metadata.Some? ==>
        BothEndsClear(m.metadata.value.deviceSn, '\0') && m.metadata.value.timestamp.value.microsecond % 1000 == 0)
  }

  lemma CarriedIff(m: Message)
    requires m.metadata.Some? ==> m.metadata.value.timestamp.Some?
    ensures Carried(m) == m <==> Exactly(m)
  {
    StripUnchangedIff(m.deviceId, '\0');
    if m.metadata.Some? {
      StripUnchangedIff(m.metadata.value.deviceSn, '\0');
    }
  }

  /** The very same message comes back exactly when the format can carry it unchanged. */
  lemma MessageSurvivesIff(m: Message, trailer: seq<byte>)
    requires WellShaped(m) && Build(m).Ok? && |trailer| == TRAILER_SIZE
    ensures m.metadata.Some? ==> m.metadata.value.timestamp.Some?
    ensures Parsed(Build(m).value + trailer) == Some(m) <==> Exactly(m)
  {
    MessageRoundTrip(m, trailer);
    CarriedIff(m);
  }

  /** The trailer is not optional for a built message, nor may it be longer: only with two bytes does the declared
      length match. */
  lemma BuiltIsAcceptedIff(m: Message, trailer: seq<byte>)
    requires WellShaped(m) && Build(m).Ok?
    ensures Parsed(Build(m).value + trailer).Some? <==> |trailer| == TRAILER_SIZE
  {
    if |trailer| == TRAILER_SIZE {
      MessageRoundTrip(m, trailer);
    } else {
      var header, body := BuildHeader(m).value, BuildBody(m).value;
      BodyLayout(m);
      assert (header + body + trailer)[4..6] == PutU16(MsgLen(m));
      GetPutU16(header + body + trailer, 4, MsgLen(m));
    }
  }

  /** For every accepted buffer without an acknowledgement, the built blocks are exactly the body bytes before the
      trailer. */
  lemma AcceptedBlocksAreBody(buffer: seq<byte>)
    requires Parsed(buffer).Some? && Parsed(buffer).value.function_ != PRESET_SINGLE
    ensures var m := Parsed(buffer).value;
      var offset := if m.function_ == READ_INPUT then HEADER_SIZE + METADATA_SIZE else HEADER_SIZE;
      exists stop :: offset <= stop <= |buffer| && |buffer| - stop in {0, TRAILER_SIZE}
        && BuildBlocks(m.blocks) == Ok(buffer[offset..stop])
  {
    var m := Parsed(buffer).value;
    ParseBlocksRebuild(buffer, if m.function_ == READ_INPUT then HEADER_SIZE + METADATA_SIZE else HEADER_SIZE);
  }
}
