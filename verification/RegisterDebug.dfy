/** The passive register dump: a per-register diff, sped up by a cache of whole register blocks. */
module RegisterDebug {
  import opened Wire
  import opened ModbusMessage
  import EmbeddedBlock

  /** Value spaces that the 0x0103 records use beside the Modbus function codes. */
  const RAW_SPACE := 0x0103
  const EMBEDDED_SPACE := 0x010303

  datatype ValueKey = ValueKey(device: string, space: int, index: int)

  datatype BlockKey = BlockKey(device: string, f: int, start: int, end: int)

  datatype Source =
    | ModbusBlock(start: int, end: int)
    | RawValues(rawDevice: string, count: nat)
    | EmbeddedValues(rawDevice: string, offset: int, start: int, end: int)

  datatype Record = Record(source: Source, key: ValueKey, value: int, previous: Option<int>, changed: bool)

  /** The last value seen of every register, and the records written so far. */
  datatype Trace = Trace(values: map<ValueKey, int>, records: seq<Record>)

  // ---- the plain diff, which knows no block cache

  function Observe(t: Trace, source: Source, key: ValueKey, value: int, changesOnly: bool): Trace {
    var previous := Lookup(t.values, key);
    var changed := previous != Some(value);
    Trace(t.values[key := value],
          if changesOnly && !changed then t.records else t.records + [Record(source, key, value, previous, changed)])
  }

  /** A register that the block carries and the limit admits. */
  predicate Carries(start: int, values: seq<byte>, limit: int, register: int) {
    start <= register && 0 <= register <= limit && (register - start) * 2 + 2 <= |values|
  }

  function WordAt(start: int, values: seq<byte>, register: int): int
    requires start <= register && (register - start) * 2 + 2 <= |values|
  {
    GetU16(values, (register - start) * 2)
  }

  function PlainRegisters(t: Trace, device: string, f: int, b: Block, from: int, limit: int, changesOnly: bool): Trace
    requires b.start <= from
    decreases b.end + 1 - from
  {
    if from > b.end then t
    else if Carries(b.start, b.values, limit, from) then
      var source, word := ModbusBlock(b.start, b.end), WordAt(b.start, b.values, from);
      var seen := Observe(t, source, ValueKey(device, f, from), word, changesOnly);
      PlainRegisters(seen, device, f, b, from + 1, limit, changesOnly)
    else PlainRegisters(t, device, f, b, from + 1, limit, changesOnly)
  }

  function PlainBlocks(
      t: Trace, device: string, f: int, blocks: seq<Option<Block>>, limit: int, changesOnly: bool): Trace
    decreases |blocks|
  {
    if blocks == [] then t
    else if blocks[0].None? then PlainBlocks(t, device, f, blocks[1..], limit, changesOnly)
    else
      var b := blocks[0].value;
      var seen := PlainRegisters(t, device, f, b, b.start, limit, changesOnly);
      PlainBlocks(seen, device, f, blocks[1..], limit, changesOnly)
  }

  /** Values in a row from an index on, each under its own key. */
  function PlainRow(
      t: Trace, source: Source, device: string, space: int, first: int, row: seq<int>, from: nat, changesOnly: bool)
      : Trace
    requires from <= |row|
    decreases |row| - from
  {
    if from == |row| then t else
    var seen := Observe(t, source, ValueKey(device, space, first + from), row[from], changesOnly);
    PlainRow(seen, source, device, space, first, row, from + 1, changesOnly)
  }

  /** The embedded values up to the end of their range and the register limit. */
  function Admitted(e: EmbeddedBlock.Block, limit: int): seq<int> {
    var last := if e.end < limit then e.end else limit;
    if e.start > last then [] else if |e.values| <= last - e.start + 1 then e.values else e.values[..last - e.start + 1]
  }

  predicate InRange(b: EmbeddedBlock.Block, limit: int, i: nat) { b.start + i <= b.end && b.start + i <= limit }

  lemma AdmittedValues(b: EmbeddedBlock.Block, limit: int)
    ensures Admitted(b, limit) <= b.values
    ensures forall i: nat :: i < |b.values| ==> (i < |Admitted(b, limit)| <==> InRange(b, limit, i))
  {}

  datatype Event =
    | ModbusEvent(device: string, f: int, blocks: seq<Option<Block>>)
    | NoahEvent(device: string, rawDevice: string, registers: seq<int>, embedded: Option<EmbeddedBlock.Block>)

  function PlainEvent(t: Trace, e: Event, limit: int, changesOnly: bool): Trace {
    match e
    case ModbusEvent(device, f, blocks) => PlainBlocks(t, device, f, blocks, limit, changesOnly)
    case NoahEvent(device, raw, registers, embedded) =>
      var seen := PlainRow(t, RawValues(raw, |registers|), device, RAW_SPACE, 0, registers, 0, changesOnly);
      if embedded.None? then seen else
      var b := embedded.value;
      var source := EmbeddedValues(raw, b.offset, b.start, b.end);
      PlainRow(seen, source, device, EMBEDDED_SPACE, b.start, Admitted(b, limit), 0, changesOnly)
  }

  /** The diff of a whole run: each event starts from the values the previous ones left. */
  function PlainRun(values: map<ValueKey, int>, events: seq<Event>, limit: int, changesOnly: bool): Trace
    decreases |events|
  {
    if events == [] then Trace(values, []) else
    var first := PlainEvent(Trace(values, []), events[0], limit, changesOnly);
    var rest := PlainRun(first.values, events[1..], limit, changesOnly);
    Trace(rest.values, first.records + rest.records)
  }

  ghost predicate FromParser(events: seq<Event>) {
    forall i :: 0 <= i < |events| && events[i].ModbusEvent? ==> IsFunction(events[i].f)
  }

  // ---- the cached diff

  predicate Overlaps(k: BlockKey, device: string, f: int, b: Block) {
    k.device == device && k.f == f && k.start <= b.end && b.start <= k.end
  }

  /** The bytes remembered for a block are the last values of every register it carries. */
  ghost predicate Agrees(values: map<ValueKey, int>, k: BlockKey, bytes: seq<byte>, limit: int) {
    forall r :: k.start <= r <= k.end && Carries(k.start, bytes, limit, r) ==>
      Lookup(values, ValueKey(k.device, k.f, r)) == Some(WordAt(k.start, bytes, r))
  }

  class Capture {
    const changesOnly: bool
    const limit: int
    var lastValues: map<ValueKey, int>
    var lastBlocks: map<BlockKey, seq<byte>>

    ghost predicate Valid()
      reads this
    {
      && (!changesOnly ==> lastBlocks == map[])
      && forall k :: k in lastBlocks ==> IsFunction(k.f) && Agrees(lastValues, k, lastBlocks[k], limit)
    }

    constructor (changesOnly: bool, limit: int)
      ensures Valid() && lastValues == map[] && this.changesOnly == changesOnly && this.limit == limit
    {
      this.changesOnly, this.limit, lastValues, lastBlocks := changesOnly, limit, map[], map[];
    }

    /** Forget every remembered block that shares a register with b. */
    method Invalidate(device: string, f: int, b: Block)
      modifies this`lastBlocks
      ensures lastBlocks == map k | k in old(lastBlocks) && !Overlaps(k, device, f, b) :: old(lastBlocks)[k]
    {
      var todo := lastBlocks.Keys;
      while todo != {}
        invariant todo <= old(lastBlocks).Keys
        invariant lastBlocks == map k | k in old(lastBlocks) && (k in todo || !Overlaps(k, device, f, b)) ::
          old(lastBlocks)[k]
        decreases todo
      {
        var k :| k in todo;
        if Overlaps(k, device, f, b) {
          lastBlocks := lastBlocks - {k};
        }
        todo := todo - {k};
      }
    }

    method ObserveOne(source: Source, key: ValueKey, value: int, records: seq<Record>) returns (recorded: seq<Record>)
      modifies this`lastValues
      ensures Trace(lastValues, recorded) == Observe(Trace(old(lastValues), records), source, key, value, changesOnly)
    {
      var previous := Lookup(lastValues, key);
      var changed := previous.None? || previous.value != value;
      lastValues := lastValues[key := value];
      recorded := records;
      if !changesOnly || changed {
        recorded := recorded + [Record(source, key, value, previous, changed)];
      }
    }

    /** The register loop of one block that was not skipped. */
    method WalkRegisters(device: string, f: int, b: Block, records: seq<Record>) returns (recorded: seq<Record>)
      modifies this`lastValues
      ensures Trace(lastValues, recorded) ==
        PlainRegisters(Trace(old(lastValues), records), device, f, b, b.start, limit, changesOnly)
    {
      recorded := records;
      var register := b.start;
      while register <= b.end
        invariant b.start <= register
        invariant PlainRegisters(Trace(lastValues, recorded), device, f, b, register, limit, changesOnly) ==
          PlainRegisters(Trace(old(lastValues), records), device, f, b, b.start, limit, changesOnly)
        decreases b.end + 1 - register
      {
        if 0 <= register <= limit {
          var offset := (register - b.start) * 2;
          if offset + 2 <= |b.values| {
            var key := ValueKey(device, f, register);
            recorded := ObserveOne(ModbusBlock(b.start, b.end), key, GetU16(b.values, offset), recorded);
          }
        }
        register := register + 1;
      }
    }

    method WriteBlock(device: string, f: int, b: Block, records: seq<Record>) returns (recorded: seq<Record>)
      requires Valid() && IsFunction(f)
      modifies this
      ensures Valid()
      ensures Trace(lastValues, recorded) ==
        PlainRegisters(Trace(old(lastValues), records), device, f, b, b.start, limit, changesOnly)
    {
      var key := BlockKey(device, f, b.start, b.end);
      if changesOnly {
        if key in lastBlocks && lastBlocks[key] == b.values {
          KnownBlockIsSilent(Trace(lastValues, records), device, f, b, b.start, limit);
          return records;
        }
        Invalidate(device, f, b);
        lastBlocks := lastBlocks[key := b.values];
      }
      recorded := WalkRegisters(device, f, b, records);
      BlockIsRecorded(Trace(old(lastValues), records), device, f, b, b.start, limit, changesOnly);
    }

    method WriteModbus(device: string, f: int, blocks: seq<Option<Block>>) returns (records: seq<Record>)
      requires Valid() && IsFunction(f)
      modifies this
      ensures Valid()
      ensures Trace(lastValues, records) ==
        PlainBlocks(Trace(old(lastValues), []), device, f, blocks, limit, changesOnly)
    {
      records := [];
      for i := 0 to |blocks|
        invariant Valid()
        invariant PlainBlocks(Trace(lastValues, records), device, f, blocks[i..], limit, changesOnly) ==
          PlainBlocks(Trace(old(lastValues), []), device, f, blocks, limit, changesOnly)
      {
        assert blocks[i..][0] == blocks[i] && blocks[i..][1..] == blocks[i + 1..];
        if blocks[i].Some? {
          records := WriteBlock(device, f, blocks[i].value, records);
        }
      }
    }

    /** One value after another under consecutive indexes. */
    method WriteRow(source: Source, device: string, space: int, first: int, row: seq<int>, records: seq<Record>)
        returns (recorded: seq<Record>)
      requires Valid() && !IsFunction(space)
      modifies this`lastValues
      ensures Valid()
      ensures Trace(lastValues, recorded) ==
        PlainRow(Trace(old(lastValues), records), source, device, space, first, row, 0, changesOnly)
    {
      recorded := records;
      for i := 0 to |row|
        invariant PlainRow(Trace(lastValues, recorded), source, device, space, first, row, i, changesOnly) ==
          PlainRow(Trace(old(lastValues), records), source, device, space, first, row, 0, changesOnly)
      {
        recorded := ObserveOne(source, ValueKey(device, space, first + i), row[i], recorded);
      }
      RowStaysInItsSpace(Trace(old(lastValues), records), source, device, space, first, row, 0, changesOnly);
    }

    /** The embedded block: registers in a row until its end or the limit is passed. */
    method WalkEmbedded(device: string, source: Source, b: EmbeddedBlock.Block, records: seq<Record>)
        returns (recorded: seq<Record>)
      modifies this`lastValues
      ensures Trace(lastValues, recorded) ==
        PlainRow(Trace(old(lastValues), records), source, device, EMBEDDED_SPACE, b.start, Admitted(b, limit), 0,
                 changesOnly)
    {
      recorded := records;
      ghost var row: seq<int> := Admitted(b, limit);
      ghost var goal :=
        PlainRow(Trace(lastValues, records), source, device, EMBEDDED_SPACE, b.start, row, 0, changesOnly);
      var index := 0;
      AdmittedValues(b, limit);
      while index < |b.values|
        invariant 0 <= index <= |row|
        invariant goal ==
          PlainRow(Trace(lastValues, recorded), source, device, EMBEDDED_SPACE, b.start, row, index, changesOnly)
        decreases |b.values| - index
      {
        var register := b.start + index;
        assert index < |row| <==> InRange(b, limit, index);
        if register > b.end || register > limit {
          break;
        }
        assert row[index] == b.values[index];
        recorded := ObserveOne(source, ValueKey(device, EMBEDDED_SPACE, register), b.values[index], recorded);
        index := index + 1;
      }
    }

    method WriteEmbedded(device: string, source: Source, b: EmbeddedBlock.Block, records: seq<Record>)
        returns (recorded: seq<Record>)
      requires Valid()
      modifies this`lastValues
      ensures Valid()
      ensures Trace(lastValues, recorded) ==
        PlainRow(Trace(old(lastValues), records), source, device, EMBEDDED_SPACE, b.start, Admitted(b, limit), 0,
                 changesOnly)
    {
      recorded := WalkEmbedded(device, source, b, records);
      ghost var was := Trace(old(lastValues), records);
      RowStaysInItsSpace(was, source, device, EMBEDDED_SPACE, b.start, Admitted(b, limit), 0, changesOnly);
    }

    method WriteNoah(device: string, rawDevice: string, registers: seq<int>, embedded: Option<EmbeddedBlock.Block>)
        returns (records: seq<Record>)
      requires Valid()
      modifies this
      ensures Valid()
      ensures Trace(lastValues, records) ==
        PlainEvent(Trace(old(lastValues), []), NoahEvent(device, rawDevice, registers, embedded), limit, changesOnly)
    {
      records := WriteRow(RawValues(rawDevice, |registers|), device, RAW_SPACE, 0, registers, []);
      if embedded.Some? {
        var b := embedded.value;
        records := WriteEmbedded(device, EmbeddedValues(rawDevice, b.offset, b.start, b.end), b, records);
      }
    }

    /** Every run: the cached capture writes the plain diff's records and ends with its values. */
    method Run(events: seq<Event>) returns (records: seq<Record>)
      requires Valid() && FromParser(events)
      modifies this
      ensures Valid()
      ensures Trace(lastValues, records) == PlainRun(old(lastValues), events, limit, changesOnly)
    {
      records := [];
      ghost var whole := PlainRun(lastValues, events, limit, changesOnly);
      for i := 0 to |events|
        invariant Valid()
        invariant PlainRun(lastValues, events[i..], limit, changesOnly).values == whole.values
        invariant records + PlainRun(lastValues, events[i..], limit, changesOnly).records == whole.records
      {
        assert events[i..][0] == events[i] && events[i..][1..] == events[i + 1..];
        var more;
        match events[i] {
          case ModbusEvent(device, f, blocks) => more := WriteModbus(device, f, blocks);
          case NoahEvent(device, raw, registers, embedded) => more := WriteNoah(device, raw, registers, embedded);
        }
        ConcatAssociates(records, more, PlainRun(lastValues, events[i + 1..], limit, changesOnly).records);
        records := records + more;
      }
    }
  }

  // ---- why the cache may skip and why it must forget

  /** A block whose registers already have their values changes nothing and records nothing. */
  lemma {:induction false} KnownBlockIsSilent(t: Trace, device: string, f: int, b: Block, from: int, limit: int)
    requires b.start <= from
    requires Agrees(t.values, BlockKey(device, f, b.start, b.end), b.values, limit)
    ensures PlainRegisters(t, device, f, b, from, limit, true) == t
    decreases b.end + 1 - from
  {
    if from <= b.end {
      KnownBlockIsSilent(t, device, f, b, from + 1, limit);
      if Carries(b.start, b.values, limit, from) {
        var key, word := ValueKey(device, f, from), WordAt(b.start, b.values, from);
        assert Lookup(t.values, key) == Some(word);
        assert t.values[key := word] == t.values;
      }
    }
  }

  /** Walking a block leaves its words as the last values and touches no other key. */
  lemma {:induction false} BlockIsRecorded(
      t: Trace, device: string, f: int, b: Block, from: int, limit: int, changesOnly: bool)
    requires b.start <= from
    ensures var after := PlainRegisters(t, device, f, b, from, limit, changesOnly).values;
      && (forall r :: from <= r <= b.end && Carries(b.start, b.values, limit, r) ==>
          Lookup(after, ValueKey(device, f, r)) == Some(WordAt(b.start, b.values, r)))
      && (forall key :: !(InBlock(key, device, f, b, from) && Carries(b.start, b.values, limit, key.index)) ==>
          Lookup(after, key) == Lookup(t.values, key))
    decreases b.end + 1 - from
  {
    if from <= b.end {
      if Carries(b.start, b.values, limit, from) {
        var key := ValueKey(device, f, from);
        var seen := Observe(t, ModbusBlock(b.start, b.end), key, WordAt(b.start, b.values, from), changesOnly);
        BlockIsRecorded(seen, device, f, b, from + 1, limit, changesOnly);
        assert Lookup(seen.values, key) == Some(WordAt(b.start, b.values, from));
      } else {
        BlockIsRecorded(t, device, f, b, from + 1, limit, changesOnly);
      }
    }
  }

  predicate InBlock(key: ValueKey, device: string, f: int, b: Block, from: int) {
    key.device == device && key.space == f && from <= key.index <= b.end
  }

  lemma {:induction false} RowStaysInItsSpace(
    t: Trace, source: Source, device: string, space: int, first: int, row: seq<int>, from: nat, changesOnly: bool)
    requires from <= |row|
    ensures forall key: ValueKey :: key.space != space ==>
      Lookup(PlainRow(t, source, device, space, first, row, from, changesOnly).values, key) == Lookup(t.values, key)
    decreases |row| - from
  {
    if from < |row| {
      var seen := Observe(t, source, ValueKey(device, space, first + from), row[from], changesOnly);
      RowStaysInItsSpace(seen, source, device, space, first, row, from + 1, changesOnly);
    }
  }

  // ---- what the diff itself promises

  /** The values that a reader of the dump reconstructs. */
  function Replay(values: map<ValueKey, int>, records: seq<Record>): map<ValueKey, int>
    decreases |records|
  {
    if records == [] then values else Replay(values[records[0].key := records[0].value], records[1..])
  }

  /** Every record names the value its key had before it, and says truly whether that changed. */
  ghost predicate Linked(values: map<ValueKey, int>, records: seq<Record>, changesOnly: bool)
    decreases |records|
  {
    records != [] ==>
      && var r := records[0];
      && r.previous == Lookup(values, r.key)
      && r.changed == (r.previous != Some(r.value))
      && (changesOnly ==> r.changed)
      && Linked(values[r.key := r.value], records[1..], changesOnly)
  }

  /** The records of a trace are a faithful history that leads from the given values to its own. */
  ghost predicate Faithful(values: map<ValueKey, int>, t: Trace, changesOnly: bool) {
    Replay(values, t.records) == t.values && Linked(values, t.records, changesOnly)
  }

  lemma {:induction false} HistoriesJoin(values: map<ValueKey, int>, a: seq<Record>, b: seq<Record>, changesOnly: bool)
    requires Linked(values, a, changesOnly) && Linked(Replay(values, a), b, changesOnly)
    ensures Replay(values, a + b) == Replay(Replay(values, a), b)
    ensures Linked(values, a + b, changesOnly)
    decreases |a|
  {
    if a == [] {
      assert a + b == b;
    } else {
      assert (a + b)[0] == a[0] && (a + b)[1..] == a[1..] + b;
      HistoriesJoin(values[a[0].key := a[0].value], a[1..], b, changesOnly);
    }
  }

  lemma ObserveIsFaithful(
      values: map<ValueKey, int>, t: Trace, source: Source, key: ValueKey, value: int, changesOnly: bool)
    requires Faithful(values, t, changesOnly)
    ensures Faithful(values, Observe(t, source, key, value, changesOnly), changesOnly)
  {
    var previous := Lookup(t.values, key);
    if changesOnly && previous == Some(value) {
      assert t.values[key := value] == t.values;
    } else {
      var one := [Record(source, key, value, previous, previous != Some(value))];
      assert one[1..] == [];
      HistoriesJoin(values, t.records, one, changesOnly);
    }
  }

  lemma {:induction false} RegistersAreFaithful(
    values: map<ValueKey, int>, t: Trace, device: string, f: int, b: Block, from: int, limit: int, changesOnly: bool)
    requires Faithful(values, t, changesOnly) && b.start <= from
    ensures Faithful(values, PlainRegisters(t, device, f, b, from, limit, changesOnly), changesOnly)
    decreases b.end + 1 - from
  {
    if from <= b.end {
      if Carries(b.start, b.values, limit, from) {
        var source, key, word :=
          ModbusBlock(b.start, b.end), ValueKey(device, f, from), WordAt(b.start, b.values, from);
        ObserveIsFaithful(values, t, source, key, word, changesOnly);
        var seen := Observe(t, source, key, word, changesOnly);
        RegistersAreFaithful(values, seen, device, f, b, from + 1, limit, changesOnly);
      } else {
        RegistersAreFaithful(values, t, device, f, b, from + 1, limit, changesOnly);
      }
    }
  }

  lemma {:induction false} BlocksAreFaithful(
    values: map<ValueKey, int>, t: Trace, device: string, f: int, blocks: seq<Option<Block>>, limit: int,
    changesOnly: bool)
    requires Faithful(values, t, changesOnly)
    ensures Faithful(values, PlainBlocks(t, device, f, blocks, limit, changesOnly), changesOnly)
    decreases |blocks|
  {
    if blocks != [] {
      if blocks[0].None? {
        BlocksAreFaithful(values, t, device, f, blocks[1..], limit, changesOnly);
      } else {
        var b := blocks[0].value;
        RegistersAreFaithful(values, t, device, f, b, b.start, limit, changesOnly);
        var seen := PlainRegisters(t, device, f, b, b.start, limit, changesOnly);
        BlocksAreFaithful(values, seen, device, f, blocks[1..], limit, changesOnly);
      }
    }
  }

  lemma {:induction false} RowIsFaithful(
    values: map<ValueKey, int>, t: Trace, source: Source, device: string, space: int, first: int, row: seq<int>,
    from: nat, changesOnly: bool)
    requires Faithful(values, t, changesOnly) && from <= |row|
    ensures Faithful(values, PlainRow(t, source, device, space, first, row, from, changesOnly), changesOnly)
    decreases |row| - from
  {
    if from < |row| {
      var key := ValueKey(device, space, first + from);
      ObserveIsFaithful(values, t, source, key, row[from], changesOnly);
      var seen := Observe(t, source, key, row[from], changesOnly);
      RowIsFaithful(values, seen, source, device, space, first, row, from + 1, changesOnly);
    }
  }

  /** Every dump, in either mode, is a faithful history: replaying it from the starting values gives the final ones. */
  lemma {:induction false} RunIsFaithful(values: map<ValueKey, int>, events: seq<Event>, limit: int, changesOnly: bool)
    ensures Faithful(values, PlainRun(values, events, limit, changesOnly), changesOnly)
    decreases |events|
  {
    if events != [] {
      var t := Trace(values, []);
      match events[0] {
        case ModbusEvent(device, f, blocks) =>
          BlocksAreFaithful(values, t, device, f, blocks, limit, changesOnly);
        case NoahEvent(device, raw, registers, embedded) =>
          var source := RawValues(raw, |registers|);
          RowIsFaithful(values, t, source, device, RAW_SPACE, 0, registers, 0, changesOnly);
          if embedded.Some? {
            var b := embedded.value;
            var seen := PlainRow(t, source, device, RAW_SPACE, 0, registers, 0, changesOnly);
            var inner := EmbeddedValues(raw, b.offset, b.start, b.end);
            RowIsFaithful(values, seen, inner, device, EMBEDDED_SPACE, b.start, Admitted(b, limit), 0, changesOnly);
          }
      }
      var first := PlainEvent(t, events[0], limit, changesOnly);
      var rest := PlainRun(first.values, events[1..], limit, changesOnly);
      RunIsFaithful(first.values, events[1..], limit, changesOnly);
      HistoriesJoin(values, first.records, rest.records, changesOnly);
    }
  }
}
