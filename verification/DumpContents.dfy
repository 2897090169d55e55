/** What a register dump contains, in terms of the bytes it was made from. */
module DumpContents {
  import opened Wire
  import opened ModbusMessage
  import opened RegisterDebug
  import EmbeddedBlock

  // ---- the values after one message

  /** Every register of the range that the limit admits and both of whose bytes are there gets its big-endian word, and
      nothing else changes. */
  lemma EveryWordIsSeen(t: Trace, device: string, f: int, b: Block, limit: int, changesOnly: bool)
    ensures var after := PlainRegisters(t, device, f, b, b.start, limit, changesOnly).values;
      && (forall r :: b.start <= r <= b.end && 0 <= r <= limit && 2 * (r - b.start) + 1 < |b.values| ==>
          Lookup(after, ValueKey(device, f, r)) ==
            Some(b.values[2 * (r - b.start)] as int * 256 + b.values[2 * (r - b.start) + 1] as int))
      && (forall key: ValueKey ::
          !(key.device == device && key.space == f && b.start <= key.index <= b.end && 0 <= key.index <= limit
            && 2 * (key.index - b.start) + 1 < |b.values|) ==>
          Lookup(after, key) == Lookup(t.values, key))
  {
    BlockIsRecorded(t, device, f, b, b.start, limit, changesOnly);
  }

  ghost predicate Covers(block: Option<Block>, index: int) {
    block.Some? && block.value.start <= index <= block.value.end
  }

  lemma {:induction false} BlocksSpareOthers(
      t: Trace, device: string, f: int, blocks: seq<Option<Block>>, limit: int, changesOnly: bool, key: ValueKey)
    requires !(key.device == device && key.space == f && exists i :: 0 <= i < |blocks| && Covers(blocks[i], key.index))
    ensures Lookup(PlainBlocks(t, device, f, blocks, limit, changesOnly).values, key) == Lookup(t.values, key)
    decreases |blocks|
  {
    if blocks != [] {
      assert forall i :: 0 <= i < |blocks[1..]| ==> blocks[1..][i] == blocks[i + 1];
      if blocks[0].None? {
        BlocksSpareOthers(t, device, f, blocks[1..], limit, changesOnly, key);
      } else {
        var b := blocks[0].value;
        EveryWordIsSeen(t, device, f, b, limit, changesOnly);
        assert key.device == device && key.space == f ==> !Covers(blocks[0], key.index);
        var seen := PlainRegisters(t, device, f, b, b.start, limit, changesOnly);
        BlocksSpareOthers(seen, device, f, blocks[1..], limit, changesOnly, key);
      }
    }
  }

  /** Of a message with several blocks, the last one that covers a register decides. */
  lemma {:induction false} LastBlockDecides(
      t: Trace, device: string, f: int, blocks: seq<Option<Block>>, limit: int, changesOnly: bool, i: nat, r: int)
    requires i < |blocks| && blocks[i].Some?
    requires var b := blocks[i].value;
      b.start <= r <= b.end && 0 <= r <= limit && 2 * (r - b.start) + 1 < |b.values|
    requires forall j :: i < j < |blocks| ==> !Covers(blocks[j], r)
    ensures var b := blocks[i].value;
      Lookup(PlainBlocks(t, device, f, blocks, limit, changesOnly).values, ValueKey(device, f, r)) ==
        Some(b.values[2 * (r - b.start)] as int * 256 + b.values[2 * (r - b.start) + 1] as int)
    decreases |blocks|
  {
    var rest := blocks[1..];
    assert forall j :: 0 <= j < |rest| ==> rest[j] == blocks[j + 1];
    var b := blocks[0];
    var seen := if b.None? then t else PlainRegisters(t, device, f, b.value, b.value.start, limit, changesOnly);
    assert PlainBlocks(t, device, f, blocks, limit, changesOnly) ==
      PlainBlocks(seen, device, f, rest, limit, changesOnly);
    if i > 0 {
      LastBlockDecides(seen, device, f, rest, limit, changesOnly, i - 1, r);
    } else {
      EveryWordIsSeen(t, device, f, b.value, limit, changesOnly);
      BlocksSpareOthers(seen, device, f, rest, limit, changesOnly, ValueKey(device, f, r));
    }
  }

  /** The values of a row get consecutive indexes, and nothing else changes. */
  lemma {:induction false} EveryValueIsSeen(
    t: Trace, source: Source, device: string, space: int, first: int, row: seq<int>, from: nat, changesOnly: bool)
    requires from <= |row|
    ensures var after := PlainRow(t, source, device, space, first, row, from, changesOnly).values;
      && (forall i :: from <= i < |row| ==> Lookup(after, ValueKey(device, space, first + i)) == Some(row[i]))
      && (forall key: ValueKey ::
          !(key.device == device && key.space == space && first + from <= key.index < first + |row|) ==>
          Lookup(after, key) == Lookup(t.values, key))
    decreases |row| - from
  {
    if from < |row| {
      var seen := Observe(t, source, ValueKey(device, space, first + from), row[from], changesOnly);
      EveryValueIsSeen(seen, source, device, space, first, row, from + 1, changesOnly);
    }
  }

  /** A 0x0103 message: each value under its own position, each embedded one under its register up to the end of the
      range and the limit, and no key of another space or device. */
  lemma EveryNoahValueIsSeen(
    t: Trace, device: string, raw: string, registers: seq<int>, embedded: Option<EmbeddedBlock.Block>, limit: int,
    changesOnly: bool)
    ensures var after := PlainEvent(t, NoahEvent(device, raw, registers, embedded), limit, changesOnly).values;
      && (forall i :: 0 <= i < |registers| ==> Lookup(after, ValueKey(device, 0x0103, i)) == Some(registers[i]))
      && (embedded.Some? ==> var b := embedded.value;
          forall i: nat :: i < |b.values| && b.start + i <= b.end && b.start + i <= limit ==>
            Lookup(after, ValueKey(device, 0x010303, b.start + i)) == Some(b.values[i]))
      && (forall key: ValueKey :: !(key.device == device && key.space in {0x0103, 0x010303}) ==>
          Lookup(after, key) == Lookup(t.values, key))
  {
    EveryValueIsSeen(t, RawValues(raw, |registers|), device, RAW_SPACE, 0, registers, 0, changesOnly);
    if embedded.Some? {
      var b := embedded.value;
      var seen := PlainRow(t, RawValues(raw, |registers|), device, RAW_SPACE, 0, registers, 0, changesOnly);
      AdmittedValues(b, limit);
      assert forall i: nat :: i < |b.values| && b.start + i <= b.end && b.start + i <= limit ==> InRange(b, limit, i);
      EveryValueIsSeen(seen, EmbeddedValues(raw, b.offset, b.start, b.end), device, EMBEDDED_SPACE, b.start,
                       Admitted(b, limit), 0, changesOnly);
    }
  }

  // ---- the values after a run

  /** A message that can tell something about a register of a Modbus function. */
  ghost predicate Mentions(e: Event, key: ValueKey) {
    match e
    case ModbusEvent(device, f, blocks) =>
      device == key.device && f == key.space && exists i :: 0 <= i < |blocks| && Covers(blocks[i], key.index)
    case NoahEvent(device, _, _, _) => device == key.device && key.space in {0x0103, 0x010303}
  }

  lemma OthersSpare(t: Trace, e: Event, limit: int, changesOnly: bool, key: ValueKey)
    requires !Mentions(e, key)
    ensures Lookup(PlainEvent(t, e, limit, changesOnly).values, key) == Lookup(t.values, key)
  {
    match e
    case ModbusEvent(device, f, blocks) => BlocksSpareOthers(t, device, f, blocks, limit, changesOnly, key);
    case NoahEvent(device, raw, registers, embedded) =>
      EveryNoahValueIsSeen(t, device, raw, registers, embedded, limit, changesOnly);
  }

  lemma {:induction false} SilenceKeeps(
    values: map<ValueKey, int>, events: seq<Event>, limit: int, changesOnly: bool, key: ValueKey)
    requires forall i :: 0 <= i < |events| ==> !Mentions(events[i], key)
    ensures Lookup(PlainRun(values, events, limit, changesOnly).values, key) == Lookup(values, key)
    decreases |events|
  {
    if events != [] {
      OthersSpare(Trace(values, []), events[0], limit, changesOnly, key);
      var first := PlainEvent(Trace(values, []), events[0], limit, changesOnly);
      SilenceKeeps(first.values, events[1..], limit, changesOnly, key);
    }
  }

  /** Over a whole run a register holds the word of the last block that covers it, if that block carries it. */
  lemma {:induction false} LastWordStands(
    values: map<ValueKey, int>, events: seq<Event>, limit: int, changesOnly: bool, n: nat, i: nat, r: int)
    requires n < |events| && events[n].ModbusEvent? && i < |events[n].blocks| && events[n].blocks[i].Some?
    requires var b := events[n].blocks[i].value;
      b.start <= r <= b.end && 0 <= r <= limit && 2 * (r - b.start) + 1 < |b.values|
    requires forall j :: i < j < |events[n].blocks| ==> !Covers(events[n].blocks[j], r)
    requires forall m :: n < m < |events| ==> !Mentions(events[m], ValueKey(events[n].device, events[n].f, r))
    ensures var key, b := ValueKey(events[n].device, events[n].f, r), events[n].blocks[i].value;
      Lookup(PlainRun(values, events, limit, changesOnly).values, key) ==
        Some(b.values[2 * (r - b.start)] as int * 256 + b.values[2 * (r - b.start) + 1] as int)
    decreases |events|
  {
    var rest := events[1..];
    assert forall m :: 0 <= m < |rest| ==> rest[m] == events[m + 1];
    var first := PlainEvent(Trace(values, []), events[0], limit, changesOnly);
    if n > 0 {
      LastWordStands(first.values, rest, limit, changesOnly, n - 1, i, r);
    } else {
      var e := events[0];
      LastBlockDecides(Trace(values, []), e.device, e.f, e.blocks, limit, changesOnly, i, r);
      SilenceKeeps(first.values, rest, limit, changesOnly, ValueKey(e.device, e.f, r));
    }
  }

  // ---- the records

  /** The last register of a block that the limit admits and whose two bytes are there. */
  function LastCarried(b: Block, limit: int): int {
    var last := if b.end < limit then b.end else limit;
    if b.start + |b.values| / 2 - 1 < last then b.start + |b.values| / 2 - 1 else last
  }

  /** In full mode each register carried from here on has one record, in order, with the value it had before. */
  lemma {:induction false} FullWalkRecords(t: Trace, device: string, f: int, b: Block, from: int, limit: int)
    requires b.start <= from && 0 <= from
    ensures var after, last := PlainRegisters(t, device, f, b, from, limit, false).records, LastCarried(b, limit);
      && |after| == |t.records| + (if from <= last then last + 1 - from else 0) && t.records <= after
      && forall r :: from <= r <= last ==>
        var word := b.values[2 * (r - b.start)] as int * 256 + b.values[2 * (r - b.start) + 1] as int;
        var was := Lookup(t.values, ValueKey(device, f, r));
        after[|t.records| + r - from] ==
          Record(ModbusBlock(b.start, b.end), ValueKey(device, f, r), word, was, was != Some(word))
    decreases b.end + 1 - from
  {
    if from <= b.end {
      if Carries(b.start, b.values, limit, from) {
        var key, word := ValueKey(device, f, from), WordAt(b.start, b.values, from);
        var seen := Observe(t, ModbusBlock(b.start, b.end), key, word, false);
        FullWalkRecords(seen, device, f, b, from + 1, limit);
      } else {
        FullWalkRecords(t, device, f, b, from + 1, limit);
      }
    }
  }

  /** And each value of a row has one. */
  lemma {:induction false} FullRowRecords(
      t: Trace, source: Source, device: string, space: int, first: int, row: seq<int>, from: nat)
    requires from <= |row|
    ensures var after := PlainRow(t, source, device, space, first, row, from, false).records;
      && |after| == |t.records| + |row| - from && t.records <= after
      && forall i :: from <= i < |row| ==>
        var key := ValueKey(device, space, first + i);
        after[|t.records| + i - from] ==
          Record(source, key, row[i], Lookup(t.values, key), Lookup(t.values, key) != Some(row[i]))
    decreases |row| - from
  {
    if from < |row| {
      var seen := Observe(t, source, ValueKey(device, space, first + from), row[from], false);
      FullRowRecords(seen, source, device, space, first, row, from + 1);
    }
  }

  /** The records that say that something changed. */
  function OnlyChanged(records: seq<Record>): seq<Record> {
    if records == [] then [] else
    var n := |records| - 1;
    OnlyChanged(records[..n]) + if records[n].changed then [records[n]] else []
  }

  /** The same values, and of the records those that report a change. */
  ghost predicate Thinned(only: Trace, full: Trace) {
    only.values == full.values && only.records == OnlyChanged(full.records)
  }

  lemma ObserveThinned(only: Trace, full: Trace, source: Source, key: ValueKey, value: int)
    requires Thinned(only, full)
    ensures Thinned(Observe(only, source, key, value, true), Observe(full, source, key, value, false))
  {
    var previous := Lookup(full.values, key);
    var longer := full.records + [Record(source, key, value, previous, previous != Some(value))];
    assert longer[..|longer| - 1] == full.records;
  }

  lemma {:induction false} RegistersThinned(
      only: Trace, full: Trace, device: string, f: int, b: Block, from: int, limit: int)
    requires Thinned(only, full) && b.start <= from
    ensures Thinned(PlainRegisters(only, device, f, b, from, limit, true),
                    PlainRegisters(full, device, f, b, from, limit, false))
    decreases b.end + 1 - from
  {
    if from <= b.end {
      if Carries(b.start, b.values, limit, from) {
        var source, key, word :=
          ModbusBlock(b.start, b.end), ValueKey(device, f, from), WordAt(b.start, b.values, from);
        ObserveThinned(only, full, source, key, word);
        RegistersThinned(Observe(only, source, key, word, true), Observe(full, source, key, word, false), device, f, b,
                         from + 1, limit);
      } else {
        RegistersThinned(only, full, device, f, b, from + 1, limit);
      }
    }
  }

  lemma {:induction false} BlocksThinned(
      only: Trace, full: Trace, device: string, f: int, blocks: seq<Option<Block>>, limit: int)
    requires Thinned(only, full)
    ensures Thinned(PlainBlocks(only, device, f, blocks, limit, true),
                    PlainBlocks(full, device, f, blocks, limit, false))
    decreases |blocks|
  {
    if blocks != [] {
      if blocks[0].None? {
        BlocksThinned(only, full, device, f, blocks[1..], limit);
      } else {
        var b := blocks[0].value;
        RegistersThinned(only, full, device, f, b, b.start, limit);
        BlocksThinned(PlainRegisters(only, device, f, b, b.start, limit, true),
                      PlainRegisters(full, device, f, b, b.start, limit, false), device, f, blocks[1..], limit);
      }
    }
  }

  lemma {:induction false} RowThinned(
    only: Trace, full: Trace, source: Source, device: string, space: int, first: int, row: seq<int>, from: nat)
    requires Thinned(only, full) && from <= |row|
    ensures Thinned(PlainRow(only, source, device, space, first, row, from, true),
                    PlainRow(full, source, device, space, first, row, from, false))
    decreases |row| - from
  {
    if from < |row| {
      var key := ValueKey(device, space, first + from);
      ObserveThinned(only, full, source, key, row[from]);
      RowThinned(Observe(only, source, key, row[from], true), Observe(full, source, key, row[from], false), source,
                 device, space, first, row, from + 1);
    }
  }

  lemma EventThinned(values: map<ValueKey, int>, e: Event, limit: int)
    ensures Thinned(PlainEvent(Trace(values, []), e, limit, true), PlainEvent(Trace(values, []), e, limit, false))
  {
    var none := Trace(values, []);
    match e
    case ModbusEvent(device, f, blocks) => BlocksThinned(none, none, device, f, blocks, limit);
    case NoahEvent(device, raw, registers, embedded) =>
      var source := RawValues(raw, |registers|);
      RowThinned(none, none, source, device, RAW_SPACE, 0, registers, 0);
      if embedded.Some? {
        var b := embedded.value;
        RowThinned(PlainRow(none, source, device, RAW_SPACE, 0, registers, 0, true),
                   PlainRow(none, source, device, RAW_SPACE, 0, registers, 0, false),
                   EmbeddedValues(raw, b.offset, b.start, b.end), device, EMBEDDED_SPACE, b.start, Admitted(b, limit),
                   0);
      }
  }

  lemma {:induction false} OnlyChangedJoins(a: seq<Record>, b: seq<Record>)
    ensures OnlyChanged(a + b) == OnlyChanged(a) + OnlyChanged(b)
    decreases |b|
  {
    if b == [] {
      assert a + b == a && OnlyChanged(a) + [] == OnlyChanged(a);
    } else {
      var n := |b| - 1;
      assert (a + b)[..|a| + n] == a + b[..n];
      OnlyChangedJoins(a, b[..n]);
      ConcatAssociates(OnlyChanged(a), OnlyChanged(b[..n]), if b[n].changed then [b[n]] else []);
    }
  }

  /** Over every run the changes-only dump is the full dump without the records that report no change. */
  lemma {:induction false} ChangesOnlyIsThinned(values: map<ValueKey, int>, events: seq<Event>, limit: int)
    ensures Thinned(PlainRun(values, events, limit, true), PlainRun(values, events, limit, false))
    decreases |events|
  {
    if events != [] {
      EventThinned(values, events[0], limit);
      var full := PlainEvent(Trace(values, []), events[0], limit, false);
      ChangesOnlyIsThinned(full.values, events[1..], limit);
      OnlyChangedJoins(full.records, PlainRun(full.values, events[1..], limit, false).records);
    }
  }
}
