/** Reading the serials out of a packet, before and after it has been remapped. */
module SlotSerials {
  import opened Wire
  import opened SlotKeys
  import opened SlotResolution
  import opened SlotRemap

  /** A telemetry value: None, or something with a text. */
  datatype Cell = Null | Shown(text: string)

  /** What str.strip() removes. */
  predicate IsSpace(c: char) {
    c in {'\t', '\n', '\U{0B}', '\U{0C}', '\r', '\U{1C}', '\U{1D}', '\U{1E}', '\U{1F}', ' ', '\U{85}', '\U{A0}',
          '\U{1680}', '\U{2028}', '\U{2029}', '\U{202F}', '\U{205F}', '\U{3000}'}
    || '\U{2000}' <= c <= '\U{200A}'
  }

  function TrimRight(s: string): string { if s != [] && IsSpace(s[|s| - 1]) then TrimRight(s[..|s| - 1]) else s }

  function TrimLeft(s: string): string { if s != [] && IsSpace(s[0]) then TrimLeft(s[1..]) else s }

  function Trim(s: string): string { TrimLeft(TrimRight(s)) }

  /** _clean_serial_part of a text: white space, then NULs, then white space again. */
  function Clean(s: string): string { Trim(Strip(Trim(s), '\0')) }

  function CleanCell(c: Option<Cell>): string {
    if c == None || c == Some(Null) then "" else Clean(c.value.text)
  }

  predicate IsAlnum(c: char) { '0' <= c <= '9' || 'A' <= c <= 'Z' || 'a' <= c <= 'z' }

  predicate PlausibleChar(c: char) { IsAlnum(c) || c == '.' || c == '_' || c == '-' }

  predicate Plausible(serial: string) {
    8 <= |serial| <= 40 && forall i :: 0 <= i < |serial| ==> PlausibleChar(serial[i])
  }

  const PARTS := "1234"

  function PartKey(slot: int, part: nat): string
    requires IsSlot(slot) && part < 4
  {
    "bat" + [Digit(slot)] + "_ser_part_" + [PARTS[part]]
  }

  /** The serial that four fragments spell, if they are complete and plausible. */
  function SerialOf(a: Option<Cell>, b: Option<Cell>, c: Option<Cell>, d: Option<Cell>): Option<string> {
    var p, q, r, s := CleanCell(a), CleanCell(b), CleanCell(c), CleanCell(d);
    var whole := |p| > 4 && q == "" && r == "" && s == "";
    if !whole && (IsMissing(a) || IsMissing(b) || IsMissing(c) || IsMissing(d)) then None
    else WholeSerial(Trim(p + q + r + s))
  }

  function WholeSerial(serial: string): Option<string> { if Plausible(serial) then Some(serial) else None }

  predicate IsMissing(c: Option<Cell>) { c == None || c == Some(Null) }

  /** A piece of a serial is read back from a field padded with NULs. */
  lemma {:induction false} PaddedPieceIsClean(piece: string, n: nat)
    requires forall i :: 0 <= i < |piece| ==> PlausibleChar(piece[i])
    ensures Clean(piece + Repeat('\0', n)) == piece
  {
    var padded := piece + Repeat('\0', n);
    assert TrimRight(padded) == padded && TrimLeft(padded) == padded;
    RStripPadded(piece, '\0', n);
    assert RStrip(piece, '\0') == piece && LStrip(piece, '\0') == piece;
    assert TrimRight(piece) == piece && TrimLeft(piece) == piece;
  }

  lemma PieceOfPlausible(before: string, piece: string, after: string)
    requires Plausible(before + piece + after)
    ensures forall i :: 0 <= i < |piece| ==> PlausibleChar(piece[i])
  {
    assert forall i :: 0 <= i < |piece| ==> piece[i] == (before + piece + after)[|before| + i];
  }

  lemma PaddedPiece(before: string, piece: string, after: string, pad: nat)
    requires Plausible(before + piece + after)
    ensures CleanCell(Some(Shown(piece + Repeat('\0', pad)))) == piece
  {
    PieceOfPlausible(before, piece, after);
    PaddedPieceIsClean(piece, pad);
  }

  lemma CleanedPiecesSpell(a: Cell, b: Cell, c: Cell, d: Cell, serial: string)
    requires a.Shown? && b.Shown? && c.Shown? && d.Shown? && Plausible(serial)
    requires CleanCell(Some(a)) + CleanCell(Some(b)) + CleanCell(Some(c)) + CleanCell(Some(d)) == serial
    ensures SerialOf(Some(a), Some(b), Some(c), Some(d)) == Some(serial)
  {
    PlausibleIsTrimmed(serial);
  }

  lemma PlausibleIsTrimmed(serial: string)
    requires Plausible(serial)
    ensures Trim(serial) == serial
  {
    assert TrimRight(serial) == serial && TrimLeft(serial) == serial;
  }

  /** However a plausible serial is cut into four fields, each with any padding, the fields spell it. */
  lemma {:induction false} FragmentsSpellSerial(p: string, q: string, r: string, s: string, pad: nat)
    requires Plausible(p + q + r + s)
    ensures SerialOf(Some(Shown(p + Repeat('\0', pad))), Some(Shown(q + Repeat('\0', pad))),
                     Some(Shown(r + Repeat('\0', pad))), Some(Shown(s + Repeat('\0', pad)))) == Some(p + q + r + s)
  {
    assert p + q + r + s == [] + p + (q + r + s) == p + q + (r + s) == p + q + r + s + [];
    PaddedPiece([], p, q + r + s, pad);
    PaddedPiece(p, q, r + s, pad);
    PaddedPiece(p + q, r, s, pad);
    PaddedPiece(p + q + r, s, [], pad);
    CleanedPiecesSpell(Shown(p + Repeat('\0', pad)), Shown(q + Repeat('\0', pad)),
                       Shown(r + Repeat('\0', pad)), Shown(s + Repeat('\0', pad)), p + q + r + s);
  }

  /** A whole serial in the first field needs no others; a serial cut into fields needs all four. */
  lemma {:induction false} MissingFragmentIff(p: string, q: Option<Cell>, r: Option<Cell>, s: Option<Cell>)
    requires Plausible(p) && (IsMissing(q) || IsMissing(r) || IsMissing(s))
    ensures SerialOf(Some(Shown(p)), q, r, s) ==
      if CleanCell(q) == "" && CleanCell(r) == "" && CleanCell(s) == "" then Some(p) else None
  {
    PaddedPieceIsClean(p, 0);
    assert p + Repeat('\0', 0) == p;
    assert p + "" + "" + "" == p;
    assert TrimRight(p) == p && TrimLeft(p) == p;
  }

  function SerialAt(m: map<string, Cell>, slot: int): Option<string>
    requires IsSlot(slot)
  {
    SerialOf(Lookup(m, PartKey(slot, 0)), Lookup(m, PartKey(slot, 1)),
             Lookup(m, PartKey(slot, 2)), Lookup(m, PartKey(slot, 3)))
  }

  /** _serials_from_payload */
  function SerialsOf(m: map<string, Cell>): (serials: BySlot)
    ensures OnSlots(serials)
  {
    map slot | slot in {2, 3, 4} && SerialAt(m, slot).Some? :: SerialAt(m, slot).value
  }

  /** In characters: four cells spell a serial exactly when all are there, or the first alone has more than four
      characters, and what they spell is 8 to 40 letters, digits, dots, underscores and hyphens. */
  lemma SerialIsSpeltIff(p: Option<Cell>, q: Option<Cell>, r: Option<Cell>, s: Option<Cell>)
    ensures var complete := !IsMissing(p) && !IsMissing(q) && !IsMissing(r) && !IsMissing(s);
      var alone := |CleanCell(p)| > 4 && CleanCell(q) == CleanCell(r) == CleanCell(s) == "";
      var text := Trim(CleanCell(p) + CleanCell(q) + CleanCell(r) + CleanCell(s));
      var plausible := 8 <= |text| <= 40 && forall i :: 0 <= i < |text| ==>
        'a' <= text[i] <= 'z' || 'A' <= text[i] <= 'Z' || '0' <= text[i] <= '9' || text[i] in {'.', '_', '-'};
      SerialOf(p, q, r, s) == if (complete || alone) && plausible then Some(text) else None
  {}

  /** And each slot's cells are the ones under its four part names. */
  lemma SerialIsReadFrom(m: map<string, Cell>, slot: int)
    requires IsSlot(slot)
    ensures var name := "bat" + (if slot == 2 then "2" else if slot == 3 then "3" else "4") + "_ser_part_";
      Lookup(SerialsOf(m), slot) ==
        SerialOf(Lookup(m, name + "1"), Lookup(m, name + "2"), Lookup(m, name + "3"), Lookup(m, name + "4"))
  {
    PartNames(slot);
  }

  lemma PartNames(slot: int)
    requires IsSlot(slot)
    ensures var name := "bat" + (if slot == 2 then "2" else if slot == 3 then "3" else "4") + "_ser_part_";
      && PartKey(slot, 0) == name + "1" && PartKey(slot, 1) == name + "2"
      && PartKey(slot, 2) == name + "3" && PartKey(slot, 3) == name + "4"
  {}

  lemma PartKeySlot(slot: int, part: nat, to: int)
    requires IsSlot(slot) && part < 4 && IsSlot(to)
    ensures LogicalSlot(PartKey(slot, part)) == Some(slot) && RemapKey(PartKey(slot, part), to) == PartKey(to, part)
  {
    var key, moved := PartKey(slot, part), PartKey(to, part);
    assert DigitPosition(key) == Some(3);
    assert key[..3] == moved[..3] && key[4..] == moved[4..];
  }

  lemma PartKeysDiffer(s: int, a: nat, t: int, b: nat)
    requires IsSlot(s) && IsSlot(t) && a < 4 && b < 4 && (s != t || a != b)
    ensures PartKey(s, a) != PartKey(t, b)
  {
    assert PartKey(s, a)[3] == Digit(s) && PartKey(t, b)[3] == Digit(t);
    assert PartKey(s, a)[14] == PARTS[a] == "1234"[a] && PartKey(t, b)[14] == PARTS[b] == "1234"[b];
  }

  /** With no shared slot, a name's destination holds exactly that name's value. */
  lemma {:induction false} FoundAtDestination(plan: Plan, payload: Items<Cell>, key: string)
    requires plan.Sane() && NoSharedSlot(plan.placed) && Destination(plan, key).Some?
    ensures Found(plan, payload, Destination(plan, key).value) == Lookup(AsMap(payload), key)
  {
    if payload != [] {
      var last := payload[|payload| - 1].0;
      FoundAtDestination(plan, payload[..|payload| - 1], key);
      if Destination(plan, last) == Destination(plan, key) {
        DestinationInjective(plan, last, key);
      }
    }
  }

  lemma {:induction false} FoundNowhere(plan: Plan, payload: Items<Cell>, target: string)
    requires plan.Sane() && forall key :: Destination(plan, key) != Some(target)
    ensures Found(plan, payload, target) == None
  {
    if payload != [] {
      assert Destination(plan, payload[|payload| - 1].0) != Some(target);
      FoundNowhere(plan, payload[..|payload| - 1], target);
    }
  }

  /** The physical slot whose values arrive at a logical slot, if any. */
  ghost predicate Feeds(plan: Plan, from: int, slot: int) {
    if from in plan.placed then plan.placed[from] == slot else from == slot && !Dropped(plan, from)
  }

  /** One fragment of a slot in the remapped packet: that of the slot which feeds it, or nothing. */
  lemma PartAfterRemap(plan: Plan, payload: Items<Cell>, slot: int, part: nat, from: int)
    requires plan.Sane() && NoSharedSlot(plan.placed) && IsSlot(slot) && part < 4 && IsSlot(from)
    requires Feeds(plan, from, slot)
    ensures Found(plan, payload, PartKey(slot, part)) == Lookup(AsMap(payload), PartKey(from, part))
  {
    PartKeySlot(from, part, slot);
    FoundAtDestination(plan, payload, PartKey(from, part));
  }

  lemma NoPartAfterRemap(plan: Plan, payload: Items<Cell>, slot: int, part: nat)
    requires plan.Sane() && IsSlot(slot) && part < 4 && forall from :: IsSlot(from) ==> !Feeds(plan, from, slot)
    ensures Found(plan, payload, PartKey(slot, part)) == None
  {
    forall key
      ensures Destination(plan, key) != Some(PartKey(slot, part))
    {
      PartKeySlot(slot, part, slot);
      if LogicalSlot(key).Some? {
        var own := LogicalSlot(key).value;
        RemapMovesSlot(key, if own in plan.placed then plan.placed[own] else own);
        assert !Feeds(plan, own, slot);
      }
    }
    FoundNowhere(plan, payload, PartKey(slot, part));
  }

  lemma SerialAfterRemap(plan: Plan, payload: Items<Cell>, result: map<string, Cell>, slot: int, from: int)
    requires plan.Sane() && NoSharedSlot(plan.placed) && IsSlot(slot) && IsSlot(from) && Feeds(plan, from, slot)
    requires IsRemapped(plan, payload, result)
    ensures SerialAt(result, slot) == SerialAt(AsMap(payload), from)
  {
    PartAfterRemap(plan, payload, slot, 0, from);
    PartAfterRemap(plan, payload, slot, 1, from);
    PartAfterRemap(plan, payload, slot, 2, from);
    PartAfterRemap(plan, payload, slot, 3, from);
  }

  lemma NoSerialAfterRemap(plan: Plan, payload: Items<Cell>, result: map<string, Cell>, slot: int)
    requires plan.Sane() && IsSlot(slot) && forall from :: IsSlot(from) ==> !Feeds(plan, from, slot)
    requires IsRemapped(plan, payload, result)
    ensures SerialAt(result, slot) == None
  {
    NoPartAfterRemap(plan, payload, slot, 0);
    NoPartAfterRemap(plan, payload, slot, 1);
    assert Lookup(result, PartKey(slot, 0)) == None && Lookup(result, PartKey(slot, 1)) == None;
  }

  /** The plan of a packet under a history. */
  function PlanOf(payload: Items<Cell>, manual: BySlot, mapping: SlotMap, stable: bool): Plan {
    var serials := SerialsOf(AsMap(payload));
    Plan(Resolution(serials, manual, mapping, stable), serials, Reserved(manual))
  }

  /** A remapped packet reports exactly the placed batteries, each at its logical slot. */
  lemma {:induction false} SerialsArrive(plan: Plan, payload: Items<Cell>, result: map<string, Cell>)
    requires plan.Sane() && NoSharedSlot(plan.placed) && plan.serials == SerialsOf(AsMap(payload))
    requires IsRemapped(plan, payload, result)
    ensures forall slot :: slot in SerialsOf(result) <==> slot in Taken(plan.placed)
    ensures forall p :: p in plan.placed ==> SerialsOf(result)[plan.placed[p]] == plan.serials[p]
  {
    forall p | p in plan.placed
      ensures plan.placed[p] in SerialsOf(result) && SerialsOf(result)[plan.placed[p]] == plan.serials[p]
    {
      SerialAfterRemap(plan, payload, result, plan.placed[p], p);
    }
    forall slot | IsSlot(slot) && slot !in Taken(plan.placed)
      ensures slot !in SerialsOf(result)
    {
      if Feeds(plan, slot, slot) {
        SerialAfterRemap(plan, payload, result, slot, slot);
      } else {
        forall from | IsSlot(from)
          ensures !Feeds(plan, from, slot)
        {
          assert from in plan.placed ==> plan.placed[from] in Taken(plan.placed);
        }
        NoSerialAfterRemap(plan, payload, result, slot);
      }
    }
  }

  /** Reports that are already at their stable slots. */
  ghost predicate Settled(serials: BySlot, mapping: SlotMap) {
    forall slot :: slot in serials ==> serials[slot] in mapping && mapping[serials[slot]] == slot
  }

  /** Stable slots for distinct batteries: everything the first pass publishes is settled. */
  lemma FirstPassSettles(payload: Items<Cell>, result: map<string, Cell>, manual: BySlot, mapping: SlotMap)
    requires MapsToSlots(mapping) && Injective(mapping) && AllAutomatic(manual)
    requires Injective(SerialsOf(AsMap(payload)))
    requires forall p :: p in SerialsOf(AsMap(payload)) ==> SerialsOf(AsMap(payload))[p] in mapping
    requires var serials := SerialsOf(AsMap(payload));
      var plan := Plan(Resolution(serials, manual, mapping, true), serials, {});
      plan.Sane() && IsRemapped(plan, payload, result)
    ensures Settled(SerialsOf(result), mapping)
  {
    var serials := SerialsOf(AsMap(payload));
    var plan := Plan(Resolution(serials, manual, mapping, true), serials, {});
    StableSlotsAreKept(serials, manual, mapping);
    forall p, q | p in plan.placed && q in plan.placed && p != q
      ensures plan.placed[p] != plan.placed[q]
    {
      assert serials[p] != serials[q];
    }
    SerialsArrive(plan, payload, result);
    forall slot | slot in SerialsOf(result)
      ensures SerialsOf(result)[slot] in mapping && mapping[SerialsOf(result)[slot]] == slot
    {
      assert slot in Taken(plan.placed);
    }
  }

  lemma SettledPlanIsUnchanged(serials: BySlot, manual: BySlot, mapping: SlotMap)
    requires OnSlots(serials) && MapsToSlots(mapping) && Injective(mapping) && AllAutomatic(manual)
    requires Settled(serials, mapping)
    ensures var plan := Plan(Resolution(serials, manual, mapping, true), serials, {}); plan.Sane() && Unchanged(plan)
  {
    forall a, b | a in serials && b in serials && serials[a] == serials[b]
      ensures a == b
    {
      assert mapping[serials[a]] == a && mapping[serials[b]] == b;
    }
    var placed := Resolution(serials, manual, mapping, true);
    StableSlotsAreKept(serials, manual, mapping);
    ResolutionIsSound(serials, manual, mapping, true);
    assert forall p :: p in serials ==> p in placed.Keys;
    assert placed.Keys == serials.Keys;
  }

  /** Stabilizing is idempotent: a packet that has been moved to its stable slots is not moved again. */
  lemma {:induction false} StabilizedStays(
    payload: Items<Cell>, result: map<string, Cell>, again: Items<Cell>, manual: BySlot, mapping: SlotMap)
    requires MapsToSlots(mapping) && Injective(mapping) && AllAutomatic(manual)
    requires Injective(SerialsOf(AsMap(payload)))
    requires forall p :: p in SerialsOf(AsMap(payload)) ==> SerialsOf(AsMap(payload))[p] in mapping
    requires var serials := SerialsOf(AsMap(payload));
      var plan := Plan(Resolution(serials, manual, mapping, true), serials, {});
      plan.Sane() && IsRemapped(plan, payload, result)
    requires AsMap(again) == result
    ensures var second := Plan(Resolution(SerialsOf(result), manual, mapping, true), SerialsOf(result), {});
      second.Sane() && IsRemapped(second, again, result)
  {
    FirstPassSettles(payload, result, manual, mapping);
    SettledPlanIsUnchanged(SerialsOf(result), manual, mapping);
    var second := Plan(Resolution(SerialsOf(result), manual, mapping, true), SerialsOf(result), {});
    forall k
      ensures Lookup(result, k) == Found(second, again, k)
    {
      UnchangedIsIdentity(second, again, k);
    }
  }

  /** A packet that spells one serial at slot 3, whole in its first field. */
  function WholeSerialAtThree(serial: string): Items<Cell> { [(PartKey(3, 0), Shown(serial))] }

  lemma OnlyPartAtThree(m: map<string, Cell>, serial: string)
    requires Plausible(serial) && m == map[PartKey(3, 0) := Shown(serial)]
    ensures SerialAt(m, 3) == Some(serial)
  {
    MissingFragmentIff(serial, None, None, None);
    PartKeysDiffer(3, 0, 3, 1);
    PartKeysDiffer(3, 0, 3, 2);
    PartKeysDiffer(3, 0, 3, 3);
  }

  lemma NoPartElsewhere(m: map<string, Cell>, serial: string, slot: int)
    requires m == map[PartKey(3, 0) := Shown(serial)] && IsSlot(slot) && slot != 3
    ensures SerialAt(m, slot) == None
  {
    PartKeysDiffer(3, 0, slot, 0);
    assert Lookup(m, PartKey(slot, 0)) == None;
    assert CleanCell(None) == "";
  }

  lemma AsMapOne(key: string, value: Cell)
    ensures AsMap([(key, value)]) == map[key := value]
  {
    var payload: Items<Cell> := [(key, value)];
    assert payload[..0] == [] && AsMap(payload[..0]) == map[];
  }

  lemma OnlyAtThree(m: map<string, Cell>, serial: string)
    requires SerialAt(m, 2) == None && SerialAt(m, 3) == Some(serial) && SerialAt(m, 4) == None
    ensures SerialsOf(m) == map[3 := serial]
  {}

  lemma WholeSerialIsReported(serial: string)
    requires Plausible(serial)
    ensures SerialsOf(AsMap(WholeSerialAtThree(serial))) == map[3 := serial]
  {
    var m := AsMap(WholeSerialAtThree(serial));
    AsMapOne(PartKey(3, 0), Shown(serial));
    OnlyPartAtThree(m, serial);
    NoPartElsewhere(m, serial, 2);
    NoPartElsewhere(m, serial, 4);
    OnlyAtThree(m, serial);
  }

  /** Without stable slots and manual choices such a packet, of which 1 is reported as the highest slot, has a battery
      at 3. */
  lemma HighestMissedExample(serial: string)
    requires Plausible(serial)
    ensures var serials := SerialsOf(AsMap(WholeSerialAtThree(serial)));
      Highest(Resolution(serials, map[], map[], false)) == 3 && AllAutomatic(map[])
  {
    WholeSerialIsReported(serial);
    var serials, none: BySlot := map[3 := serial], map[];
    assert AllAutomatic(none);
    ReportedSlotsAreKept(serials, none, map[]);
    ResolutionIsSound(serials, none, map[], false);
    var placed := Resolution(serials, none, map[], false);
    assert placed[3] in Taken(placed);
    assert forall slot :: slot in Taken(placed) ==> slot == 3;
  }
}
