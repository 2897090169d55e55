/** What happens to a packet that reports one explicitly assigned battery at two physical slots. */
module SharedSlot {
  import opened Wire
  import opened SlotKeys
  import opened SlotResolution
  import opened SlotRemap
  import opened SlotSerials
  import ManualChoices

  lemma {:induction false} AsMapAt<V>(payload: Items<V>, i: nat)
    requires DistinctKeys(payload) && i < |payload|
    ensures Lookup(AsMap(payload), payload[i].0) == Some(payload[i].1)
  {
    var n := |payload| - 1;
    if i < n {
      AsMapAt(payload[..n], i);
    }
  }

  lemma {:induction false} LastWins<V>(plan: Plan, payload: Items<V>, i: nat, target: string)
    requires plan.Sane() && i < |payload| && Destination(plan, payload[i].0) == Some(target)
    requires forall k :: i < k < |payload| ==> Destination(plan, payload[k].0) != Some(target)
    ensures Found(plan, payload, target) == Some(payload[i].1)
  {
    var n := |payload| - 1;
    if i < n {
      LastWins(plan, payload[..n], i, target);
    }
  }

  /** Only the versions of a name for the three slots can be sent to it. */
  lemma SourcesAreVersions(plan: Plan, key: string, name: string)
    requires plan.Sane() && LogicalSlot(name).Some? && Destination(plan, key) == Some(name)
    ensures LogicalSlot(key).Some? && key == RemapKey(name, LogicalSlot(key).value)
  {
    DestinationKind(plan, key);
    var own, slot := LogicalSlot(key).value, LogicalSlot(name).value;
    RemapToOwnSlot(name);
    RemapInjective(name, slot, key, if own in plan.placed then plan.placed[own] else own);
  }

  /** Where two batteries share a slot, the later of two versions of a name is what the name holds. */
  lemma LaterVersionWins<V>(plan: Plan, payload: Items<V>, name: string, p: int, q: int, i: nat, j: nat)
    requires plan.Sane() && DistinctKeys(payload) && i < j < |payload| && p != q
    requires LogicalSlot(name).Some? && Lookup(plan.placed, p) == Lookup(plan.placed, q) == LogicalSlot(name)
    requires payload[i].0 == RemapKey(name, p) && payload[j].0 == RemapKey(name, q)
    requires forall k, r :: 0 <= k < |payload| && IsSlot(r) && r != p && r != q ==> payload[k].0 != RemapKey(name, r)
    ensures Destination(plan, payload[i].0) == Destination(plan, payload[j].0) == Some(name)
    ensures Found(plan, payload, name) == Some(payload[j].1)
  {
    VersionArrives(plan, name, p);
    VersionArrives(plan, name, q);
    forall k | j < k < |payload|
      ensures Destination(plan, payload[k].0) != Some(name)
    {
      if Destination(plan, payload[k].0) == Some(name) {
        SourcesAreVersions(plan, payload[k].0, name);
      }
    }
    LastWins(plan, payload, j, name);
  }

  lemma VersionArrives(plan: Plan, name: string, p: int)
    requires plan.Sane() && LogicalSlot(name).Some? && Lookup(plan.placed, p) == LogicalSlot(name)
    ensures IsSlot(p) && Destination(plan, RemapKey(name, p)) == Some(name)
  {
    assert p in plan.serials;
    RemapMovesSlot(name, p);
    RemapTwice(name, p, LogicalSlot(name).value);
    RemapToOwnSlot(name);
  }

  lemma BothGoToChosen(payload: Items<Cell>, manual: BySlot, mapping: SlotMap, stable: bool, p: int, q: int)
    requires MapsToSlots(mapping) && p != q
    requires var serials := SerialsOf(AsMap(payload));
      p in serials && q in serials && serials[p] == serials[q] && ExplicitSlot(manual, serials[p]).Some?
    ensures var plan := PlanOf(payload, manual, mapping, stable);
      && plan.Sane() && ReportsExplicitTwice(plan.serials, manual)
      && Lookup(plan.placed, p) == Lookup(plan.placed, q) == ExplicitSlot(manual, plan.serials[p])
  {
    ResolutionIsSound(SerialsOf(AsMap(payload)), manual, mapping, stable);
  }

  /** A chosen battery that is reported at two physical slots: of any slot name that both report with different values,
      the earlier value is not published. */
  lemma TwiceReportedLosesValues(
    payload: Items<Cell>, manual: BySlot, mapping: SlotMap, stable: bool, name: string, p: int, q: int, i: nat, j: nat)
    requires MapsToSlots(mapping) && DistinctKeys(payload) && i < j < |payload| && p != q
    requires var serials := SerialsOf(AsMap(payload));
      && p in serials && q in serials && serials[p] == serials[q] && ExplicitSlot(manual, serials[p]).Some?
      && ExplicitSlot(manual, serials[p]) == LogicalSlot(name)
    requires payload[i].0 == RemapKey(name, p) && payload[j].0 == RemapKey(name, q) && payload[i].1 != payload[j].1
    requires forall k, r :: 0 <= k < |payload| && IsSlot(r) && r != p && r != q ==> payload[k].0 != RemapKey(name, r)
    ensures var plan := PlanOf(payload, manual, mapping, stable);
      && plan.Sane() && ReportsExplicitTwice(plan.serials, manual)
      && Destination(plan, payload[i].0) == Some(name)
      && Found(plan, payload, name) == Some(payload[j].1) != Some(payload[i].1)
  {
    BothGoToChosen(payload, manual, mapping, stable, p, q);
    LaterVersionWins(PlanOf(payload, manual, mapping, stable), payload, name, p, q, i, j);
  }

  // ---- an example

  const PIECES: seq<string> := ["0PVP", "BATT", "ERY0", "0001"]
  const SERIAL := "0PVPBATTERY00001"
  const SOC := "bat2_soc"
  const OTHER_SOC := "bat3_soc"

  /** One serial at 2 and at 3, and a charge for each of the two. */
  function ExamplePayload(): Items<Cell> {
    [(PartKey(2, 0), Shown(PIECES[0])), (PartKey(2, 1), Shown(PIECES[1])),
     (PartKey(2, 2), Shown(PIECES[2])), (PartKey(2, 3), Shown(PIECES[3])),
     (PartKey(3, 0), Shown(PIECES[0])), (PartKey(3, 1), Shown(PIECES[1])),
     (PartKey(3, 2), Shown(PIECES[2])), (PartKey(3, 3), Shown(PIECES[3])),
     (SOC, Shown("55")), (OTHER_SOC, Shown("80"))]
  }

  /** The battery is chosen for slot 2, the other slots are automatic. */
  const CHOICES: BySlot := map[2 := SERIAL, 3 := AUTO, 4 := AUTO]

  lemma ExampleKey(i: nat)
    requires i < 8
    ensures ExamplePayload()[i] == (PartKey(if i < 4 then 2 else 3, i % 4), Shown(PIECES[i % 4]))
  {}

  lemma ExampleKeysDiffer(i: nat, j: nat)
    requires i < j < 10
    ensures ExamplePayload()[i].0 != ExamplePayload()[j].0
  {
    if j < 8 {
      ExampleKey(i);
      ExampleKey(j);
      PartKeysDiffer(if i < 4 then 2 else 3, i % 4, if j < 4 then 2 else 3, j % 4);
    } else if i < 8 {
      ExampleKey(i);
      assert |ExamplePayload()[i].0| == 15 && |ExamplePayload()[j].0| == 8;
    } else {
      assert SOC[3] == '2' && OTHER_SOC[3] == '3';
    }
  }

  lemma ExampleIsDistinct()
    ensures DistinctKeys(ExamplePayload())
  {
    forall i: nat, j: nat | i < j < 10
      ensures ExamplePayload()[i].0 != ExamplePayload()[j].0
    {
      ExampleKeysDiffer(i, j);
    }
  }

  lemma ExamplePart(slot: int, part: nat)
    requires slot in {2, 3} && part < 4
    ensures Lookup(AsMap(ExamplePayload()), PartKey(slot, part)) == Some(Shown(PIECES[part]))
  {
    var i := if slot == 2 then part else part + 4;
    ExampleIsDistinct();
    ExampleKey(i);
    AsMapAt(ExamplePayload(), i);
  }

  lemma SerialIsPlausible()
    ensures PIECES[0] + PIECES[1] + PIECES[2] + PIECES[3] == SERIAL && Plausible(SERIAL) && IsExplicit(SERIAL)
  {
    assert PIECES[0] + PIECES[1] + PIECES[2] + PIECES[3] == SERIAL;
    assert AUTO[0] == '_' && EMPTY[0] == '_';
  }

  lemma ExampleSpells(slot: int)
    requires slot in {2, 3}
    ensures SerialAt(AsMap(ExamplePayload()), slot) == Some(SERIAL)
  {
    ExamplePart(slot, 0);
    ExamplePart(slot, 1);
    ExamplePart(slot, 2);
    ExamplePart(slot, 3);
    SerialIsPlausible();
    assert forall s: string :: s + Repeat('\0', 0) == s;
    FragmentsSpellSerial(PIECES[0], PIECES[1], PIECES[2], PIECES[3], 0);
  }

  lemma ChoicesAreConsistent()
    ensures ManualChoices.Consistent(CHOICES)
  {
    SerialIsPlausible();
  }

  lemma ChoicesAreTrimmed(slot: int)
    requires slot in CHOICES
    ensures Trim(CHOICES[slot]) == CHOICES[slot]
  {
    SerialIsPlausible();
    ManualChoices.AcceptableIsTrimmed(CHOICES[slot]);
  }

  lemma ChoicesAreGood()
    ensures ManualChoices.WellChosen(CHOICES) && ExplicitSlot(CHOICES, SERIAL) == Some(2)
  {
    ChoicesAreConsistent();
    forall slot | slot in CHOICES
      ensures Trim(CHOICES[slot]) == CHOICES[slot]
    {
      ChoicesAreTrimmed(slot);
    }
    SerialIsPlausible();
    ManualChoices.OnlyChosenSlot(CHOICES, 2);
  }

  lemma SocVersions()
    ensures LogicalSlot(SOC) == Some(2) && RemapKey(SOC, 2) == SOC && RemapKey(SOC, 3) == OTHER_SOC
    ensures RemapKey(SOC, 4) == "bat4_soc"
  {
    assert DigitPosition(SOC) == Some(3);
    assert SOC[..3] == "bat" && SOC[4..] == "_soc";
  }

  lemma NoThirdSoc(k: nat, r: int)
    requires k < 10 && IsSlot(r) && r != 2 && r != 3
    ensures ExamplePayload()[k].0 != RemapKey(SOC, r)
  {
    SocVersions();
    if k < 8 {
      ExampleKey(k);
      assert |ExamplePayload()[k].0| == 15;
    } else {
      assert SOC[3] == '2' && OTHER_SOC[3] == '3' && "bat4_soc"[3] == '4';
    }
  }

  /** Such a packet, with choices as they are stored: the battery's charge as reported at slot 2 is lost. */
  lemma SharedSlotExample()
    ensures ManualChoices.WellChosen(CHOICES) && ExamplePayload()[8] == (SOC, Shown("55"))
    ensures var plan := PlanOf(ExamplePayload(), CHOICES, map[], true);
      && plan.Sane() && ReportsExplicitTwice(plan.serials, CHOICES)
      && Destination(plan, SOC) == Some(SOC) && Found(plan, ExamplePayload(), SOC) == Some(Shown("80"))
  {
    ExampleSpells(2);
    ExampleSpells(3);
    ChoicesAreGood();
    ExampleIsDistinct();
    SocVersions();
    forall k, r | 0 <= k < 10 && IsSlot(r) && r != 2 && r != 3
      ensures ExamplePayload()[k].0 != RemapKey(SOC, r)
    {
      NoThirdSoc(k, r);
    }
    assert "55"[0] == '5' && "80"[0] == '8';
    TwiceReportedLosesValues(ExamplePayload(), CHOICES, map[], true, SOC, 2, 3, 8, 9);
  }
}
