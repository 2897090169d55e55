/** One telemetry packet from report to logical slots: the serials it spells, the stored history, and the remap. */
module SlotClient {
  import opened Wire
  import opened SlotKeys
  import opened SlotResolution
  import opened SlotRemap
  import opened SlotSerials
  import opened SlotHistory
  import opened SlotStore

  lemma {:induction false} ReportsAreClean(payload: Items<Cell>)
    ensures Reported(SerialsOf(AsMap(payload)))
  {
    var m := AsMap(payload);
    forall p | p in SerialsOf(m)
      ensures IsClean(SerialsOf(m)[p])
    {
      PlausibleIsClean(SerialsOf(m)[p]);
    }
  }

  /** Nothing is lost but what is deliberately dropped, nothing is invented, and nothing is merged. */
  ghost predicate Conserved(plan: Plan, payload: Items<Cell>, result: map<string, Cell>)
    requires plan.Sane()
  {
    && (forall i :: 0 <= i < |payload| && Destination(plan, payload[i].0).Some? ==>
        Lookup(result, Destination(plan, payload[i].0).value) == Some(payload[i].1))
    && (forall k :: k in result ==> HasSource(plan, payload, result, k))
    && (forall k, i: nat, j: nat :: i < |payload| && j < |payload| ==>
        IsSource(plan, payload, i, k) && IsSource(plan, payload, j, k) ==> i == j)
  }

  ghost predicate HasSource(plan: Plan, payload: Items<Cell>, result: map<string, Cell>, k: string)
    requires plan.Sane() && k in result
  {
    exists i: nat :: i < |payload| && IsSource(plan, payload, i, k) && payload[i].1 == result[k]
  }

  ghost predicate IsSource(plan: Plan, payload: Items<Cell>, i: nat, target: string)
    requires plan.Sane() && i < |payload|
  {
    Destination(plan, payload[i].0) == Some(target)
  }

  lemma EntryHasSource(plan: Plan, payload: Items<Cell>, result: map<string, Cell>, k: string)
    requires plan.Sane() && IsRemapped(plan, payload, result) && k in result
    ensures HasSource(plan, payload, result, k)
  {
    assert Lookup(result, k) == Found(plan, payload, k);
    ValuesHaveSources(plan, payload, k);
    var i :|
      0 <= i < |payload| && Destination(plan, payload[i].0) == Some(k) && payload[i].1 == Found(plan, payload, k).value;
    assert IsSource(plan, payload, i, k);
  }

  lemma SourceIsUnique(plan: Plan, payload: Items<Cell>, k: string, i: nat, j: nat)
    requires plan.Sane() && NoSharedSlot(plan.placed) && DistinctKeys(payload) && i < |payload| && j < |payload|
    requires IsSource(plan, payload, i, k) && IsSource(plan, payload, j, k)
    ensures i == j
  {
    DestinationInjective(plan, payload[i].0, payload[j].0);
  }

  /** A remapped dictionary conserves its payload whenever no two batteries share a slot. */
  lemma RemappedIsConserved(plan: Plan, payload: Items<Cell>, result: map<string, Cell>)
    requires plan.Sane() && NoSharedSlot(plan.placed) && DistinctKeys(payload) && IsRemapped(plan, payload, result)
    ensures Conserved(plan, payload, result)
  {
    forall i | 0 <= i < |payload| && Destination(plan, payload[i].0).Some?
      ensures Lookup(result, Destination(plan, payload[i].0).value) == Some(payload[i].1)
    {
      ValuesAreConserved(plan, payload, i);
    }
    forall k | k in result
      ensures HasSource(plan, payload, result, k)
    {
      EntryHasSource(plan, payload, result, k);
    }
    forall k, i: nat, j: nat | i < |payload| && j < |payload|
      ensures IsSource(plan, payload, i, k) && IsSource(plan, payload, j, k) ==> i == j
    {
      if IsSource(plan, payload, i, k) && IsSource(plan, payload, j, k) {
        SourceIsUnique(plan, payload, k, i, j);
      }
    }
  }

  lemma DistinctReportsConserve(
    payload: Items<Cell>, manual: BySlot, mapping: SlotMap, stable: bool, result: map<string, Cell>)
    requires MapsToSlots(mapping) && DistinctKeys(payload) && Injective(SerialsOf(AsMap(payload)))
    requires PlanOf(payload, manual, mapping, stable).Sane()
    requires IsRemapped(PlanOf(payload, manual, mapping, stable), payload, result)
    ensures Conserved(PlanOf(payload, manual, mapping, stable), payload, result)
  {
    NoSharedSlotIff(SerialsOf(AsMap(payload)), manual, mapping, stable);
    RemappedIsConserved(PlanOf(payload, manual, mapping, stable), payload, result);
  }

  /** _stabilize_battery_payload_locked: where nothing is reported and nothing chosen, the packet is handed back.
      The mapping in force is the earlier one, grown by what is reported. */
  method StabilizePacket(
    store: Store, device: string, payload: Items<Cell>, manual: BySlot, stable: bool, readOk: bool, writeOk: bool)
      returns (result: map<string, Cell>, highest: int, mapping: SlotMap, useStable: bool)
    requires store.Valid() && DistinctKeys(payload)
    modifies store
    ensures store.Valid() && Good(mapping)
    ensures old(store.Mirrored()) ==> store.Mirrored() && Within(Load(old(store.disk)), Load(store.disk))
    ensures store.memory.Some? <==> old(store.memory).Some? || readOk
    ensures store.memory.Some? ==> useStable == stable
    ensures store.memory.None? ==> !useStable && store.disk == old(store.disk)
    ensures useStable && (SerialsOf(AsMap(payload)) != map[] || manual != map[]) ==>
      && mapping == Assign(MapOf(old(store.Base()), device), SerialsOf(AsMap(payload)), SLOTS)
      && store.memory == Some(old(store.Base())[device := mapping])
      && (writeOk ==> !store.dirty)
    ensures store.memory.Some? && SerialsOf(AsMap(payload)) == map[] && manual == map[] ==>
      store.memory.value == old(store.Base()) && store.dirty == old(store.dirty)
    ensures var plan := PlanOf(payload, manual, mapping, useStable);
      && plan.Sane() && IsRemapped(plan, payload, result) && highest == Highest(plan.placed)
      && (Injective(plan.serials) ==> Conserved(plan, payload, result))
  {
    var serials := SerialsOf(AsMap(payload));
    ReportsAreClean(payload);
    mapping, useStable := store.Observe(device, serials, manual != map[], stable, readOk, writeOk);
    result, highest := RemapPacket(payload, manual, mapping, useStable);
  }

  method RemapPacket(payload: Items<Cell>, manual: BySlot, mapping: SlotMap, useStable: bool)
      returns (result: map<string, Cell>, highest: int)
    requires MapsToSlots(mapping) && DistinctKeys(payload)
    ensures var plan := PlanOf(payload, manual, mapping, useStable);
      && plan.Sane() && IsRemapped(plan, payload, result) && highest == Highest(plan.placed)
      && (Injective(plan.serials) ==> Conserved(plan, payload, result))
  {
    var serials := SerialsOf(AsMap(payload));
    ResolutionIsSound(serials, manual, mapping, useStable);
    if serials == map[] && manual == map[] {
      result, highest := AsMap(payload), 1;
      NothingReported(payload, manual, mapping, useStable);
    } else {
      result, highest := Stabilize(payload, serials, manual, mapping, useStable);
    }
    if Injective(serials) {
      DistinctReportsConserve(payload, manual, mapping, useStable, result);
    }
  }

  lemma NothingReported(payload: Items<Cell>, manual: BySlot, mapping: SlotMap, stable: bool)
    requires SerialsOf(AsMap(payload)) == map[] && manual == map[]
    ensures var plan := PlanOf(payload, manual, mapping, stable);
      plan.Sane() && plan.placed == map[] && IsRemapped(plan, payload, AsMap(payload))
  {
    var plan := PlanOf(payload, manual, mapping, stable);
    NothingPlaced(plan.serials, manual, mapping, stable, SLOTS, map[]);
    assert ExplicitPart(plan.serials, manual) == map[];
    forall k
      ensures Lookup(AsMap(payload), k) == Found(plan, payload, k)
    {
      UnchangedIsIdentity(plan, payload, k);
    }
  }

  lemma {:induction false} NothingPlaced(
    serials: BySlot, manual: BySlot, mapping: SlotMap, stable: bool, physical: seq<int>, placed: Placement)
    requires serials == map[]
    ensures PlaceAutomatic(physical, serials, manual, mapping, stable, placed) == placed
    decreases |physical|
  {
    if physical != [] {
      NothingPlaced(serials, manual, mapping, stable, physical[1..], placed);
    }
  }
}
