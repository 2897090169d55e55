/** Moving a whole telemetry packet to its logical slots. */
module SlotRemap {
  import opened Wire
  import opened SlotKeys
  import opened SlotResolution

  /** A payload in its dictionary order. */
  type Items<V> = seq<(string, V)>

  ghost predicate DistinctKeys<V>(payload: Items<V>) {
    forall i, j :: 0 <= i < j < |payload| ==> payload[i].0 != payload[j].0
  }

  /** The placement of identified batteries, the reported serials and the manually reserved slots. */
  datatype Plan = Plan(placed: Placement, serials: BySlot, reserved: set<int>) {
    predicate Sane()
    {
      OnSlots(serials) && placed.Keys <= serials.Keys && forall p :: p in placed ==> IsSlot(placed[p])
    }
  }

  /** An unidentified slot gives way to an identified battery and to reservations; an identified one without a place is
      dropped. */
  predicate Dropped(plan: Plan, slot: int) {
    slot !in plan.placed && (slot in Taken(plan.placed) || slot in plan.reserved || slot in plan.serials)
  }

  /** The name under which a source name is published, or None if it is dropped. */
  function Destination(plan: Plan, key: string): Option<string>
    requires plan.Sane()
  {
    match LogicalSlot(key)
    case None => Some(key)
    case Some(slot) =>
      if Dropped(plan, slot) then None
      else Some(RemapKey(key, if slot in plan.placed then plan.placed[slot] else slot))
  }

  /** In terms of placement, report and choices: a name whose slot has a placed battery moves to that battery's slot.
      Any other slot name is withheld exactly when its slot is reported, in use by a placed battery or spoken for by
      hand, and otherwise stays as it is, like every name without a slot. */
  lemma DestinationIs(placed: Placement, serials: BySlot, manual: BySlot, key: string)
    requires Plan(placed, serials, Reserved(manual)).Sane()
    ensures var destination := Destination(Plan(placed, serials, Reserved(manual)), key);
      match LogicalSlot(key)
      case None => destination == Some(key)
      case Some(slot) =>
        if slot in placed then destination == Some(RemapKey(key, placed[slot]))
        else if slot in serials || (exists q :: q in placed && placed[q] == slot)
          || (slot in manual && manual[slot] != "__auto__") then destination == None
        else destination == Some(key)
  {
    if LogicalSlot(key).Some? {
      RemapToOwnSlot(key);
    }
  }

  /** The value that reaches a name: the last one sent there. */
  function Found<V>(plan: Plan, payload: Items<V>, target: string): Option<V>
    requires plan.Sane()
  {
    if payload == [] then None else
    var (key, value) := payload[|payload| - 1];
    if Destination(plan, key) == Some(target) then Some(value) else Found(plan, payload[..|payload| - 1], target)
  }

  /** The remapped packet of a payload: every name holds what reaches it. */
  ghost predicate IsRemapped<V>(plan: Plan, payload: Items<V>, result: map<string, V>)
    requires plan.Sane()
  {
    forall k :: Lookup(result, k) == Found(plan, payload, k)
  }

  function AsMap<V>(payload: Items<V>): map<string, V> {
    if payload == [] then map[] else
    var (key, value) := payload[|payload| - 1];
    AsMap(payload[..|payload| - 1])[key := value]
  }

  /** A destination is a slot name exactly when its source is. */
  lemma DestinationKind(plan: Plan, key: string)
    requires plan.Sane() && Destination(plan, key).Some?
    ensures LogicalSlot(Destination(plan, key).value).Some? <==> LogicalSlot(key).Some?
  {
    if LogicalSlot(key).Some? {
      var slot := LogicalSlot(key).value;
      RemapMovesSlot(key, if slot in plan.placed then plan.placed[slot] else slot);
    }
  }

  lemma FoundLast<V>(plan: Plan, seen: Items<V>, item: (string, V), target: string)
    requires plan.Sane()
    ensures Found(plan, seen + [item], target) ==
      if Destination(plan, item.0) == Some(target) then Some(item.1) else Found(plan, seen, target)
  {
    assert (seen + [item])[..|seen|] == seen;
  }

  /** Names without a slot are in the dictionary as they should be, and no other name is. */
  ghost predicate Copies<V>(plan: Plan, remapped: map<string, V>, seen: Items<V>)
    requires plan.Sane()
  {
    forall k :: Lookup(remapped, k) == if LogicalSlot(k).None? then Found(plan, seen, k) else None
  }

  /** The collected items decide every slot name. */
  ghost predicate Collects<V>(plan: Plan, slotItems: Items<V>, seen: Items<V>)
    requires plan.Sane()
  {
    && (forall k :: LogicalSlot(k).Some? ==> Found(plan, slotItems, k) == Found(plan, seen, k))
    && forall i :: 0 <= i < |slotItems| ==> LogicalSlot(slotItems[i].0).Some?
  }

  lemma CopyOne<V>(plan: Plan, seen: Items<V>, item: (string, V), remapped: map<string, V>, slotItems: Items<V>)
    requires plan.Sane() && Copies(plan, remapped, seen) && Collects(plan, slotItems, seen) && LogicalSlot(item.0).None?
    ensures Copies(plan, remapped[item.0 := item.1], seen + [item]) && Collects(plan, slotItems, seen + [item])
  {
    forall k
      ensures Found(plan, seen + [item], k) == if item.0 == k then Some(item.1) else Found(plan, seen, k)
    {
      FoundLast(plan, seen, item, k);
    }
  }

  lemma CollectOne<V>(plan: Plan, seen: Items<V>, item: (string, V), remapped: map<string, V>, slotItems: Items<V>)
    requires plan.Sane() && Copies(plan, remapped, seen) && Collects(plan, slotItems, seen) && LogicalSlot(item.0).Some?
    ensures Copies(plan, remapped, seen + [item]) && Collects(plan, slotItems + [item], seen + [item])
  {
    forall k
      ensures LogicalSlot(k).None? ==> Found(plan, seen + [item], k) == Found(plan, seen, k)
      ensures LogicalSlot(k).Some? ==> Found(plan, slotItems + [item], k) == Found(plan, seen + [item], k)
    {
      FoundLast(plan, seen, item, k);
      FoundLast(plan, slotItems, item, k);
      if Destination(plan, item.0).Some? {
        DestinationKind(plan, item.0);
      }
    }
  }

  lemma NothingSeen<V>(plan: Plan)
    requires plan.Sane()
    ensures var none: Items<V> := []; Copies(plan, map[], none) && Collects(plan, none, none)
  {}

  /** The first loop: names without a slot are copied, the others are collected. */
  method Separate<V>(plan: Plan, payload: Items<V>) returns (remapped: map<string, V>, slotItems: Items<V>)
    requires plan.Sane()
    ensures Copies(plan, remapped, payload) && Collects(plan, slotItems, payload)
  {
    remapped, slotItems := map[], [];
    TakeEnds(payload);
    NothingSeen<V>(plan);
    for i := 0 to |payload|
      invariant Copies(plan, remapped, payload[..i]) && Collects(plan, slotItems, payload[..i])
    {
      var (key, value) := payload[i];
      TakeMore(payload, i);
      if LogicalSlot(key).None? {
        CopyOne(plan, payload[..i], payload[i], remapped, slotItems);
        remapped := remapped[key := value];
      } else {
        CollectOne(plan, payload[..i], payload[i], remapped, slotItems);
        slotItems := slotItems + [payload[i]];
      }
    }
  }

  /** Names without a slot are done; slot names hold what the items seen so far sent there. */
  ghost predicate Moves<V>(plan: Plan, remapped: map<string, V>, payload: Items<V>, seen: Items<V>)
    requires plan.Sane()
  {
    forall k :: Lookup(remapped, k) == Found(plan, if LogicalSlot(k).None? then payload else seen, k)
  }

  lemma MoveOne<V>(plan: Plan, payload: Items<V>, seen: Items<V>, item: (string, V), remapped: map<string, V>)
    requires plan.Sane() && Moves(plan, remapped, payload, seen) && LogicalSlot(item.0).Some?
    ensures var target := Destination(plan, item.0);
      Moves(plan, if target.Some? then remapped[target.value := item.1] else remapped, payload, seen + [item])
  {
    if Destination(plan, item.0).Some? {
      DestinationKind(plan, item.0);
    }
    forall k
      ensures Found(plan, seen + [item], k) ==
        if Destination(plan, item.0) == Some(k) then Some(item.1) else Found(plan, seen, k)
    {
      FoundLast(plan, seen, item, k);
    }
  }

  /** One collected item: dropped, or moved to its logical slot. */
  method MoveItem<V>(
      plan: Plan, ghost payload: Items<V>, ghost seen: Items<V>, item: (string, V), remapped: map<string, V>)
      returns (next: map<string, V>)
    requires plan.Sane() && Moves(plan, remapped, payload, seen) && LogicalSlot(item.0).Some?
    ensures Moves(plan, next, payload, seen + [item])
  {
    var (key, value) := item;
    MoveOne(plan, payload, seen, item, remapped);
    var slot := LogicalSlot(key).value;
    if slot !in plan.placed && (slot in Taken(plan.placed) || slot in plan.reserved || slot in plan.serials) {
      return remapped;
    }
    return remapped[RemapKey(key, if slot in plan.placed then plan.placed[slot] else slot) := value];
  }

  /** The full remap: every name ends with the last value sent to it. */
  method RemapAll<V>(plan: Plan, payload: Items<V>) returns (remapped: map<string, V>)
    requires plan.Sane()
    ensures IsRemapped(plan, payload, remapped)
  {
    var slotItems;
    remapped, slotItems := Separate(plan, payload);
    NothingMoved(plan, remapped, payload);
    TakeEnds(slotItems);
    for i := 0 to |slotItems|
      invariant Moves(plan, remapped, payload, slotItems[..i]) && Collects(plan, slotItems, payload)
    {
      TakeMore(slotItems, i);
      remapped := MoveItem(plan, payload, slotItems[..i], slotItems[i], remapped);
    }
    AllMoved(plan, remapped, payload, slotItems);
  }

  lemma NothingMoved<V>(plan: Plan, remapped: map<string, V>, payload: Items<V>)
    requires plan.Sane() && Copies(plan, remapped, payload)
    ensures Moves(plan, remapped, payload, [])
  {}

  lemma AllMoved<V>(plan: Plan, remapped: map<string, V>, payload: Items<V>, slotItems: Items<V>)
    requires plan.Sane() && Moves(plan, remapped, payload, slotItems) && Collects(plan, slotItems, payload)
    ensures IsRemapped(plan, payload, remapped)
  {}

  // ---- the early return

  predicate Unchanged(plan: Plan) {
    && plan.reserved == {}
    && (forall p :: p in plan.placed ==> plan.placed[p] == p)
    && |plan.placed| == |plan.serials|
  }

  lemma UnchangedKeepsEverySlot(plan: Plan, key: string)
    requires plan.Sane() && Unchanged(plan)
    ensures Destination(plan, key) == Some(key)
  {
    if LogicalSlot(key).Some? {
      SubsetOfSameSize(plan.placed.Keys, plan.serials.Keys);
      RemapToOwnSlot(key);
    }
  }

  lemma SubsetOfSameSize<T>(a: set<T>, b: set<T>)
    requires a <= b && |a| == |b|
    ensures a == b
  {
    assert |b - a| == |b| - |a|;
  }

  /** Where nothing moves, the full remap gives back the very dictionary. */
  lemma {:induction false} UnchangedIsIdentity<V>(plan: Plan, payload: Items<V>, target: string)
    requires plan.Sane() && Unchanged(plan)
    ensures Found(plan, payload, target) == Lookup(AsMap(payload), target)
  {
    if payload != [] {
      UnchangedKeepsEverySlot(plan, payload[|payload| - 1].0);
      UnchangedIsIdentity(plan, payload[..|payload| - 1], target);
    }
  }

  function Highest(placed: Placement): int {
    if 4 in Taken(placed) then 4 else if 3 in Taken(placed) then 3 else if 2 in Taken(placed) then 2 else 1
  }

  lemma HighestIsOneIff(placed: Placement)
    requires forall p :: p in placed ==> IsSlot(placed[p])
    ensures Highest(placed) == 1 <==> placed == map[]
  {
    assert forall p :: p in placed ==> placed[p] in Taken(placed);
    if Highest(placed) == 1 {
      assert forall p :: p !in placed;
    }
  }

  /** The whole packet, through whichever path: names end with what the full remap gives them. */
  method Stabilize<V>(payload: Items<V>, serials: BySlot, manual: BySlot, mapping: SlotMap, stable: bool)
      returns (result: map<string, V>, highest: int)
    requires OnSlots(serials) && MapsToSlots(mapping)
    ensures var plan := Plan(Resolution(serials, manual, mapping, stable), serials, Reserved(manual));
      && plan.Sane()
      && IsRemapped(plan, payload, result)
      && highest == Highest(plan.placed)
      && (forall p :: p in plan.placed ==> plan.placed[p] <= highest) && (highest == 1 <==> plan.placed == map[])
      && (highest > 1 ==> exists p :: p in plan.placed && plan.placed[p] == highest)
  {
    ResolutionIsSound(serials, manual, mapping, stable);
    var placed, used := ResolveSlots(serials, manual, mapping, stable);
    var plan := Plan(placed, serials, Reserved(manual));
    highest := Highest(placed);
    assert forall p :: p in placed ==> placed[p] in Taken(placed);
    if Unchanged(plan) {
      result := AsMap(payload);
      forall k
        ensures Lookup(result, k) == Found(plan, payload, k)
      {
        UnchangedIsIdentity(plan, payload, k);
      }
    } else {
      result := RemapAll(plan, payload);
    }
  }

  /** With no manual choice and no stable slots, the plan moves nothing. */
  lemma UnassignedPlanIsUnchanged(serials: BySlot, manual: BySlot, mapping: SlotMap)
    requires OnSlots(serials) && AllAutomatic(manual)
    ensures var plan := Plan(Resolution(serials, manual, mapping, false), serials, {});
      plan.placed.Keys <= serials.Keys ==> Unchanged(plan)
  {
    var placed := Resolution(serials, manual, mapping, false);
    ReportedSlotsAreKept(serials, manual, mapping);
    if placed.Keys <= serials.Keys {
      assert forall p :: p in serials ==> p in placed.Keys;
      assert placed.Keys == serials.Keys;
    }
  }

  /** The packet entry point: without stable slots or manual choices the payload is handed back untouched. */
  method Prepare<V>(payload: Items<V>, serials: BySlot, manual: BySlot, mapping: SlotMap, stable: bool)
      returns (result: map<string, V>, highest: int)
    requires OnSlots(serials) && MapsToSlots(mapping)
    ensures var plan := Plan(Resolution(serials, manual, mapping, stable), serials, Reserved(manual));
      && plan.Sane()
      && IsRemapped(plan, payload, result)
      && highest == (if stable || !AllAutomatic(manual) then Highest(plan.placed) else 1)
      && (highest == Highest(plan.placed) <==> stable || !AllAutomatic(manual) || plan.placed == map[])
  {
    ResolutionIsSound(serials, manual, mapping, stable);
    HighestIsOneIff(Resolution(serials, manual, mapping, stable));
    if !stable && AllAutomatic(manual) {
      result, highest := AsMap(payload), 1;
      NothingReserved(manual);
      UnassignedPlanIsUnchanged(serials, manual, mapping);
      forall k
        ensures Lookup(result, k) == Found(Plan(Resolution(serials, manual, mapping, stable), serials, {}), payload, k)
      {
        UnchangedIsIdentity(Plan(Resolution(serials, manual, mapping, stable), serials, {}), payload, k);
      }
    } else {
      result, highest := Stabilize(payload, serials, manual, mapping, stable);
    }
  }

  // ---- conservation

  /** No two source names that differ land on one name, for any names at all, exactly when no two batteries share a
      slot. */
  lemma NoCollisionIff(plan: Plan)
    requires plan.Sane()
    ensures (forall a, b :: Destination(plan, a).Some? && Destination(plan, a) == Destination(plan, b) ==> a == b)
      <==> NoSharedSlot(plan.placed)
  {
    if NoSharedSlot(plan.placed) {
      forall a, b | Destination(plan, a).Some? && Destination(plan, a) == Destination(plan, b)
        ensures a == b
      {
        DestinationInjective(plan, a, b);
      }
    } else {
      var p, q :| p in plan.placed && q in plan.placed && plan.placed[p] == plan.placed[q] && p != q;
      var a, b := ['b', 'a', 't', Digit(p), '_'], ['b', 'a', 't', Digit(q), '_'];
      assert DigitPosition(a) == Some(3) && DigitPosition(b) == Some(3);
      assert a[..3] == b[..3] && a[4..] == b[4..];
      assert Destination(plan, a) == Destination(plan, b) && a[3] != b[3];
    }
  }

  lemma DestinationInjective(plan: Plan, a: string, b: string)
    requires plan.Sane() && NoSharedSlot(plan.placed)
    requires Destination(plan, a).Some? && Destination(plan, a) == Destination(plan, b)
    ensures a == b
  {
    DestinationKind(plan, a);
    DestinationKind(plan, b);
    if LogicalSlot(a).Some? {
      var s, t := LogicalSlot(a).value, LogicalSlot(b).value;
      var forA := if s in plan.placed then plan.placed[s] else s;
      var forB := if t in plan.placed then plan.placed[t] else t;
      RemapInjective(a, forA, b, forB);
    }
  }

  /** Every kept value appears under its destination, whenever no two batteries share a slot. */
  lemma {:induction false} ValuesAreConserved<V>(plan: Plan, payload: Items<V>, i: nat)
    requires plan.Sane() && NoSharedSlot(plan.placed) && DistinctKeys(payload) && i < |payload|
    requires Destination(plan, payload[i].0).Some?
    ensures Found(plan, payload, Destination(plan, payload[i].0).value) == Some(payload[i].1)
  {
    var n := |payload| - 1;
    if i < n {
      ValuesAreConserved(plan, payload[..n], i);
      if Destination(plan, payload[n].0) == Destination(plan, payload[i].0) {
        DestinationInjective(plan, payload[n].0, payload[i].0);
      }
    }
  }

  /** And nothing else appears: every published value came from exactly one source name. */
  lemma {:induction false} ValuesHaveSources<V>(plan: Plan, payload: Items<V>, target: string)
    requires plan.Sane() && Found(plan, payload, target).Some?
    ensures exists i ::
      0 <= i < |payload| && Destination(plan, payload[i].0) == Some(target)
      && payload[i].1 == Found(plan, payload, target).value
  {
    var n := |payload| - 1;
    if Destination(plan, payload[n].0) != Some(target) {
      ValuesHaveSources(plan, payload[..n], target);
      var i :|
        0 <= i < n && Destination(plan, payload[..n][i].0) == Some(target)
        && payload[..n][i].1 == Found(plan, payload, target).value;
      assert payload[..n][i] == payload[i];
    } else {
      assert payload[n].1 == Found(plan, payload, target).value;
    }
  }
}
