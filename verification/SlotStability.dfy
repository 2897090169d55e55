/** Exactly when every battery that has a stable slot gets it. */
module SlotStability {
  import opened Wire
  import opened SlotKeys
  import opened SlotResolution

  /** An automatic battery that has a stable slot. */
  predicate Settler(serials: BySlot, manual: BySlot, mapping: SlotMap, p: int) {
    IsAutomatic(serials, manual, p) && serials[p] in mapping
  }

  /** An automatic battery that has none. */
  predicate Guest(serials: BySlot, manual: BySlot, mapping: SlotMap, p: int) {
    IsAutomatic(serials, manual, p) && serials[p] !in mapping
  }

  function AsSet(slot: Option<int>): set<int> { if slot.Some? then {slot.value} else {} }

  /** Where a guest at a physical slot goes while only these slots are in use besides the reserved ones. */
  function GuestSlot(manual: BySlot, p: int, used: set<int>): Option<int> {
    FirstFree([p] + SLOTS, Reserved(manual) + used)
  }

  /** The slot that the battery at 2 takes from the automatic ones after it, if it keeps its own stable slot. */
  function UsedByFirst(serials: BySlot, manual: BySlot, mapping: SlotMap): set<int> {
    if Settler(serials, manual, mapping, 2) then {mapping[serials[2]]}
    else if Guest(serials, manual, mapping, 2) then AsSet(GuestSlot(manual, 2, {}))
    else {}
  }

  /** A settler's slot is not reserved by hand. */
  predicate Unreserved(serials: BySlot, manual: BySlot, mapping: SlotMap, p: int) {
    Settler(serials, manual, mapping, p) ==>
      var slot := mapping[serials[p]]; !(slot in manual && manual[slot] != AUTO)
  }

  /** The battery at p does not report the serial of an earlier settler, if both are settlers. */
  predicate DistinctFrom(serials: BySlot, manual: BySlot, mapping: SlotMap, p: int, earlier: int) {
    Settler(serials, manual, mapping, earlier) && Settler(serials, manual, mapping, p) ==>
      serials[earlier] != serials[p]
  }

  /** The earlier guest, while these slots are in use, does not go to the slot of the settler at p. */
  predicate ClearOf(serials: BySlot, manual: BySlot, mapping: SlotMap, p: int, earlier: int, used: set<int>) {
    Guest(serials, manual, mapping, earlier) && Settler(serials, manual, mapping, p) ==>
      GuestSlot(manual, earlier, used) != Some(mapping[serials[p]])
  }

  predicate SecondUndisturbed(serials: BySlot, manual: BySlot, mapping: SlotMap) {
    && Unreserved(serials, manual, mapping, 3)
    && DistinctFrom(serials, manual, mapping, 3, 2) && ClearOf(serials, manual, mapping, 3, 2, {})
  }

  predicate ThirdUndisturbed(serials: BySlot, manual: BySlot, mapping: SlotMap) {
    && Unreserved(serials, manual, mapping, 4)
    && DistinctFrom(serials, manual, mapping, 4, 2) && ClearOf(serials, manual, mapping, 4, 2, {})
    && DistinctFrom(serials, manual, mapping, 4, 3)
    && ClearOf(serials, manual, mapping, 4, 3, UsedByFirst(serials, manual, mapping))
  }

  /** No stable slot is reserved by hand, no settler is reported twice, and no guest that is reported earlier takes
      a stable slot. */
  predicate Undisturbed(serials: BySlot, manual: BySlot, mapping: SlotMap) {
    && Unreserved(serials, manual, mapping, 2)
    && SecondUndisturbed(serials, manual, mapping) && ThirdUndisturbed(serials, manual, mapping)
  }

  /** Where the battery at p lands while these slots are in use besides the reserved ones. */
  function Landing(serials: BySlot, manual: BySlot, mapping: SlotMap, p: int, used: set<int>): Option<int> {
    if IsAutomatic(serials, manual, p)
      then FirstFree(Wishes(mapping, true, p, serials[p]), Reserved(manual) + used) else None
  }

  /** A settler lands on its slot exactly when that is free; a guest looks at its own slot and then at all. */
  lemma LandingIs(serials: BySlot, manual: BySlot, mapping: SlotMap, p: int, used: set<int>)
    ensures Settler(serials, manual, mapping, p) ==>
      (Landing(serials, manual, mapping, p, used) == Some(mapping[serials[p]]) <==>
        mapping[serials[p]] !in Reserved(manual) + used)
    ensures Guest(serials, manual, mapping, p) ==>
      Landing(serials, manual, mapping, p, used) == GuestSlot(manual, p, used)
  {
    if Settler(serials, manual, mapping, p) {
      assert Wishes(mapping, true, p, serials[p])[0] == mapping[serials[p]];
    } else if Guest(serials, manual, mapping, p) {
      assert Wishes(mapping, true, p, serials[p]) == [p] + SLOTS;
    }
  }

  /** Placing has come to here: these slots are taken, explicit batteries are placed, and the automatic ones at these
      physical slots are not. */
  ghost predicate Reaches(placed: Placement, serials: BySlot, manual: BySlot, used: set<int>, todo: seq<int>) {
    && Reserved(manual) + Taken(placed) == Reserved(manual) + used
    && (forall p :: p in serials && !IsAutomatic(serials, manual, p) ==> p in placed)
    && (forall p :: p in todo && IsAutomatic(serials, manual, p) ==> p !in placed)
  }

  lemma PlaceLanding(
    p: int, rest: seq<int>, serials: BySlot, manual: BySlot, mapping: SlotMap, placed: Placement, used: set<int>)
    requires Reaches(placed, serials, manual, used, [p] + rest) && p !in rest
    ensures var landing, next :=
      Landing(serials, manual, mapping, p, used), PlaceOne(p, serials, manual, mapping, true, placed);
      && Reaches(next, serials, manual, used + AsSet(landing), rest)
      && (IsAutomatic(serials, manual, p) ==> Lookup(next, p) == landing)
      && (forall q :: q != p ==> Lookup(next, q) == Lookup(placed, q))
  {
    assert p in [p] + rest && forall q :: q in rest ==> q in [p] + rest;
    var landing := Landing(serials, manual, mapping, p, used);
    if landing.Some? {
      PutTakes(placed, p, landing.value);
    }
  }

  /** Where the three batteries land, one after the other. */
  function Landings(serials: BySlot, manual: BySlot, mapping: SlotMap): (Option<int>, Option<int>, Option<int>) {
    var first := Landing(serials, manual, mapping, 2, {});
    var second := Landing(serials, manual, mapping, 3, AsSet(first));
    (first, second, Landing(serials, manual, mapping, 4, AsSet(first) + AsSet(second)))
  }

  lemma ExplicitReaches(serials: BySlot, manual: BySlot)
    ensures Reaches(ExplicitPart(serials, manual), serials, manual, {}, [2] + [3, 4])
  {
    var explicit := ExplicitPart(serials, manual);
    forall p | p in explicit
      ensures explicit[p] in Reserved(manual)
    {
      ExplicitIsReserved(manual, serials[p]);
    }
  }

  function LastPlaced(serials: BySlot, manual: BySlot, mapping: SlotMap, placed: Placement): Placement {
    PlaceOne(4, serials, manual, mapping, true, placed)
  }

  function LastTwoPlaced(serials: BySlot, manual: BySlot, mapping: SlotMap, placed: Placement): Placement {
    LastPlaced(serials, manual, mapping, PlaceOne(3, serials, manual, mapping, true, placed))
  }

  lemma LastLands(serials: BySlot, manual: BySlot, mapping: SlotMap, placed: Placement, used: set<int>)
    requires Reaches(placed, serials, manual, used, [4])
    ensures var done := LastPlaced(serials, manual, mapping, placed);
      && (IsAutomatic(serials, manual, 4) ==> Lookup(done, 4) == Landing(serials, manual, mapping, 4, used))
      && Lookup(done, 2) == Lookup(placed, 2) && Lookup(done, 3) == Lookup(placed, 3)
  {
    assert [4] == [4] + [];
    PlaceLanding(4, [], serials, manual, mapping, placed, used);
  }

  lemma LastTwoLand(serials: BySlot, manual: BySlot, mapping: SlotMap, placed: Placement, used: set<int>)
    requires Reaches(placed, serials, manual, used, [3, 4])
    ensures var done, second :=
      LastTwoPlaced(serials, manual, mapping, placed), Landing(serials, manual, mapping, 3, used);
      && (IsAutomatic(serials, manual, 3) ==> Lookup(done, 3) == second)
      && (IsAutomatic(serials, manual, 4) ==>
          Lookup(done, 4) == Landing(serials, manual, mapping, 4, used + AsSet(second)))
      && Lookup(done, 2) == Lookup(placed, 2)
  {
    var next, second := PlaceOne(3, serials, manual, mapping, true, placed), Landing(serials, manual, mapping, 3, used);
    assert [3, 4] == [3] + [4];
    PlaceLanding(3, [4], serials, manual, mapping, placed, used);
    LastLands(serials, manual, mapping, next, used + AsSet(second));
  }

  lemma LandingsArePlaced(serials: BySlot, manual: BySlot, mapping: SlotMap)
    ensures var (first, second, third) := Landings(serials, manual, mapping);
      var placed := Resolution(serials, manual, mapping, true);
      && (IsAutomatic(serials, manual, 2) ==> Lookup(placed, 2) == first)
      && (IsAutomatic(serials, manual, 3) ==> Lookup(placed, 3) == second)
      && (IsAutomatic(serials, manual, 4) ==> Lookup(placed, 4) == third)
  {
    var first, zero := Landing(serials, manual, mapping, 2, {}), ExplicitPart(serials, manual);
    ThreeSteps(serials, manual, mapping);
    ExplicitReaches(serials, manual);
    PlaceLanding(2, [3, 4], serials, manual, mapping, zero, {});
    assert {} + AsSet(first) == AsSet(first);
    LastTwoLand(serials, manual, mapping, PlaceOne(2, serials, manual, mapping, true, zero), AsSet(first));
  }

  lemma ThreeSteps(serials: BySlot, manual: BySlot, mapping: SlotMap)
    ensures Resolution(serials, manual, mapping, true) ==
      LastTwoPlaced(serials, manual, mapping,
        PlaceOne(2, serials, manual, mapping, true, ExplicitPart(serials, manual)))
  {
    var one := PlaceOne(2, serials, manual, mapping, true, ExplicitPart(serials, manual));
    var two := PlaceOne(3, serials, manual, mapping, true, one);
    assert SLOTS[1..] == [3, 4] && [3, 4][1..] == [4] && [4][1..] == [];
    assert PlaceAutomatic([4], serials, manual, mapping, true, two) == LastPlaced(serials, manual, mapping, two);
    assert PlaceAutomatic([3, 4], serials, manual, mapping, true, one) ==
      PlaceAutomatic([4], serials, manual, mapping, true, two);
  }

  /** Every automatic battery that has a stable slot gets it. */
  ghost predicate AllSettle(placed: Placement, serials: BySlot, manual: BySlot, mapping: SlotMap) {
    forall p :: Settler(serials, manual, mapping, p) ==> Lookup(placed, p) == Some(mapping[serials[p]])
  }

  /** A settler that has landed like this has landed on its stable slot. */
  predicate Settles(serials: BySlot, manual: BySlot, mapping: SlotMap, p: int, landing: Option<int>) {
    Settler(serials, manual, mapping, p) ==> landing == Some(mapping[serials[p]])
  }

  lemma FirstSettlesIff(serials: BySlot, manual: BySlot, mapping: SlotMap)
    ensures var first := Landings(serials, manual, mapping).0;
      && (Settles(serials, manual, mapping, 2, first) <==> Unreserved(serials, manual, mapping, 2))
      && (Settles(serials, manual, mapping, 2, first) ==> AsSet(first) == UsedByFirst(serials, manual, mapping))
  {
    LandingIs(serials, manual, mapping, 2, {});
  }

  /** A settler settles unless its slot is reserved or in use. */
  lemma SettlesIff(serials: BySlot, manual: BySlot, mapping: SlotMap, p: int, used: set<int>)
    requires Settler(serials, manual, mapping, p)
    ensures Settles(serials, manual, mapping, p, Landing(serials, manual, mapping, p, used)) <==>
      Unreserved(serials, manual, mapping, p) && mapping[serials[p]] !in used
  {
    LandingIs(serials, manual, mapping, p, used);
  }

  /** An earlier battery that is a settled settler or a guest leaves a slot alone exactly as the conditions say. */
  lemma LeavesAloneIff(
    serials: BySlot, manual: BySlot, mapping: SlotMap, p: int, earlier: int, before: set<int>, landing: Option<int>)
    requires Injective(mapping) && Settler(serials, manual, mapping, p)
    requires landing == Landing(serials, manual, mapping, earlier, before)
    requires Settles(serials, manual, mapping, earlier, landing)
    ensures mapping[serials[p]] !in AsSet(landing) <==>
      DistinctFrom(serials, manual, mapping, p, earlier) && ClearOf(serials, manual, mapping, p, earlier, before)
  {
    LandingIs(serials, manual, mapping, earlier, before);
    if Settler(serials, manual, mapping, earlier) {
      assert mapping[serials[earlier]] == mapping[serials[p]] <==> serials[earlier] == serials[p];
    }
  }

  lemma SecondSettlesIff(serials: BySlot, manual: BySlot, mapping: SlotMap)
    requires Injective(mapping) && Unreserved(serials, manual, mapping, 2)
    ensures Settles(serials, manual, mapping, 3, Landings(serials, manual, mapping).1) <==>
      SecondUndisturbed(serials, manual, mapping)
  {
    var first := Landings(serials, manual, mapping).0;
    FirstSettlesIff(serials, manual, mapping);
    if Settler(serials, manual, mapping, 3) {
      SettlesIff(serials, manual, mapping, 3, AsSet(first));
      LeavesAloneIff(serials, manual, mapping, 3, 2, {}, first);
    }
  }

  lemma ThirdSettlesIff(serials: BySlot, manual: BySlot, mapping: SlotMap)
    requires Injective(mapping) && Unreserved(serials, manual, mapping, 2)
    requires Settles(serials, manual, mapping, 3, Landings(serials, manual, mapping).1)
    ensures Settles(serials, manual, mapping, 4, Landings(serials, manual, mapping).2) <==>
      ThirdUndisturbed(serials, manual, mapping)
  {
    var (first, second, _) := Landings(serials, manual, mapping);
    FirstSettlesIff(serials, manual, mapping);
    if Settler(serials, manual, mapping, 4) {
      SettlesIff(serials, manual, mapping, 4, AsSet(first) + AsSet(second));
      LeavesAloneIff(serials, manual, mapping, 4, 2, {}, first);
      LeavesAloneIff(serials, manual, mapping, 4, 3, AsSet(first), second);
    }
  }

  /** The three landings: every settler's is its stable slot. */
  predicate LandWell(serials: BySlot, manual: BySlot, mapping: SlotMap) {
    var (first, second, third) := Landings(serials, manual, mapping);
    && Settles(serials, manual, mapping, 2, first) && Settles(serials, manual, mapping, 3, second)
    && Settles(serials, manual, mapping, 4, third)
  }

  lemma LandWellIff(serials: BySlot, manual: BySlot, mapping: SlotMap)
    requires Injective(mapping)
    ensures LandWell(serials, manual, mapping) <==> Undisturbed(serials, manual, mapping)
  {
    FirstSettlesIff(serials, manual, mapping);
    if Unreserved(serials, manual, mapping, 2) {
      SecondSettlesIff(serials, manual, mapping);
      if SecondUndisturbed(serials, manual, mapping) {
        ThirdSettlesIff(serials, manual, mapping);
      }
    }
  }

  lemma OnlyThreeSettle(serials: BySlot, manual: BySlot, mapping: SlotMap)
    requires OnSlots(serials)
    ensures AllSettle(Resolution(serials, manual, mapping, true), serials, manual, mapping) <==>
      LandWell(serials, manual, mapping)
  {
    LandingsArePlaced(serials, manual, mapping);
    forall p | Settler(serials, manual, mapping, p)
      ensures p == 2 || p == 3 || p == 4
    {}
  }

  /** Every battery with a stable slot gets it if and only if no such slot is reserved by hand, no such battery is
      reported twice, and no battery without a stable slot, reported earlier, goes there. */
  lemma StableSlotsAreKeptIff(serials: BySlot, manual: BySlot, mapping: SlotMap)
    requires OnSlots(serials) && Injective(mapping)
    ensures AllSettle(Resolution(serials, manual, mapping, true), serials, manual, mapping) <==>
      Undisturbed(serials, manual, mapping)
  {
    OnlyThreeSettle(serials, manual, mapping);
    LandWellIff(serials, manual, mapping);
  }

  // ---- without manual choices

  predicate Known(serials: BySlot, mapping: SlotMap, p: int) { p in serials && serials[p] in mapping }

  predicate Unknown(serials: BySlot, mapping: SlotMap, p: int) { p in serials && serials[p] !in mapping }

  predicate Twice(serials: BySlot, mapping: SlotMap, p: int, q: int) {
    Known(serials, mapping, p) && Known(serials, mapping, q) && serials[p] == serials[q]
  }

  /** No known battery is reported twice. An unknown battery at 2 takes slot 2; one at 3 takes slot 3, or slot 2 if the
      battery at 2 has gone to 3. */
  predicate NobodyInTheWay(serials: BySlot, mapping: SlotMap) {
    && !Twice(serials, mapping, 2, 3) && !Twice(serials, mapping, 2, 4) && !Twice(serials, mapping, 3, 4)
    && (Unknown(serials, mapping, 2) && Known(serials, mapping, 3) ==> mapping[serials[3]] != 2)
    && (Unknown(serials, mapping, 2) && Known(serials, mapping, 4) ==> mapping[serials[4]] != 2)
    && (Unknown(serials, mapping, 3) && Known(serials, mapping, 4) ==>
        mapping[serials[4]] != if Known(serials, mapping, 2) && mapping[serials[2]] == 3 then 2 else 3)
  }

  lemma NobodyReservedIsAutomatic(serials: BySlot, manual: BySlot, mapping: SlotMap, p: int)
    requires AllAutomatic(manual)
    ensures Settler(serials, manual, mapping, p) <==> Known(serials, mapping, p)
    ensures Guest(serials, manual, mapping, p) <==> Unknown(serials, mapping, p)
  {
    if p in serials {
      ExplicitIsReserved(manual, serials[p]);
    }
  }

  lemma FreeGuestSlots(manual: BySlot, used: set<int>)
    requires AllAutomatic(manual)
    ensures 2 !in used ==> GuestSlot(manual, 2, used) == Some(2)
    ensures 3 !in used ==> GuestSlot(manual, 3, used) == Some(3)
    ensures used == {3} ==> GuestSlot(manual, 3, used) == Some(2)
  {
    assert ([2] + SLOTS)[0] == 2 && ([3] + SLOTS)[0] == 3 && ([3] + SLOTS)[1..] == SLOTS;
    if used == {3} {
      assert SLOTS[0] == 2 && FirstFree(SLOTS, Reserved(manual) + used) == Some(2);
      assert FirstFree([3] + SLOTS, Reserved(manual) + used) == FirstFree(SLOTS, Reserved(manual) + used);
    }
  }

  /** The same without manual choices, in terms of the report and the map alone. */
  lemma StableSlotsAreKeptUnassignedIff(serials: BySlot, manual: BySlot, mapping: SlotMap)
    requires OnSlots(serials) && Injective(mapping) && AllAutomatic(manual)
    ensures NobodyInTheWay(serials, mapping) <==>
      forall p :: Known(serials, mapping, p) ==>
        p in Resolution(serials, manual, mapping, true)
        && Resolution(serials, manual, mapping, true)[p] == mapping[serials[p]]
  {
    forall p
      ensures Settler(serials, manual, mapping, p) <==> Known(serials, mapping, p)
      ensures Guest(serials, manual, mapping, p) <==> Unknown(serials, mapping, p)
    {
      NobodyReservedIsAutomatic(serials, manual, mapping, p);
    }
    UndisturbedUnassigned(serials, manual, mapping);
    StableSlotsAreKeptIff(serials, manual, mapping);
  }

  lemma UndisturbedUnassigned(serials: BySlot, manual: BySlot, mapping: SlotMap)
    requires AllAutomatic(manual)
    ensures Undisturbed(serials, manual, mapping) <==> NobodyInTheWay(serials, mapping)
  {
    NobodyReservedIsAutomatic(serials, manual, mapping, 2);
    NobodyReservedIsAutomatic(serials, manual, mapping, 3);
    NobodyReservedIsAutomatic(serials, manual, mapping, 4);
    FreeGuestSlots(manual, {});
    FreeGuestSlots(manual, UsedByFirst(serials, manual, mapping));
  }
}
