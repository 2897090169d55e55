/** From reported battery serials to logical slots: explicit choices first, then stable slots, then whatever is free. */
module SlotResolution {
  import opened Wire
  import opened SlotKeys

  const AUTO := "__auto__"
  const EMPTY := "__empty__"

  /** Serials by physical slot, and manual choices by logical slot. */
  type BySlot = map<int, string>

  /** The stable slots of serials. */
  type SlotMap = map<string, int>

  /** The logical slots of physical ones. */
  type Placement = map<int, int>

  predicate OnSlots(m: BySlot) { forall k :: k in m ==> IsSlot(k) }

  predicate MapsToSlots(mapping: SlotMap) { forall s :: s in mapping ==> IsSlot(mapping[s]) }

  ghost predicate Injective<K(!new), V>(m: map<K, V>) { forall a, b :: a in m && b in m && m[a] == m[b] ==> a == b }

  /** No two physical slots go to one logical slot. */
  ghost predicate NoSharedSlot(placed: Placement) {
    forall p, q :: p in placed && q in placed && p != q ==> placed[p] != placed[q]
  }

  predicate IsExplicit(choice: string) { choice != AUTO && choice != EMPTY }

  predicate Chooses(manual: BySlot, slot: int, serial: string) {
    slot in manual && manual[slot] == serial && IsExplicit(serial)
  }

  /** The slot chosen for a serial; of several, the last one. */
  function ExplicitSlot(manual: BySlot, serial: string): (slot: Option<int>)
    ensures slot.Some? ==> IsSlot(slot.value) && Chooses(manual, slot.value, serial)
    ensures slot.None? ==> forall k :: IsSlot(k) ==> !Chooses(manual, k, serial)
  {
    if Chooses(manual, 4, serial) then Some(4)
    else if Chooses(manual, 3, serial) then Some(3)
    else if Chooses(manual, 2, serial) then Some(2)
    else None
  }

  /** Slots that no automatic battery may take: those with an explicit serial and those kept empty. */
  function Reserved(manual: BySlot): set<int> { set slot | slot in manual && manual[slot] != AUTO }

  predicate AllAutomatic(manual: BySlot) { forall slot :: slot in manual ==> manual[slot] == AUTO }

  lemma NothingReserved(manual: BySlot)
    requires AllAutomatic(manual)
    ensures Reserved(manual) == {}
  {
    forall slot
      ensures slot !in Reserved(manual)
    {
      assert slot in manual ==> manual[slot] == AUTO;
    }
  }

  function FirstFree(candidates: seq<int>, taken: set<int>): (slot: Option<int>)
    ensures slot.Some? ==> slot.value in candidates && slot.value !in taken
    ensures slot.None? ==> forall c :: c in candidates ==> c in taken
  {
    if candidates == [] then None
    else if candidates[0] !in taken then Some(candidates[0])
    else FirstFree(candidates[1..], taken)
  }

  /** What an automatic battery would like, best first: its stable slot, the slot it reports, any slot. */
  function Wishes(mapping: SlotMap, stable: bool, physical: int, serial: string): seq<int> {
    (if stable && serial in mapping then [mapping[serial]] else []) + [physical] + SLOTS
  }

  /** The logical slots in use. */
  function Taken(placed: Placement): set<int> { set p | p in placed :: placed[p] }

  function ExplicitPart(serials: BySlot, manual: BySlot): Placement {
    map p | p in serials && ExplicitSlot(manual, serials[p]).Some? :: ExplicitSlot(manual, serials[p]).value
  }

  /** Place one battery, unless it is explicit already, at the first of its wishes that is still free. */
  function PlaceOne(
    p: int, serials: BySlot, manual: BySlot, mapping: SlotMap, stable: bool, placed: Placement): Placement
  {
    if p !in serials || p in placed then placed else
    match FirstFree(Wishes(mapping, stable, p, serials[p]), Reserved(manual) + Taken(placed))
    case None => placed
    case Some(slot) => placed[p := slot]
  }

  /** Place the remaining batteries of the given physical slots, one after the other. */
  function PlaceAutomatic(
    physical: seq<int>, serials: BySlot, manual: BySlot, mapping: SlotMap, stable: bool, placed: Placement)
    : Placement
  {
    if physical == [] then placed else
    var next := PlaceOne(physical[0], serials, manual, mapping, stable, placed);
    PlaceAutomatic(physical[1..], serials, manual, mapping, stable, next)
  }

  function Resolution(serials: BySlot, manual: BySlot, mapping: SlotMap, stable: bool): Placement {
    PlaceAutomatic(SLOTS, serials, manual, mapping, stable, ExplicitPart(serials, manual))
  }

  // ---- the source's two loops

  method PlaceExplicit(serials: BySlot, manual: BySlot) returns (placed: Placement, used: set<int>)
    requires OnSlots(serials)
    ensures placed == ExplicitPart(serials, manual) && used == Taken(placed)
  {
    placed, used := map[], {};
    for i := 0 to |SLOTS|
      invariant placed == map p | p in serials && p in SLOTS[..i] && ExplicitSlot(manual, serials[p]).Some? ::
        ExplicitSlot(manual, serials[p]).value
      invariant used == Taken(placed)
    {
      var p := SLOTS[i];
      assert SLOTS[..i + 1] == SLOTS[..i] + [p];
      if p in serials {
        var slot := ExplicitSlot(manual, serials[p]);
        if slot.Some? {
          PutTakes(placed, p, slot.value);
          placed, used := placed[p := slot.value], used + {slot.value};
        }
      }
    }
    forall p | p in serials
      ensures p in SLOTS[..|SLOTS|]
    {
      assert SLOTS[..|SLOTS|][p - 2] == p;
    }
  }

  lemma PutTakes(placed: Placement, p: int, slot: int)
    requires p !in placed
    ensures Taken(placed[p := slot]) == Taken(placed) + {slot}
  {
    var put := placed[p := slot];
    assert put[p] == slot;
    forall q | q in placed
      ensures placed[q] in Taken(put)
    {
      assert put[q] == placed[q];
    }
  }

  /** The choice of one automatic battery, in the source's steps. */
  method ChooseSlot(physical: int, serial: string, mapping: SlotMap, stable: bool, reserved: set<int>, used: set<int>)
      returns (slot: Option<int>)
    ensures slot == FirstFree(Wishes(mapping, stable, physical, serial), reserved + used)
  {
    slot := if !stable then Some(physical) else if serial in mapping then Some(mapping[serial]) else None;
    if slot.Some? && (slot.value in reserved || slot.value in used) {
      slot := None;
    }
    ghost var wishes := Wishes(mapping, stable, physical, serial);
    if stable && serial in mapping {
      assert wishes[0] == mapping[serial] && wishes[1..] == [physical] + SLOTS;
    } else {
      assert wishes == [physical] + SLOTS;
    }
    if slot.None? {
      slot := FirstFree([physical] + SLOTS, reserved + used);
    }
  }

  method ResolveSlots(serials: BySlot, manual: BySlot, mapping: SlotMap, stable: bool)
      returns (placed: Placement, used: set<int>)
    requires OnSlots(serials)
    ensures placed == Resolution(serials, manual, mapping, stable) && used == Taken(placed)
  {
    var reserved := Reserved(manual);
    placed, used := PlaceExplicit(serials, manual);
    for i := 0 to |SLOTS|
      invariant used == Taken(placed)
      invariant PlaceAutomatic(SLOTS[i..], serials, manual, mapping, stable, placed) ==
        Resolution(serials, manual, mapping, stable)
    {
      var p := SLOTS[i];
      assert SLOTS[i..][0] == p && SLOTS[i..][1..] == SLOTS[i + 1..];
      if p in serials && p !in placed {
        var slot := ChooseSlot(p, serials[p], mapping, stable, reserved, used);
        if slot.Some? {
          PutTakes(placed, p, slot.value);
          placed, used := placed[p := slot.value], used + {slot.value};
        }
      }
    }
  }

  // ---- what resolution promises

  /** Two physical slots report one serial that has an explicit slot. */
  ghost predicate ReportsExplicitTwice(serials: BySlot, manual: BySlot) {
    exists p, q ::
      p in serials && q in serials && p != q && serials[p] == serials[q] && ExplicitSlot(manual, serials[p]).Some?
  }

  /** What holds after every placement: explicit batteries where chosen, automatic ones off the reserved slots and
      alone. */
  ghost predicate Sound(placed: Placement, serials: BySlot, manual: BySlot) {
    && placed.Keys <= serials.Keys
    && (forall p :: p in placed ==> IsSlot(placed[p]))
    && (forall p :: p in serials && ExplicitSlot(manual, serials[p]).Some? ==>
        p in placed && placed[p] == ExplicitSlot(manual, serials[p]).value)
    && (forall p :: p in placed && ExplicitSlot(manual, serials[p]).None? ==>
        !(placed[p] in manual && manual[placed[p]] != AUTO) && forall q :: q in placed && q != p ==>
          placed[q] != placed[p])
  }

  /** A battery of these physical slots that got no place found every slot reserved or used. */
  ghost predicate NothingFree(physical: seq<int>, placed: Placement, serials: BySlot, manual: BySlot) {
    forall p, slot :: p in physical && p in serials && p !in placed && IsSlot(slot) ==>
      (slot in manual && manual[slot] != AUTO) || slot in Taken(placed)
  }

  ghost predicate Extends(now: Placement, was: Placement) {
    forall p :: p in was ==> p in now && now[p] == was[p]
  }

  lemma WishesAreSlots(mapping: SlotMap, stable: bool, p: int, serial: string)
    requires IsSlot(p) && MapsToSlots(mapping)
    ensures forall slot :: IsSlot(slot) <==> slot in Wishes(mapping, stable, p, serial)
  {
    var wishes := Wishes(mapping, stable, p, serial);
    var n := |wishes| - 3;
    assert wishes[n] == 2 && wishes[n + 1] == 3 && wishes[n + 2] == 4;
  }

  lemma PlacingOneIsSound(
    p: int, serials: BySlot, manual: BySlot, mapping: SlotMap, stable: bool, placed: Placement)
    requires OnSlots(serials) && MapsToSlots(mapping) && Sound(placed, serials, manual)
    ensures var next := PlaceOne(p, serials, manual, mapping, stable, placed);
      Sound(next, serials, manual) && NothingFree([p], next, serials, manual) && Extends(next, placed)
  {
    if p in serials && p !in placed {
      WishesAreSlots(mapping, stable, p, serials[p]);
    }
  }

  lemma {:induction false} PlacingIsSound(
    physical: seq<int>, serials: BySlot, manual: BySlot, mapping: SlotMap, stable: bool, placed: Placement)
    requires OnSlots(serials) && MapsToSlots(mapping) && Sound(placed, serials, manual)
    ensures var done := PlaceAutomatic(physical, serials, manual, mapping, stable, placed);
      Sound(done, serials, manual) && NothingFree(physical, done, serials, manual) && Extends(done, placed)
    decreases |physical|
  {
    if physical != [] {
      var p := physical[0];
      var next := PlaceOne(p, serials, manual, mapping, stable, placed);
      var done := PlaceAutomatic(physical, serials, manual, mapping, stable, placed);
      PlacingOneIsSound(p, serials, manual, mapping, stable, placed);
      PlacingIsSound(physical[1..], serials, manual, mapping, stable, next);
      assert forall q :: q in next ==> next[q] == done[q] && done[q] in Taken(done);
      assert forall slot :: slot in Taken(next) ==> slot in Taken(done);
      assert p in [p];
    }
  }

  /** Everything the resolution promises for any reports, choices and stable map. */
  lemma ResolutionIsSound(serials: BySlot, manual: BySlot, mapping: SlotMap, stable: bool)
    requires OnSlots(serials) && MapsToSlots(mapping)
    ensures var placed := Resolution(serials, manual, mapping, stable);
      Sound(placed, serials, manual) && NothingFree(SLOTS, placed, serials, manual)
  {
    var explicit := ExplicitPart(serials, manual);
    assert Sound(explicit, serials, manual);
    PlacingIsSound(SLOTS, serials, manual, mapping, stable, explicit);
  }

  /** Two batteries share a logical slot exactly when one explicitly assigned serial is reported twice. */
  lemma NoSharedSlotIff(serials: BySlot, manual: BySlot, mapping: SlotMap, stable: bool)
    requires OnSlots(serials) && MapsToSlots(mapping)
    ensures NoSharedSlot(Resolution(serials, manual, mapping, stable)) <==> !ReportsExplicitTwice(serials, manual)
  {
    var placed := Resolution(serials, manual, mapping, stable);
    ResolutionIsSound(serials, manual, mapping, stable);
    forall p, q | p in placed && q in placed && placed[p] == placed[q] && p != q
      ensures ReportsExplicitTwice(serials, manual)
    {
      assert Chooses(manual, placed[p], serials[p]) && Chooses(manual, placed[q], serials[q]);
    }
    if ReportsExplicitTwice(serials, manual) {
      var p, q :|
        p in serials && q in serials && p != q && serials[p] == serials[q] && ExplicitSlot(manual, serials[p]).Some?;
      assert placed[p] == placed[q];
    }
  }

  predicate IsAutomatic(serials: BySlot, manual: BySlot, p: int) {
    p in serials && ExplicitSlot(manual, serials[p]).None?
  }

  function FirstWish(serials: BySlot, mapping: SlotMap, stable: bool, p: int): int
    requires p in serials
  {
    Wishes(mapping, stable, p, serials[p])[0]
  }

  /** The first wishes of the automatic batteries do not clash with each other or with a reserved slot. */
  ghost predicate WishesAgree(serials: BySlot, manual: BySlot, mapping: SlotMap, stable: bool) {
    && (forall p :: IsAutomatic(serials, manual, p) ==>
        var wish := FirstWish(serials, mapping, stable, p); !(wish in manual && manual[wish] != AUTO))
    && (forall p, q :: IsAutomatic(serials, manual, p) && IsAutomatic(serials, manual, q) && p != q ==>
        FirstWish(serials, mapping, stable, p) != FirstWish(serials, mapping, stable, q))
  }

  /** Explicit batteries are on reserved slots, automatic ones have their first wish. */
  ghost predicate Granted(placed: Placement, serials: BySlot, manual: BySlot, mapping: SlotMap, stable: bool) {
    forall p :: p in placed ==>
      && p in serials
      && (IsAutomatic(serials, manual, p) ==> placed[p] == FirstWish(serials, mapping, stable, p))
      && (!IsAutomatic(serials, manual, p) ==> placed[p] in Reserved(manual))
  }

  lemma {:induction false} GrantFirstWishes(
    physical: seq<int>, serials: BySlot, manual: BySlot, mapping: SlotMap, stable: bool, placed: Placement)
    requires WishesAgree(serials, manual, mapping, stable) && Granted(placed, serials, manual, mapping, stable)
    requires forall p :: p in serials && !IsAutomatic(serials, manual, p) ==> p in placed
    ensures var done := PlaceAutomatic(physical, serials, manual, mapping, stable, placed);
      && Granted(done, serials, manual, mapping, stable) && Extends(done, placed)
      && forall p :: p in physical && p in serials ==> p in done
    decreases |physical|
  {
    if physical != [] {
      var p := physical[0];
      var next := PlaceOne(p, serials, manual, mapping, stable, placed);
      if p in serials && p !in placed {
        var wish := FirstWish(serials, mapping, stable, p);
        assert wish !in Reserved(manual) + Taken(placed) by {
          assert forall q :: q in placed ==> placed[q] != wish;
        }
        assert next == placed[p := wish];
      }
      GrantFirstWishes(physical[1..], serials, manual, mapping, stable, next);
      assert forall q :: q in physical ==> q == p || q in physical[1..];
    }
  }

  /** Whenever nothing forces a change, nothing changes: batteries whose first wishes do not clash all get them. */
  lemma FirstWishesAreGranted(serials: BySlot, manual: BySlot, mapping: SlotMap, stable: bool)
    requires OnSlots(serials) && WishesAgree(serials, manual, mapping, stable)
    ensures forall p :: IsAutomatic(serials, manual, p) ==>
      p in Resolution(serials, manual, mapping, stable)
      && Resolution(serials, manual, mapping, stable)[p] == FirstWish(serials, mapping, stable, p)
  {
    var explicit := ExplicitPart(serials, manual);
    forall p | p in explicit
      ensures !IsAutomatic(serials, manual, p) && explicit[p] in Reserved(manual)
    {
      ExplicitIsReserved(manual, serials[p]);
    }
    GrantFirstWishes(SLOTS, serials, manual, mapping, stable, explicit);
    forall p | p in serials
      ensures p in SLOTS
    {
      assert SLOTS[p - 2] == p;
    }
  }

  /** And the condition is exact: where first wishes clash, some battery goes elsewhere. */
  lemma FirstWishesAreGrantedIff(serials: BySlot, manual: BySlot, mapping: SlotMap, stable: bool)
    requires OnSlots(serials) && MapsToSlots(mapping)
    ensures WishesAgree(serials, manual, mapping, stable) <==>
      forall p :: IsAutomatic(serials, manual, p) ==>
        p in Resolution(serials, manual, mapping, stable)
        && Resolution(serials, manual, mapping, stable)[p] == FirstWish(serials, mapping, stable, p)
  {
    ResolutionIsSound(serials, manual, mapping, stable);
    if WishesAgree(serials, manual, mapping, stable) {
      FirstWishesAreGranted(serials, manual, mapping, stable);
    }
  }

  /** So a battery without a stable slot, reported early, can take the slot of one that has it. */
  lemma UnmappedBatteryDisplaces(a: string, b: string, c: string, d: string)
    requires a != b && a != c && a != d && b != c && b != d && c != d
    ensures var mapping := map[a := 2, b := 3, c := 4];
      Injective(mapping) && Resolution(map[2 := d, 3 := a], map[], mapping, true) == map[2 := 2, 3 := 3]
  {
    var serials, manual, mapping := map[2 := d, 3 := a], map[], map[a := 2, b := 3, c := 4];
    DisplacingSteps(serials, manual, mapping, d, a);
    assert ExplicitPart(serials, manual) == map[];
    assert PlaceAutomatic([4][1..], serials, manual, mapping, true, map[2 := 2, 3 := 3]) == map[2 := 2, 3 := 3];
    assert PlaceAutomatic([4], serials, manual, mapping, true, map[2 := 2, 3 := 3]) == map[2 := 2, 3 := 3];
    assert [3, 4][1..] == [4];
    assert PlaceAutomatic([3, 4], serials, manual, mapping, true, map[2 := 2]) == map[2 := 2, 3 := 3];
    assert SLOTS[1..] == [3, 4];
  }

  lemma DisplacingSteps(serials: BySlot, manual: BySlot, mapping: SlotMap, first: string, second: string)
    requires serials == map[2 := first, 3 := second] && manual == map[] && first !in mapping && second in mapping
    requires mapping[second] == 2
    ensures PlaceOne(2, serials, manual, mapping, true, map[]) == map[2 := 2]
    ensures PlaceOne(3, serials, manual, mapping, true, map[2 := 2]) == map[2 := 2, 3 := 3]
  {
    var none: Placement, one: Placement := map[], map[2 := 2];
    assert Taken(none) == {};
    assert one == none[2 := 2];
    PutTakes(none, 2, 2);
    assert Wishes(mapping, true, 2, first)[0] == 2;
    var wishes := Wishes(mapping, true, 3, second);
    assert wishes[0] == 2 && wishes[1..][0] == 3;
    assert Reserved(manual) + Taken(one) == {2};
    assert FirstFree(wishes, {2}) == Some(3);
    assert 3 in serials && 3 !in one;
  }

  lemma ExplicitIsReserved(manual: BySlot, serial: string)
    ensures ExplicitSlot(manual, serial).Some? ==> ExplicitSlot(manual, serial).value in Reserved(manual)
  {}

  /** Without manual choices, distinct batteries that all have a stable slot each get theirs. */
  lemma StableSlotsAreKept(serials: BySlot, manual: BySlot, mapping: SlotMap)
    requires OnSlots(serials) && Injective(mapping) && Injective(serials) && AllAutomatic(manual)
    requires forall p :: p in serials ==> serials[p] in mapping
    ensures forall p :: p in serials ==>
      p in Resolution(serials, manual, mapping, true)
      && Resolution(serials, manual, mapping, true)[p] == mapping[serials[p]]
  {
    forall p | p in serials
      ensures IsAutomatic(serials, manual, p)
    {
      ExplicitIsReserved(manual, serials[p]);
    }
    FirstWishesAreGranted(serials, manual, mapping, true);
  }

  /** Without manual choices or stable slots every battery stays where it reports. */
  lemma ReportedSlotsAreKept(serials: BySlot, manual: BySlot, mapping: SlotMap)
    requires OnSlots(serials) && AllAutomatic(manual)
    ensures forall p :: p in serials ==>
      p in Resolution(serials, manual, mapping, false) && Resolution(serials, manual, mapping, false)[p] == p
  {
    forall p | p in serials
      ensures IsAutomatic(serials, manual, p)
    {
      ExplicitIsReserved(manual, serials[p]);
    }
    FirstWishesAreGranted(serials, manual, mapping, false);
  }
}
