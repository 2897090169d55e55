/** No battery would rather be elsewhere: what the order of an automatic battery's wishes comes to in the end. */
module SlotPreference {
  import opened Wire
  import opened SlotKeys
  import opened SlotResolution

  /** How much an automatic battery likes a slot, the less the better: its stable slot, then the one that it reports,
      then the others from the lowest on. */
  function Rank(mapping: SlotMap, stable: bool, physical: int, serial: string, slot: int): int {
    if stable && serial in mapping && mapping[serial] == slot then 0 else if slot == physical then 1 else slot
  }

  /** A slot is free of choices made by hand and of placed batteries. */
  ghost predicate IsFree(slot: int, manual: BySlot, placed: Placement) {
    IsSlot(slot) && (slot in manual ==> manual[slot] == "__auto__") && forall q :: q in placed ==> placed[q] != slot
  }

  /** Automatic batteries of these physical slots like no free slot better than what they have. */
  ghost predicate NothingBetter(
    physical: seq<int>, serials: BySlot, manual: BySlot, mapping: SlotMap, stable: bool, placed: Placement)
  {
    forall p, slot :: p in physical && IsAutomatic(serials, manual, p) && IsFree(slot, manual, placed) ==>
      p in placed
      && Rank(mapping, stable, p, serials[p], placed[p]) <= Rank(mapping, stable, p, serials[p], slot)
  }

  lemma FirstFreeIsBest(mapping: SlotMap, stable: bool, p: int, serial: string, taken: set<int>, slot: int)
    requires IsSlot(p) && MapsToSlots(mapping) && IsSlot(slot) && slot !in taken
    ensures var best := FirstFree(Wishes(mapping, stable, p, serial), taken);
      best.Some? && Rank(mapping, stable, p, serial, best.value) <= Rank(mapping, stable, p, serial, slot)
  {
    var wishes, others := Wishes(mapping, stable, p, serial), [p] + SLOTS;
    assert others[0] == p && others[1..] == SLOTS;
    FirstFreeOfAll(taken, slot);
    if stable && serial in mapping {
      assert wishes[0] == mapping[serial] && wishes[1..] == others;
    } else {
      assert wishes == others;
    }
  }

  lemma FirstFreeOfAll(taken: set<int>, slot: int)
    requires IsSlot(slot) && slot !in taken
    ensures FirstFree(SLOTS, taken).Some? && FirstFree(SLOTS, taken).value <= slot
  {
    assert SLOTS[1..] == [3, 4] && [3, 4][1..] == [4];
  }

  lemma PlacedOneIsBest(
    p: int, serials: BySlot, manual: BySlot, mapping: SlotMap, stable: bool, placed: Placement)
    requires OnSlots(serials) && MapsToSlots(mapping) && p !in placed
    ensures NothingBetter([p], serials, manual, mapping, stable, PlaceOne(p, serials, manual, mapping, stable, placed))
  {
    var next := PlaceOne(p, serials, manual, mapping, stable, placed);
    forall slot | IsAutomatic(serials, manual, p) && IsFree(slot, manual, next)
      ensures p in next && Rank(mapping, stable, p, serials[p], next[p]) <= Rank(mapping, stable, p, serials[p], slot)
    {
      assert forall q :: q in placed ==> next[q] == placed[q];
      FirstFreeIsBest(mapping, stable, p, serials[p], Reserved(manual) + Taken(placed), slot);
    }
  }

  /** The automatic batteries of these physical slots, each listed once, have no place yet. */
  ghost predicate Waiting(physical: seq<int>, serials: BySlot, manual: BySlot, placed: Placement) {
    && (forall i, j :: 0 <= i < j < |physical| ==> physical[i] != physical[j])
    && forall p :: p in physical && IsAutomatic(serials, manual, p) ==> p !in placed
  }

  lemma {:induction false} PlacingLeavesNothingBetter(
    physical: seq<int>, serials: BySlot, manual: BySlot, mapping: SlotMap, stable: bool, placed: Placement)
    requires OnSlots(serials) && MapsToSlots(mapping) && Sound(placed, serials, manual)
    requires Waiting(physical, serials, manual, placed)
    ensures NothingBetter(physical, serials, manual, mapping, stable,
              PlaceAutomatic(physical, serials, manual, mapping, stable, placed))
    decreases |physical|
  {
    if physical != [] {
      var p, rest := physical[0], physical[1..];
      var next := PlaceOne(p, serials, manual, mapping, stable, placed);
      var done := PlaceAutomatic(rest, serials, manual, mapping, stable, next);
      PlacingOneIsSound(p, serials, manual, mapping, stable, placed);
      PlacingIsSound(rest, serials, manual, mapping, stable, next);
      PlacingLeavesNothingBetter(rest, serials, manual, mapping, stable, next);
      if IsAutomatic(serials, manual, p) {
        PlacedOneIsBest(p, serials, manual, mapping, stable, placed);
      }
      StaysBest(p, serials, manual, mapping, stable, next, done);
      assert forall q :: q in physical ==> q == p || q in rest;
    }
  }

  /** What is placed later leaves fewer slots free. */
  lemma StaysBest(
    p: int, serials: BySlot, manual: BySlot, mapping: SlotMap, stable: bool, next: Placement, done: Placement)
    requires Extends(done, next)
    requires NothingBetter([p], serials, manual, mapping, stable, next)
    ensures NothingBetter([p], serials, manual, mapping, stable, done)
  {
    forall slot | IsFree(slot, manual, done)
      ensures IsFree(slot, manual, next)
    {
      assert forall q :: q in next ==> done[q] == next[q];
    }
    assert p in [p];
  }

  /** In the end no automatic battery would rather have a slot that is free: one without a place faces only slots that
      are in use or spoken for by hand, and one off its stable or reported slot finds that one so. */
  lemma NoBetterSlotIsFree(serials: BySlot, manual: BySlot, mapping: SlotMap, stable: bool)
    requires OnSlots(serials) && MapsToSlots(mapping)
    ensures var placed := Resolution(serials, manual, mapping, stable);
      forall p, slot ::
        IsAutomatic(serials, manual, p) && IsSlot(slot)
        && (p in placed ==>
            Rank(mapping, stable, p, serials[p], slot) < Rank(mapping, stable, p, serials[p], placed[p]))
        ==> (slot in manual && manual[slot] != "__auto__") || exists q :: q in placed && placed[q] == slot
  {
    var explicit, placed := ExplicitPart(serials, manual), Resolution(serials, manual, mapping, stable);
    assert Sound(explicit, serials, manual);
    PlacingLeavesNothingBetter(SLOTS, serials, manual, mapping, stable, explicit);
    forall p, slot | IsAutomatic(serials, manual, p) && IsFree(slot, manual, placed)
      ensures p in placed
      ensures Rank(mapping, stable, p, serials[p], placed[p]) <= Rank(mapping, stable, p, serials[p], slot)
    {
      assert SLOTS[p - 2] == p;
    }
    forall slot | IsSlot(slot)
      ensures IsFree(slot, manual, placed) ||
        (slot in manual && manual[slot] != "__auto__") || exists q :: q in placed && placed[q] == slot
    {}
  }

  /** So a reported battery that nobody has chosen a slot for is left out only when every slot is in use or spoken for
      by hand. */
  lemma LeftOutOnlyIfFull(serials: BySlot, manual: BySlot, mapping: SlotMap, stable: bool, p: int, slot: int)
    requires OnSlots(serials) && MapsToSlots(mapping) && p in serials && IsSlot(slot)
    requires p !in Resolution(serials, manual, mapping, stable)
    ensures (slot in manual && manual[slot] != "__auto__")
      || slot in Taken(Resolution(serials, manual, mapping, stable))
  {
    ResolutionIsSound(serials, manual, mapping, stable);
  }
}
