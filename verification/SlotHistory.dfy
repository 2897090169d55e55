/** The stable serial-to-slot history of a device: how it grows, what it promises a battery, and how a file of it is
    read. */
module SlotHistory {
  import opened Wire
  import opened SlotKeys
  import opened SlotResolution
  import opened SlotSerials

  // ---- growing one device's map

  function SlotsOf(mapping: SlotMap): set<int> { set s | s in mapping :: mapping[s] }

  ghost predicate Good(mapping: SlotMap) { MapsToSlots(mapping) && Injective(mapping) }

  ghost predicate Grows(was: SlotMap, now: SlotMap) {
    forall s :: s in was ==> s in now && now[s] == was[s]
  }

  /** A new battery gets the slot it reports if nobody has it, else the lowest free one, else none. */
  function AssignOne(mapping: SlotMap, physical: int, serial: string): SlotMap {
    if serial in mapping then mapping else
    match FirstFree([physical] + SLOTS, SlotsOf(mapping))
    case None => mapping
    case Some(slot) => mapping[serial := slot]
  }

  function Assign(mapping: SlotMap, serials: BySlot, physical: seq<int>): SlotMap
    decreases |physical|
  {
    if physical == [] then mapping
    else
      var p := physical[0];
      Assign(if p in serials then AssignOne(mapping, p, serials[p]) else mapping, serials, physical[1..])
  }

  /** A serial without a slot gets the one it reports if nobody has it, else the lowest that nobody has, else none; one
      that has a slot changes nothing. */
  lemma NewBatterySlot(mapping: SlotMap, physical: int, serial: string)
    requires IsSlot(physical)
    ensures AssignOne(mapping, physical, serial) ==
      if serial in mapping then mapping
      else if !(exists s :: s in mapping && mapping[s] == physical) then mapping[serial := physical]
      else if !(exists s :: s in mapping && mapping[s] == 2) then mapping[serial := 2]
      else if !(exists s :: s in mapping && mapping[s] == 3) then mapping[serial := 3]
      else if !(exists s :: s in mapping && mapping[s] == 4) then mapping[serial := 4]
      else mapping
  {
    GivenIff(mapping, physical);
    GivenIff(mapping, 2);
    GivenIff(mapping, 3);
    GivenIff(mapping, 4);
    LowestFree(SlotsOf(mapping));
    assert ([physical] + SLOTS)[0] == physical && ([physical] + SLOTS)[1..] == SLOTS;
  }

  lemma GivenIff(mapping: SlotMap, slot: int)
    ensures slot in SlotsOf(mapping) <==> exists s :: s in mapping && mapping[s] == slot
  {}

  lemma LowestFree(taken: set<int>)
    ensures FirstFree(SLOTS, taken) ==
      if 2 !in taken then Some(2) else if 3 !in taken then Some(3) else if 4 !in taken then Some(4) else None
  {
    assert SLOTS[1..] == [3, 4] && [3, 4][1..] == [4] && [4][1..] == [];
    assert FirstFree([4], taken) == if 4 !in taken then Some(4) else None;
    assert FirstFree([3, 4], taken) == if 3 !in taken then Some(3) else FirstFree([4], taken);
  }

  /** An observation assigns the battery at 2, then the one at 3, then the one at 4. */
  lemma AssignsInSlotOrder(mapping: SlotMap, serials: BySlot)
    ensures var first := if 2 in serials then AssignOne(mapping, 2, serials[2]) else mapping;
      var second := if 3 in serials then AssignOne(first, 3, serials[3]) else first;
      Assign(mapping, serials, SLOTS) == if 4 in serials then AssignOne(second, 4, serials[4]) else second
  {
    var first := if 2 in serials then AssignOne(mapping, 2, serials[2]) else mapping;
    var second := if 3 in serials then AssignOne(first, 3, serials[3]) else first;
    assert SLOTS[1..] == [3, 4] && [3, 4][1..] == [4] && [4][1..] == [];
    assert Assign(first, serials, [3, 4]) == Assign(second, serials, [4]);
  }

  lemma PutSlots(mapping: SlotMap, serial: string, slot: int)
    requires serial !in mapping
    ensures SlotsOf(mapping[serial := slot]) == SlotsOf(mapping) + {slot}
  {
    var put := mapping[serial := slot];
    assert put[serial] == slot;
    forall s | s in mapping
      ensures mapping[s] in SlotsOf(put)
    {
      assert put[s] == mapping[s];
    }
  }

  method AssignStable(before: SlotMap, serials: BySlot) returns (mapping: SlotMap, changed: bool)
    requires OnSlots(serials)
    ensures mapping == Assign(before, serials, SLOTS)
    ensures changed <==> mapping != before
  {
    mapping, changed := before, false;
    var reserved := SlotsOf(mapping);
    for i := 0 to |SLOTS|
      invariant reserved == SlotsOf(mapping)
      invariant Assign(mapping, serials, SLOTS[i..]) == Assign(before, serials, SLOTS)
      invariant before.Keys <= mapping.Keys && (if changed then before.Keys < mapping.Keys else mapping == before)
    {
      var p := SLOTS[i];
      assert SLOTS[i..][0] == p && SLOTS[i..][1..] == SLOTS[i + 1..];
      if p in serials && serials[p] !in mapping {
        var slot: Option<int>;
        if p !in reserved {
          slot := Some(p);
        } else {
          slot := FirstFree(SLOTS, reserved);
        }
        assert ([p] + SLOTS)[0] == p && ([p] + SLOTS)[1..] == SLOTS;
        if slot.Some? {
          PutSlots(mapping, serials[p], slot.value);
          mapping, reserved, changed := mapping[serials[p] := slot.value], reserved + {slot.value}, true;
        }
      }
    }
  }

  /** No assignment is ever changed, no slot is given twice, and a battery stays without one only when all are given. */
  lemma {:induction false} AssignGrows(mapping: SlotMap, serials: BySlot, physical: seq<int>)
    requires OnSlots(serials) && Good(mapping)
    ensures var now := Assign(mapping, serials, physical);
      && Good(now) && Grows(mapping, now)
      && (forall p :: p in physical && p in serials && serials[p] !in now ==> SlotsOf(now) == {2, 3, 4})
      && (forall s :: s in now ==> s in mapping || exists p :: p in serials && serials[p] == s)
    decreases |physical|
  {
    if physical != [] {
      var p := physical[0];
      if p !in serials {
        AssignGrows(mapping, serials, physical[1..]);
      } else {
        var next := AssignOne(mapping, p, serials[p]);
        AssignOneGrows(mapping, p, serials[p]);
        AssignGrows(next, serials, physical[1..]);
        var now := Assign(mapping, serials, physical);
        if serials[p] !in now {
          assert serials[p] !in next;
          AllSlotsStayGiven(next, now);
        }
      }
    }
  }

  lemma AssignOneGrows(mapping: SlotMap, physical: int, serial: string)
    requires IsSlot(physical) && Good(mapping)
    ensures var next := AssignOne(mapping, physical, serial);
      Good(next) && Grows(mapping, next) && (serial !in next ==> SlotsOf(next) == {2, 3, 4})
  {
    var wishes := [physical] + SLOTS;
    assert wishes[1] == 2 && wishes[2] == 3 && wishes[3] == 4;
    if serial !in mapping {
      assert forall s :: s in mapping ==> mapping[s] in SlotsOf(mapping);
    }
  }

  lemma AllSlotsStayGiven(was: SlotMap, now: SlotMap)
    requires Grows(was, now) && MapsToSlots(now) && SlotsOf(was) == {2, 3, 4}
    ensures SlotsOf(now) == {2, 3, 4}
  {
    forall slot | slot in {2, 3, 4}
      ensures slot in SlotsOf(now)
    {
      assert slot in SlotsOf(was);
      var s :| s in was && was[s] == slot;
      assert now[s] == slot;
    }
  }

  /** As long as a device has shown at most three serials, each of them has a stable slot. */
  lemma {:induction false} ThreeSerialsAllFit(mapping: SlotMap, serials: BySlot, p: int)
    requires OnSlots(serials) && Good(mapping) && p in serials
    requires |mapping.Keys + serials.Values| <= 3
    ensures serials[p] in Assign(mapping, serials, SLOTS)
  {
    var now := Assign(mapping, serials, SLOTS);
    AssignGrows(mapping, serials, SLOTS);
    assert SLOTS[p - 2] == p;
    if serials[p] !in now {
      AllSlotsNeedThree(now);
      assert now.Keys + {serials[p]} <= mapping.Keys + serials.Values;
      SubsetIsSmaller(now.Keys + {serials[p]}, mapping.Keys + serials.Values);
      assert false;
    }
  }

  lemma AllSlotsNeedThree(mapping: SlotMap)
    requires SlotsOf(mapping) == {2, 3, 4}
    ensures |mapping.Keys| >= 3
  {
    assert 2 in SlotsOf(mapping) && 3 in SlotsOf(mapping) && 4 in SlotsOf(mapping);
    var a :| a in mapping && mapping[a] == 2;
    var b :| b in mapping && mapping[b] == 3;
    var c :| c in mapping && mapping[c] == 4;
    SubsetIsSmaller({a, b, c}, mapping.Keys);
  }

  lemma SubsetIsSmaller<T>(a: set<T>, b: set<T>)
    requires a <= b
    ensures |a| <= |b|
  {
    assert |b - a| == |b| - |a|;
  }

  /** The first observation of a device records its distinct batteries where they report. */
  lemma FirstObservationKeepsSlots(serials: BySlot)
    requires OnSlots(serials) && Injective(serials)
    ensures forall p :: p in serials ==>
      serials[p] in Assign(map[], serials, SLOTS) && Assign(map[], serials, SLOTS)[serials[p]] == p
  {
    AssignInPlace(map[], serials, SLOTS);
    forall p | p in serials
      ensures p in SLOTS
    {
      assert SLOTS[p - 2] == p;
    }
  }

  /** Every recorded battery is recorded where it is reported. */
  ghost predicate InPlace(mapping: SlotMap, serials: BySlot) {
    forall s :: s in mapping ==> mapping[s] in serials && serials[mapping[s]] == s
  }

  lemma AssignOneInPlace(mapping: SlotMap, serials: BySlot, p: int)
    requires OnSlots(serials) && Injective(serials) && InPlace(mapping, serials) && p in serials
    ensures var next := AssignOne(mapping, p, serials[p]);
      InPlace(next, serials) && Grows(mapping, next) && serials[p] in next && next[serials[p]] == p
  {
    if serials[p] in mapping {
      assert serials[mapping[serials[p]]] == serials[p];
    } else {
      assert forall s :: s in mapping ==> mapping[s] != p;
      assert ([p] + SLOTS)[0] == p;
      assert AssignOne(mapping, p, serials[p]) == mapping[serials[p] := p];
    }
  }

  lemma {:induction false} AssignInPlace(mapping: SlotMap, serials: BySlot, physical: seq<int>)
    requires OnSlots(serials) && Injective(serials) && InPlace(mapping, serials)
    ensures var now := Assign(mapping, serials, physical);
      Grows(mapping, now) && forall p :: p in physical && p in serials ==> serials[p] in now && now[serials[p]] == p
    decreases |physical|
  {
    if physical != [] {
      var first := physical[0];
      var next := if first in serials then AssignOne(mapping, first, serials[first]) else mapping;
      if first in serials {
        AssignOneInPlace(mapping, serials, first);
      }
      AssignInPlace(next, serials, physical[1..]);
      var now := Assign(mapping, serials, physical);
      forall p | p in physical && p in serials
        ensures serials[p] in now && now[serials[p]] == p
      {
        assert p == first || p in physical[1..];
      }
    }
  }

  /** With this packet's batteries the device has still shown at most three serials. */
  ghost predicate AtMostThree(mapping: SlotMap, serials: BySlot) { |mapping.Keys + serials.Values| <= 3 }

  /** Batteries on physical slots, none reported twice. */
  ghost predicate Distinct(serials: BySlot) { OnSlots(serials) && Injective(serials) }

  /** A later state of a device's map, after a packet with these batteries and then any others. */
  ghost predicate LaterThan(mapping: SlotMap, serials: BySlot, later: SlotMap) {
    Good(mapping) && Good(later) && Grows(Assign(mapping, serials, SLOTS), later)
  }

  /** One serial, one logical slot: whenever and wherever a battery is reported again, its telemetry goes to the
      same slot, provided that the device has never shown more than three serials and that nothing was chosen
      by hand. */
  lemma {:induction false} SameSerialSameSlot(
    mapping: SlotMap, before: BySlot, between: SlotMap, after: BySlot,
    manual: BySlot, p: int, q: int)
    requires Distinct(before) && Distinct(after) && AllAutomatic(manual)
    requires LaterThan(mapping, before, between)
    requires AtMostThree(mapping, before) && AtMostThree(between, after)
    requires p in before && q in after && before[p] == after[q]
    ensures
      var first := Resolution(before, manual, Assign(mapping, before, SLOTS), true);
      var second := Resolution(after, manual, Assign(between, after, SLOTS), true);
      p in first && q in second && first[p] == second[q]
  {
    ResolvesStable(mapping, before, manual, p);
    ResolvesStable(between, after, manual, q);
    AssignGrows(between, after, SLOTS);
  }

  lemma {:induction false} ResolvesStable(mapping: SlotMap, serials: BySlot, manual: BySlot, p: int)
    requires Distinct(serials) && AllAutomatic(manual) && Good(mapping) && AtMostThree(mapping, serials)
    requires p in serials
    ensures
      var now := Assign(mapping, serials, SLOTS);
      var placed := Resolution(serials, manual, now, true);
      serials[p] in now && p in placed && placed[p] == now[serials[p]]
  {
    forall other | other in serials
      ensures serials[other] in Assign(mapping, serials, SLOTS)
    {
      ThreeSerialsAllFit(mapping, serials, other);
    }
    AssignGrows(mapping, serials, SLOTS);
    StableSlotsAreKept(serials, manual, Assign(mapping, serials, SLOTS));
  }

  // ---- storing it

  /** An entry of the stored file: its key, and its value as int() reads it. */
  type Entries = seq<(string, Option<int>)>

  datatype StoredDevice = NotAMap | Stored(entries: Entries)

  datatype File = Missing | Unreadable | Devices(devices: map<string, StoredDevice>)

  type Maps = map<string, SlotMap>

  /** The loader's state: what it has accepted, and the slots that are used up. */
  datatype Loaded = Loaded(clean: SlotMap, used: set<int>)

  function LoadOne(l: Loaded, entry: (string, Option<int>)): Loaded {
    var key := Clean(entry.0);
    if entry.1.Some? && key != "" && IsSlot(entry.1.value) && entry.1.value !in l.used
      then Loaded(l.clean[key := entry.1.value], l.used + {entry.1.value})
    else l
  }

  function LoadEntries(entries: Entries): Loaded {
    if entries == [] then Loaded(map[], {}) else LoadOne(LoadEntries(entries[..|entries| - 1]), entries[|entries| - 1])
  }

  function LoadDevice(d: StoredDevice): SlotMap { if d.Stored? then LoadEntries(d.entries).clean else map[] }

  function Load(file: File): Maps {
    if !file.Devices? then map[] else
    map d | d in file.devices && LoadDevice(file.devices[d]) != map[] :: LoadDevice(file.devices[d])
  }

  method ReadEntries(entries: Entries) returns (clean: SlotMap)
    ensures clean == LoadEntries(entries).clean
  {
    var used: set<int>;
    clean, used := map[], {};
    for i := 0 to |entries|
      invariant Loaded(clean, used) == LoadEntries(entries[..i])
    {
      assert entries[..i + 1][..i] == entries[..i];
      var (serial, slot) := entries[i];
      if slot.Some? {
        var key := Clean(serial);
        if key != "" && IsSlot(slot.value) && slot.value !in used {
          clean, used := clean[key := slot.value], used + {slot.value};
        }
      }
    }
    assert entries[..|entries|] == entries;
  }

  /** Whatever the file holds, the loaded map gives no slot twice. */
  lemma {:induction false} LoadedIsGood(entries: Entries)
    ensures var l := LoadEntries(entries);
      && Good(l.clean) && (forall s :: s in l.clean ==> l.clean[s] in l.used)
      && (forall s :: s in l.clean ==> s != "" && exists i :: 0 <= i < |entries| && Clean(entries[i].0) == s)
    decreases |entries|
  {
    if entries != [] {
      var init := entries[..|entries| - 1];
      LoadedIsGood(init);
      var l, before := LoadEntries(entries), LoadEntries(init);
      forall s | s in l.clean
        ensures s != "" && exists i :: 0 <= i < |entries| && Clean(entries[i].0) == s
      {
        if s in before.clean {
          var i :| 0 <= i < |init| && Clean(init[i].0) == s;
          assert Clean(entries[i].0) == s;
        } else {
          assert Clean(entries[|entries| - 1].0) == s;
        }
      }
    }
  }

  function FirstKeys(entries: Entries, n: nat): set<string>
    requires n <= |entries|
  {
    set i | 0 <= i < n :: entries[i].0
  }

  /** The entries are those of the map, in some order. */
  ghost predicate Lists(entries: Entries, mapping: SlotMap) {
    && (forall i :: 0 <= i < |entries| ==> entries[i].0 in mapping && entries[i].1 == Some(mapping[entries[i].0]))
    && (forall i, j :: 0 <= i < j < |entries| ==> entries[i].0 != entries[j].0)
    && FirstKeys(entries, |entries|) == mapping.Keys
  }

  /** A serial that cleaning leaves alone. */
  predicate IsClean(serial: string) { serial != "" && Clean(serial) == serial }

  ghost predicate AllClean(mapping: SlotMap) { forall s :: s in mapping ==> IsClean(s) }

  lemma {:induction false} PrefixLoads(entries: Entries, mapping: SlotMap, n: nat)
    requires Good(mapping) && AllClean(mapping) && Lists(entries, mapping) && n <= |entries|
    ensures var l := LoadEntries(entries[..n]);
      && l.clean.Keys == FirstKeys(entries, n)
      && (forall s :: s in l.clean ==> s in mapping && l.clean[s] == mapping[s])
      && l.used == SlotsOf(l.clean)
    decreases n
  {
    if n > 0 {
      PrefixLoads(entries, mapping, n - 1);
      assert entries[..n][..n - 1] == entries[..n - 1];
      var before, serial := LoadEntries(entries[..n - 1]), entries[n - 1].0;
      assert serial !in before.clean;
      assert mapping[serial] !in before.used;
      PutSlots(before.clean, serial, mapping[serial]);
      assert FirstKeys(entries, n) == FirstKeys(entries, n - 1) + {serial};
    }
  }

  lemma SameMap<K, V>(a: map<K, V>, b: map<K, V>)
    requires a.Keys == b.Keys && forall k :: k in a ==> a[k] == b[k]
    ensures a == b
  {}

  /** What is stored of a clean map is loaded back, in whatever order it was written. */
  lemma CleanMapReloads(entries: Entries, mapping: SlotMap)
    requires Good(mapping) && AllClean(mapping) && Lists(entries, mapping)
    ensures LoadEntries(entries).clean == mapping
  {
    assert entries[..|entries|] == entries;
    PrefixLoads(entries, mapping, |entries|);
    SameMap(LoadEntries(entries).clean, mapping);
  }
}
