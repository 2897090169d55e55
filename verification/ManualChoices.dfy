/** Slots chosen by hand: the file of choices, its cache, and saving one device's choices. */
module ManualChoices {
  import opened Wire
  import opened SlotKeys
  import opened SlotResolution
  import opened SlotSerials

  /** One device's stored choices by slot name, each as its text. */
  type Raw = map<string, string>

  datatype StoredChoices = NotAMap | Choices(raw: Raw)

  datatype File = Missing | Invalid | Devices(devices: map<string, StoredChoices>)

  type Maps = map<string, BySlot>

  function SlotName(slot: int): string
    requires IsSlot(slot)
  {
    [Digit(slot)]
  }

  function ChoiceAt(raw: Raw, slot: int): string
    requires IsSlot(slot)
  {
    Trim(if SlotName(slot) in raw then raw[SlotName(slot)] else AUTO)
  }

  predicate Acceptable(choice: string) { IsExplicit(choice) ==> Plausible(choice) }

  /** Every choice is acceptable and no battery is chosen twice. */
  predicate Consistent(choices: BySlot) {
    && (forall slot :: slot in choices ==> Acceptable(choices[slot]))
    && (forall s, t :: s in choices && t in choices && s != t && IsExplicit(choices[s]) ==> choices[s] != choices[t])
  }

  function AllChoices(raw: Raw): BySlot { map slot | slot in {2, 3, 4} :: ChoiceAt(raw, slot) }

  /** The choices for the first n slots. */
  function FirstChoices(raw: Raw, n: nat): BySlot
    requires n <= |SLOTS|
  {
    if n == 0 then map[] else FirstChoices(raw, n - 1)[SLOTS[n - 1] := ChoiceAt(raw, SLOTS[n - 1])]
  }

  ghost predicate PartOf(part: BySlot, whole: BySlot) {
    forall s :: s in part ==> s in whole && whole[s] == part[s]
  }

  lemma {:induction false} FirstArePart(raw: Raw, n: nat)
    requires n <= |SLOTS|
    ensures PartOf(FirstChoices(raw, n), AllChoices(raw)) && forall s :: s in FirstChoices(raw, n) <==> s in SLOTS[..n]
  {
    if n > 0 {
      FirstArePart(raw, n - 1);
      assert SLOTS[..n] == SLOTS[..n - 1] + [SLOTS[n - 1]];
    }
  }

  lemma FirstAreAll(raw: Raw)
    ensures FirstChoices(raw, |SLOTS|) == AllChoices(raw)
  {
    FirstArePart(raw, |SLOTS|);
    assert SLOTS[..|SLOTS|] == SLOTS;
    forall slot | slot in {2, 3, 4}
      ensures slot in SLOTS
    {
      assert SLOTS[slot - 2] == slot;
    }
  }

  lemma PartOfConsistent(part: BySlot, whole: BySlot)
    requires Consistent(whole) && PartOf(part, whole)
    ensures Consistent(part)
  {}

  lemma NextSlotIsNew(raw: Raw, n: nat)
    requires n < |SLOTS|
    ensures SLOTS[n] !in FirstChoices(raw, n)
  {
    FirstArePart(raw, n);
  }

  lemma InconsistentStart(raw: Raw, n: nat)
    requires n <= |SLOTS| && !Consistent(FirstChoices(raw, n))
    ensures !Consistent(AllChoices(raw))
  {
    FirstArePart(raw, n);
    if Consistent(AllChoices(raw)) {
      PartOfConsistent(FirstChoices(raw, n), AllChoices(raw));
    }
  }

  /** The explicit choices met so far. */
  ghost predicate Collected(explicit: set<string>, choices: BySlot) {
    && (forall s :: s in choices && IsExplicit(choices[s]) ==> choices[s] in explicit)
    && (forall c :: c in explicit ==> IsExplicit(c) && exists s :: s in choices && choices[s] == c)
  }

  lemma ConsistentStep(choices: BySlot, slot: int, choice: string, explicit: set<string>)
    requires slot !in choices && Consistent(choices) && Collected(explicit, choices)
    ensures Consistent(choices[slot := choice]) <==> Acceptable(choice) && choice !in explicit
  {
    var next := choices[slot := choice];
    if choice in explicit {
      var s :| s in choices && choices[s] == choice;
      assert next[s] == next[slot];
    } else if Consistent(next) {
      assert Acceptable(next[slot]);
    }
  }

  lemma CollectedStep(choices: BySlot, slot: int, choice: string, explicit: set<string>)
    requires slot !in choices && Collected(explicit, choices)
    ensures Collected(if IsExplicit(choice) then explicit + {choice} else explicit, choices[slot := choice])
  {
    var next := choices[slot := choice];
    assert next[slot] == choice;
    forall c | c in explicit
      ensures exists s :: s in next && next[s] == c
    {
      var s :| s in choices && choices[s] == c;
      assert next[s] == c;
    }
  }

  /** The choices for the first n slots have been read and are consistent. */
  ghost predicate HasRead(raw: Raw, n: nat, clean: BySlot, explicit: set<string>) {
    n <= |SLOTS| && clean == FirstChoices(raw, n) && Consistent(clean) && Collected(explicit, clean)
  }

  lemma ReadNext(raw: Raw, n: nat, clean: BySlot, explicit: set<string>)
    requires n < |SLOTS| && HasRead(raw, n, clean, explicit)
    ensures var slot, choice := SLOTS[n], ChoiceAt(raw, SLOTS[n]);
      if Acceptable(choice) && choice !in explicit
        then HasRead(raw, n + 1, clean[slot := choice], if IsExplicit(choice) then explicit + {choice} else explicit)
      else !Consistent(AllChoices(raw))
  {
    var slot, choice := SLOTS[n], ChoiceAt(raw, SLOTS[n]);
    NextSlotIsNew(raw, n);
    ConsistentStep(clean, slot, choice, explicit);
    CollectedStep(clean, slot, choice, explicit);
    assert clean[slot := choice] == FirstChoices(raw, n + 1);
    if !(Acceptable(choice) && choice !in explicit) {
      InconsistentStart(raw, n + 1);
    }
  }

  /** The validation loop that loading and saving share. */
  method ReadChoices(raw: Raw) returns (choices: Option<BySlot>)
    ensures choices == if Consistent(AllChoices(raw)) then Some(AllChoices(raw)) else None
  {
    var clean: BySlot, explicit: set<string> := map[], {};
    for i := 0 to |SLOTS|
      invariant HasRead(raw, i, clean, explicit)
    {
      var slot := SLOTS[i];
      var choice := ChoiceAt(raw, slot);
      ReadNext(raw, i, clean, explicit);
      if choice == AUTO || choice == EMPTY {
        assert choice !in explicit;
        clean := clean[slot := choice];
        continue;
      }
      if !Plausible(choice) || choice in explicit {
        return None;
      }
      explicit := explicit + {choice};
      clean := clean[slot := choice];
    }
    FirstAreAll(raw);
    return Some(clean);
  }

  function LoadChoices(stored: StoredChoices): Option<BySlot> {
    if stored.Choices? && Consistent(AllChoices(stored.raw)) then Some(AllChoices(stored.raw)) else None
  }

  function Load(file: File): Maps {
    if !file.Devices? then map[] else
    map d | d in file.devices && LoadChoices(file.devices[d]).Some? :: LoadChoices(file.devices[d]).value
  }

  function AsRaw(choices: BySlot): Raw {
    map name | name in {"2", "3", "4"} && SlotOf(name[0]) in choices :: choices[SlotOf(name[0])]
  }

  function Written(maps: Maps): File { Devices(map d | d in maps :: Choices(AsRaw(maps[d]))) }

  /** What loading yields: a choice for each slot, consistent and trimmed. */
  ghost predicate WellChosen(choices: BySlot) {
    choices.Keys == {2, 3, 4} && Consistent(choices) && forall slot :: slot in choices ==>
      Trim(choices[slot]) == choices[slot]
  }

  ghost predicate AllWellChosen(maps: Maps) { forall d :: d in maps ==> WellChosen(maps[d]) }

  lemma AcceptableIsTrimmed(choice: string)
    requires Acceptable(choice)
    ensures Trim(choice) == choice
  {
    if IsExplicit(choice) {
      assert !IsSpace(choice[0]) && !IsSpace(choice[|choice| - 1]);
    } else {
      assert AUTO[0] == '_' && AUTO[|AUTO| - 1] == '_' && EMPTY[0] == '_' && EMPTY[|EMPTY| - 1] == '_';
    }
  }

  lemma {:induction false} ConsistentIsWellChosen(raw: Raw)
    requires Consistent(AllChoices(raw))
    ensures WellChosen(AllChoices(raw))
  {
    var choices := AllChoices(raw);
    forall slot | slot in choices
      ensures Trim(choices[slot]) == choices[slot]
    {
      AcceptableIsTrimmed(choices[slot]);
    }
  }

  lemma {:induction false} LoadedAreWellChosen(file: File)
    ensures AllWellChosen(Load(file))
  {
    forall d | d in Load(file)
      ensures WellChosen(Load(file)[d])
    {
      ConsistentIsWellChosen(file.devices[d].raw);
    }
  }

  lemma {:induction false} RawReadsSlot(choices: BySlot, slot: int)
    requires WellChosen(choices) && slot in choices
    ensures ChoiceAt(AsRaw(choices), slot) == choices[slot]
  {
    var name := SlotName(slot);
    assert name == "2" || name == "3" || name == "4";
    assert SlotOf(name[0]) == slot;
  }

  /** Storing these choices and loading them gives them back. */
  ghost predicate ReadsBack(choices: BySlot) { LoadChoices(Choices(AsRaw(choices))) == Some(choices) }

  lemma AllChoicesAre(raw: Raw, choices: BySlot)
    requires choices.Keys == {2, 3, 4}
    requires ChoiceAt(raw, 2) == choices[2] && ChoiceAt(raw, 3) == choices[3] && ChoiceAt(raw, 4) == choices[4]
    ensures AllChoices(raw) == choices
  {}

  lemma RawReadsBack(choices: BySlot)
    requires WellChosen(choices)
    ensures ReadsBack(choices)
  {
    RawReadsSlot(choices, 2);
    RawReadsSlot(choices, 3);
    RawReadsSlot(choices, 4);
    AllChoicesAre(AsRaw(choices), choices);
  }

  /** Choices that were written are the choices that are loaded. */
  lemma {:induction false} WrittenLoads(maps: Maps)
    requires AllWellChosen(maps)
    ensures Load(Written(maps)) == maps
  {
    forall d | d in maps
      ensures ReadsBack(maps[d])
    {
      RawReadsBack(maps[d]);
    }
    ReadBackLoads(maps);
  }

  lemma ReadBackLoads(maps: Maps)
    requires forall d :: d in maps ==> ReadsBack(maps[d])
    ensures Load(Written(maps)) == maps
  {
    var loaded := Load(Written(maps));
    forall d
      ensures d in loaded <==> d in maps
      ensures d in maps ==> loaded[d] == maps[d]
    {
      assert d in maps ==> ReadsBack(maps[d]);
    }
  }

  /** A device without any choice is not stored at all. */
  function Changed(maps: Maps, device: string, choices: BySlot): Maps {
    if AllAutomatic(choices) then maps - {device} else maps[device := choices]
  }

  /** The device's entry becomes its choices, or disappears where they leave everything automatic; no other device's
      entry changes. */
  lemma ChangedIs(maps: Maps, device: string, choices: BySlot, other: string)
    ensures Lookup(Changed(maps, device, choices), device) ==
      if forall slot :: slot in choices ==> choices[slot] == "__auto__" then None else Some(choices)
    ensures other != device ==> Lookup(Changed(maps, device, choices), other) == Lookup(maps, other)
  {}

  /** The choices of a device as stored: the trimmed text under each slot's name, automatic where there is none. */
  lemma ChoicesAre(raw: Raw)
    ensures AllChoices(raw) == map[
      2 := Trim(if "2" in raw then raw["2"] else "__auto__"),
      3 := Trim(if "3" in raw then raw["3"] else "__auto__"),
      4 := Trim(if "4" in raw then raw["4"] else "__auto__")]
  {
    SlotNames();
    AllChoicesAre(raw, map[2 := ChoiceAt(raw, 2), 3 := ChoiceAt(raw, 3), 4 := ChoiceAt(raw, 4)]);
  }

  lemma SlotNames()
    ensures SlotName(2) == "2" && SlotName(3) == "3" && SlotName(4) == "4"
  {}

  ghost predicate MayStand(choice: string) { choice == "__auto__" || choice == "__empty__" || Plausible(choice) }

  ghost predicate MayStandTogether(a: string, b: string) { a != b || a == "__auto__" || a == "__empty__" }

  /** Choices are accepted exactly when each is automatic, empty or a plausible serial and no serial is chosen twice. */
  lemma ConsistentIff(a: string, b: string, c: string)
    ensures Consistent(map[2 := a, 3 := b, 4 := c]) <==>
      && MayStand(a) && MayStand(b) && MayStand(c)
      && MayStandTogether(a, b) && MayStandTogether(a, c) && MayStandTogether(b, c)
  {
    var choices := map[2 := a, 3 := b, 4 := c];
    assert choices[2] == a && choices[3] == b && choices[4] == c;
  }

  datatype Outcome = Saved | BadDevice | BadChoices | ReadFailed | WriteFailed

  /** Cached choices are read again unless their signature is the one that os.stat gives now. */
  predicate Refreshes(cached: Option<Maps>, signature: Option<nat>, now: Option<nat>)
  {
    cached.None? || signature != now
  }

  class Chooser {
    var disk: File
    /** What os.stat tells about the file: another number after every write. */
    var stamp: nat
    var cached: Option<Maps>
    /** The signature that came with the cached choices, None where os.stat gave none. */
    var signature: Option<nat>
    /** Whether the cached choices came without a signature although there may have been a file: os.stat had failed. */
    ghost var unsigned: bool

    /** os.stat: the signature, or None when the call fails, as it does for a missing file. */
    function Stat(works: bool): Option<nat>
      reads this
    {
      if works && !disk.Missing? then Some(stamp) else None
    }

    ghost predicate Valid()
      reads this
    {
      && (signature.Some? ==> signature.value <= stamp)
      && (cached.Some? && signature.None? && !unsigned ==> cached.value == map[])
      && (cached.Some? && signature == Some(stamp) && !disk.Missing? ==> cached.value == Load(disk))
      && (cached.Some? ==> AllWellChosen(cached.value))
    }

    constructor (disk: File)
      ensures Valid() && cached == None && this.disk == disk && !unsigned
    {
      this.disk, stamp, cached, signature, unsigned := disk, 0, None, None, false;
    }

    /** Another process replaces, damages or removes the file. */
    method Replace(file: File)
      requires Valid()
      modifies this`disk, this`stamp
      ensures Valid() && disk == file
    {
      disk, stamp := file, stamp + 1;
    }

    /** The choices in force: cached ones of the same signature, else those in the file,
        else, while it cannot be read, the last ones read. */
    method Positions(statOk: bool, readOk: bool) returns (maps: Maps)
      requires Valid()
      modifies this`cached, this`signature, this`unsigned
      ensures Valid() && AllWellChosen(maps)
      ensures maps ==
        if old(cached).Some? && old(signature) == Stat(statOk) then old(cached).value
        else if readOk || disk.Missing? then Load(disk)
        else if old(cached).Some? then old(cached).value else map[]
      ensures Refreshes(old(cached), old(signature), Stat(statOk)) && (readOk || disk.Missing?) ==>
        cached == Some(maps) && signature == Stat(statOk) && unsigned == !statOk
      ensures !(Refreshes(old(cached), old(signature), Stat(statOk)) && (readOk || disk.Missing?)) ==>
        cached == old(cached) && signature == old(signature) && unsigned == old(unsigned)
      ensures maps == Load(disk) <==>
        || (Refreshes(old(cached), old(signature), Stat(statOk)) && (readOk || disk.Missing?))
        || (!Refreshes(old(cached), old(signature), Stat(statOk)) && statOk && (!disk.Missing? || !old(unsigned)))
        || Load(disk) == if old(cached).Some? then old(cached).value else map[]
    {
      var now := Stat(statOk);
      if Refreshes(cached, signature, now) {
        if !readOk && !disk.Missing? {
          return if cached.Some? then cached.value else map[];
        }
        LoadedAreWellChosen(disk);
        cached, signature, unsigned := Some(Load(disk)), now, !statOk;
      }
      return cached.value;
    }

    /** While os.stat fails, choices are read once and then not again: whatever replaces the file, the first ones stay
        in force. */
    method ReadBlindly(replacement: File) returns (first: Maps, second: Maps)
      requires Valid() && cached == None
      modifies this
      ensures Valid() && disk == replacement
      ensures first == second == Load(old(disk))
    {
      first := Positions(false, true);
      Replace(replacement);
      second := Positions(false, true);
    }

    /** Save one device's choices. Nothing is written unless everything was read. */
    method Save(device: string, assignments: Raw, readOk: bool, writeOk: bool) returns (r: Outcome)
      requires Valid()
      modifies this`disk, this`stamp
      ensures Valid()
      ensures r == BadDevice <==> Trim(device) == ""
      ensures r == BadChoices <==> Trim(device) != "" && !Consistent(AllChoices(assignments))
      ensures r == ReadFailed <==>
        Trim(device) != "" && Consistent(AllChoices(assignments)) && !readOk && !old(disk).Missing?
      ensures r == Saved ==> writeOk && Load(disk) == Changed(Load(old(disk)), Trim(device), AllChoices(assignments))
      ensures r == Saved ==> forall other :: other != Trim(device) ==>
        Lookup(Load(disk), other) == Lookup(Load(old(disk)), other)
      ensures r != Saved ==> disk == old(disk) && stamp == old(stamp)
      ensures r == WriteFailed ==> !writeOk
    {
      var name := Trim(device);
      if name == "" {
        return BadDevice;
      }
      var choices := ReadChoices(assignments);
      if choices.None? {
        return BadChoices;
      }
      if !readOk && !disk.Missing? {
        return ReadFailed;
      }
      if !writeOk {
        return WriteFailed;
      }
      var maps := Changed(Load(disk), name, choices.value);
      ChangedIsWellChosen(disk, name, assignments);
      WrittenLoads(maps);
      disk, stamp := Written(maps), stamp + 1;
      return Saved;
    }
  }

  lemma {:induction false} ChangedIsWellChosen(file: File, device: string, assignments: Raw)
    requires Consistent(AllChoices(assignments))
    ensures AllWellChosen(Changed(Load(file), device, AllChoices(assignments)))
  {
    LoadedAreWellChosen(file);
    ConsistentIsWellChosen(assignments);
  }

  lemma OnlyChosenSlot(choices: BySlot, slot: int)
    requires OnSlots(choices) && Consistent(choices) && slot in choices && IsExplicit(choices[slot])
    ensures ExplicitSlot(choices, choices[slot]) == Some(slot)
  {
    assert Chooses(choices, slot, choices[slot]);
  }

  /** A chosen battery that is reported goes to its chosen slot, alone, whatever else is reported and remembered. */
  lemma ChoiceIsHonoured(choices: BySlot, slot: int, serials: BySlot, mapping: SlotMap, stable: bool, p: int)
    requires WellChosen(choices) && slot in choices && IsExplicit(choices[slot])
    requires OnSlots(serials) && MapsToSlots(mapping) && Injective(serials)
    requires p in serials && serials[p] == choices[slot]
    ensures var placed := Resolution(serials, choices, mapping, stable);
      p in placed && placed[p] == slot && forall q :: q in placed && q != p ==> placed[q] != slot
  {
    WellChosenParts(choices);
    OnlyChosenSlot(choices, slot);
    PlacedAlone(choices, slot, serials, mapping, stable, p);
  }

  lemma WellChosenParts(choices: BySlot)
    requires WellChosen(choices)
    ensures OnSlots(choices) && Consistent(choices)
  {}

  lemma PlacedAlone(choices: BySlot, slot: int, serials: BySlot, mapping: SlotMap, stable: bool, p: int)
    requires OnSlots(serials) && MapsToSlots(mapping) && Injective(serials)
    requires p in serials && ExplicitSlot(choices, serials[p]) == Some(slot)
    ensures var placed := Resolution(serials, choices, mapping, stable);
      p in placed && placed[p] == slot && forall q :: q in placed && q != p ==> placed[q] != slot
  {
    ChosenIsPlaced(choices, serials, mapping, stable, p);
    DistinctShareNothing(choices, serials, mapping, stable);
  }

  lemma DistinctShareNothing(choices: BySlot, serials: BySlot, mapping: SlotMap, stable: bool)
    requires OnSlots(serials) && MapsToSlots(mapping) && Injective(serials)
    ensures NoSharedSlot(Resolution(serials, choices, mapping, stable))
  {
    NoSharedSlotIff(serials, choices, mapping, stable);
  }

  lemma ChosenIsPlaced(choices: BySlot, serials: BySlot, mapping: SlotMap, stable: bool, p: int)
    requires OnSlots(serials) && MapsToSlots(mapping) && p in serials && ExplicitSlot(choices, serials[p]).Some?
    ensures var placed := Resolution(serials, choices, mapping, stable);
      p in placed && placed[p] == ExplicitSlot(choices, serials[p]).value
  {
    ResolutionIsSound(serials, choices, mapping, stable);
  }

  /** A slot that is kept empty stays empty. */
  lemma EmptySlotStaysEmpty(choices: BySlot, slot: int, serials: BySlot, mapping: SlotMap, stable: bool)
    requires slot in choices && choices[slot] == EMPTY
    requires OnSlots(serials) && MapsToSlots(mapping)
    ensures slot !in Taken(Resolution(serials, choices, mapping, stable))
  {
    ResolutionIsSound(serials, choices, mapping, stable);
    var placed := Resolution(serials, choices, mapping, stable);
    forall p | p in placed
      ensures placed[p] != slot
    {
      if ExplicitSlot(choices, serials[p]).None? {
        assert !(placed[p] in choices && choices[placed[p]] != AUTO);
      }
    }
  }
}
