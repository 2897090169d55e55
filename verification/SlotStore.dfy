/** The persistence protocol around the stable slots: lazy reads, a dirty flag, and writes that may fail. */
module SlotStore {
  import opened Wire
  import opened SlotKeys
  import opened SlotResolution
  import opened SlotSerials
  import opened SlotHistory

  // ---- when a stored map reloads

  lemma TrimShortens(s: string)
    ensures TrimRight(s) == s || |TrimRight(s)| < |s|
    ensures TrimLeft(s) == s || |TrimLeft(s)| < |s|
  {}

  lemma StripShortens(s: string)
    ensures RStrip(s, '\0') == s || |RStrip(s, '\0')| < |s|
    ensures LStrip(s, '\0') == s || |LStrip(s, '\0')| < |s|
  {}

  lemma CleanShortens(s: string)
    ensures Clean(s) == s || |Clean(s)| < |s|
  {
    TrimShortens(s);
    TrimShortens(TrimRight(s));
    var t := Trim(s);
    StripShortens(t);
    StripShortens(RStrip(t, '\0'));
    var u := Strip(t, '\0');
    TrimShortens(u);
    TrimShortens(TrimRight(u));
  }

  function KeyRoom(entries: Entries): nat {
    if entries == [] then 0 else KeyRoom(entries[..|entries| - 1]) + |entries[|entries| - 1].0|
  }

  lemma {:induction false} KeysFit(entries: Entries, i: nat)
    requires i < |entries|
    ensures |entries[i].0| <= KeyRoom(entries)
  {
    if i < |entries| - 1 {
      KeysFit(entries[..|entries| - 1], i);
    }
  }

  /** In a map that reloads, a serial that cleaning would change needs a longer one of the same kind: there is none. */
  lemma {:induction false} ReloadedKeysAreClean(entries: Entries, mapping: SlotMap, s: string)
    requires Lists(entries, mapping) && LoadEntries(entries).clean == mapping && s in mapping
    ensures IsClean(s)
    decreases KeyRoom(entries) - |s|
  {
    var longer := SourceOf(entries, s);
    if longer != s {
      ReloadedKeysAreClean(entries, mapping, longer);
    }
  }

  /** The stored key behind a loaded one: the same, or a longer one. */
  lemma {:induction false} SourceOf(entries: Entries, s: string) returns (key: string)
    requires s in LoadEntries(entries).clean
    ensures s != "" && Clean(key) == s && (key == s || |key| > |s|)
    ensures key in FirstKeys(entries, |entries|) && |key| <= KeyRoom(entries)
  {
    LoadedIsGood(entries);
    var i :| 0 <= i < |entries| && Clean(entries[i].0) == s;
    key := entries[i].0;
    KeysFit(entries, i);
    CleanShortens(key);
  }

  predicate IsBlank(c: char) { IsSpace(c) || c == '\0' }

  /** A text that neither begins nor ends with white space or NUL. */
  predicate HasCleanEnds(s: string) { s != "" && !IsBlank(s[0]) && !IsBlank(s[|s| - 1]) }

  lemma TrimEndsKeepIff(s: string)
    ensures TrimRight(s) == s <==> s == "" || !IsSpace(s[|s| - 1])
    ensures TrimLeft(s) == s <==> s == "" || !IsSpace(s[0])
  {
    if s != "" {
      TrimShortens(s[..|s| - 1]);
      TrimShortens(s[1..]);
    }
  }

  lemma TrimKeepsIff(s: string)
    ensures Trim(s) == s <==> s == "" || (!IsSpace(s[0]) && !IsSpace(s[|s| - 1]))
  {
    TrimShortens(s);
    TrimShortens(TrimRight(s));
    TrimEndsKeepIff(s);
  }

  lemma CleanKeepsIff(s: string)
    ensures IsClean(s) <==> HasCleanEnds(s)
  {
    TrimKeepsIff(s);
    StripUnchangedIff(s, '\0');
    if IsClean(s) {
      TrimShortens(s);
      TrimShortens(TrimRight(s));
      var t := Trim(s);
      StripShortens(t);
      StripShortens(RStrip(t, '\0'));
      TrimShortens(Strip(t, '\0'));
      TrimShortens(TrimRight(Strip(t, '\0')));
    }
  }

  /** A stored map comes back from the file exactly when none of its serials begins or ends with white space or NUL. */
  lemma ReloadsIff(entries: Entries, mapping: SlotMap)
    requires Good(mapping) && Lists(entries, mapping)
    ensures LoadEntries(entries).clean == mapping <==> forall s :: s in mapping ==> HasCleanEnds(s)
  {
    ReloadsCleanIff(entries, mapping);
    forall s | s in mapping
      ensures IsClean(s) <==> HasCleanEnds(s)
    {
      CleanKeepsIff(s);
    }
  }

  lemma ReloadsCleanIff(entries: Entries, mapping: SlotMap)
    requires Good(mapping) && Lists(entries, mapping)
    ensures LoadEntries(entries).clean == mapping <==> AllClean(mapping)
  {
    if AllClean(mapping) {
      CleanMapReloads(entries, mapping);
    }
    if LoadEntries(entries).clean == mapping {
      forall s | s in mapping
        ensures IsClean(s)
      {
        ReloadedKeysAreClean(entries, mapping, s);
      }
    }
  }

  /** Cleaning is not idempotent. */
  lemma CleaningCanChangeTwice()
    ensures Clean("\0 \0a") == "\0a" && Clean("\0a") == "a"
  {
    var s := "\0 \0a";
    assert s[1..] == " \0a" && s[1..][1..] == "\0a" && "\0a"[1..] == "a";
    assert TrimRight(s) == s && Trim(s) == s && RStrip(s, '\0') == s;
    assert LStrip(s, '\0') == " \0a";
    assert TrimRight(" \0a") == " \0a" && TrimLeft(" \0a") == " \0a"[1..] == "\0a";
  }

  /** So a hand-written file can hold a serial that changes with two loads: what the first one gives is, once saved,
      loaded as something else again. */
  lemma TwoLoadsDiffer(saved: Entries)
    requires Lists(saved, LoadEntries([("\0 \0a", Some(2))]).clean)
    ensures LoadEntries([("\0 \0a", Some(2))]).clean == map["\0a" := 2]
    ensures LoadEntries(saved).clean == map["a" := 2]
  {
    CleaningCanChangeTwice();
    var written: Entries := [("\0 \0a", Some(2))];
    assert written[..0] == [];
    assert LoadEntries(written).clean == map["\0a" := 2];
    OneEntry(saved, "\0a", 2);
    assert saved[..0] == [];
  }

  lemma FirstTwoDiffer(entries: Entries, mapping: SlotMap)
    requires Lists(entries, mapping) && |entries| > 1
    ensures entries[0].0 != entries[1].0 && entries[0].0 in mapping && entries[1].0 in mapping
  {}

  lemma OneEntry(entries: Entries, s: string, slot: int)
    requires Lists(entries, map[s := slot])
    ensures entries == [(s, Some(slot))]
  {
    assert s in FirstKeys(entries, |entries|);
    if |entries| > 1 {
      FirstTwoDiffer(entries, map[s := slot]);
    }
  }

  /** Every serial that telemetry can report is clean. */
  lemma PlausibleIsClean(serial: string)
    requires Plausible(serial)
    ensures IsClean(serial)
  {
    assert !IsSpace(serial[0]) && !IsSpace(serial[|serial| - 1]);
    assert serial[0] != '\0' && serial[|serial| - 1] != '\0';
  }

  // ---- files

  /** A file that holds exactly these maps, each written in some order. */
  ghost predicate Saves(file: File, maps: Maps) {
    file.Devices? && file.devices.Keys == maps.Keys
    && forall d :: d in maps ==> file.devices[d].Stored? && Lists(file.devices[d].entries, maps[d])
  }

  method WriteEntries(mapping: SlotMap) returns (entries: Entries)
    ensures Lists(entries, mapping)
  {
    entries := [];
    var done: SlotMap, todo := map[], mapping.Keys;
    while todo != {}
      invariant todo <= mapping.Keys && Lists(entries, done)
      invariant done.Keys == mapping.Keys - todo && forall s :: s in done ==> done[s] == mapping[s]
      decreases todo
    {
      var s :| s in todo;
      ghost var longer := done[s := mapping[s]];
      assert longer - {s} == done;
      ListsExtends(entries, longer, s);
      entries, done, todo := entries + [(s, Some(mapping[s]))], done[s := mapping[s]], todo - {s};
    }
    SameMap(done, mapping);
  }

  method WriteFile(maps: Maps) returns (file: File)
    ensures Saves(file, maps)
  {
    var devices: map<string, StoredDevice>, todo := map[], maps.Keys;
    while todo != {}
      invariant todo <= maps.Keys && devices.Keys == maps.Keys - todo
      invariant forall d :: d in devices ==> devices[d].Stored? && Lists(devices[d].entries, maps[d])
      decreases todo
    {
      var d :| d in todo;
      var entries := WriteEntries(maps[d]);
      devices, todo := devices[d := Stored(entries)], todo - {d};
    }
    return Devices(devices);
  }

  lemma FirstKeysExtends(rest: Entries, entry: (string, Option<int>))
    ensures FirstKeys(rest + [entry], |rest| + 1) == FirstKeys(rest, |rest|) + {entry.0}
  {
    var entries, n := rest + [entry], |rest|;
    forall k | k in FirstKeys(rest, n) + {entry.0}
      ensures k in FirstKeys(entries, n + 1)
    {
      if k in FirstKeys(rest, n) {
        var i :| 0 <= i < n && rest[i].0 == k;
        assert entries[i].0 == k;
      } else {
        assert entries[n].0 == k;
      }
    }
  }

  lemma ListsExtends(rest: Entries, mapping: SlotMap, s: string)
    requires s in mapping && Lists(rest, mapping - {s})
    ensures Lists(rest + [(s, Some(mapping[s]))], mapping)
  {
    var entries := rest + [(s, Some(mapping[s]))];
    FirstKeysExtends(rest, (s, Some(mapping[s])));
    assert FirstKeys(entries, |entries|) == (mapping - {s}).Keys + {s} == mapping.Keys;
    assert forall i :: 0 <= i < |rest| ==> entries[i] == rest[i] && rest[i].0 in mapping - {s};
  }

  function NonEmpty(maps: Maps): Maps { map d | d in maps && maps[d] != map[] :: maps[d] }

  ghost predicate AllGood(maps: Maps) { forall d :: d in maps ==> Good(maps[d]) }

  /** A file whose serials cleaning leaves alone, as every file is that this code has written. */
  ghost predicate CleanFile(file: File) { forall d :: d in Load(file) ==> AllClean(Load(file)[d]) }

  ghost predicate AllSound(maps: Maps) { forall d :: d in maps ==> Good(maps[d]) && AllClean(maps[d]) }

  /** Loading what was saved gives back everything but empty entries. */
  lemma {:induction false} SaveLoad(file: File, maps: Maps)
    requires AllSound(maps) && Saves(file, maps)
    ensures Load(file) == NonEmpty(maps)
  {
    forall d | d in maps
      ensures LoadDevice(file.devices[d]) == maps[d]
    {
      CleanMapReloads(file.devices[d].entries, maps[d]);
    }
    SameMap(Load(file), NonEmpty(maps));
  }

  /** Every assignment of the one is an assignment of the other. */
  ghost predicate Within(a: Maps, b: Maps) { forall d :: d in a ==> d in b && Grows(a[d], b[d]) }

  lemma WithinChain(a: Maps, b: Maps, c: Maps)
    requires Within(a, b) && Within(b, c)
    ensures Within(a, c)
  {
    forall d | d in a
      ensures d in c && Grows(a[d], c[d])
    {
      assert Grows(a[d], b[d]) && Grows(b[d], c[d]);
    }
  }

  lemma WithinSelf(a: Maps)
    ensures Within(a, a)
  {}

  function MapOf(maps: Maps, device: string): SlotMap { if device in maps then maps[device] else map[] }

  lemma NonEmptyKeepsHistory(history: Maps, maps: Maps)
    requires Within(history, maps) && forall d :: d in history ==> history[d] != map[]
    ensures Within(history, NonEmpty(maps)) && Within(NonEmpty(maps), maps)
  {
    forall d | d in history
      ensures d in NonEmpty(maps) && Grows(history[d], NonEmpty(maps)[d])
    {
      assert Grows(history[d], maps[d]);
      var s :| s in history[d];
      assert s in maps[d];
    }
  }

  /** A successful save keeps what was on disk, and what is then on disk is what is in memory. */
  lemma {:induction false} SaveKeepsHistory(before: File, after: File, maps: Maps)
    requires AllSound(maps) && Within(Load(before), maps) && Saves(after, maps)
    ensures Load(after) == NonEmpty(maps) && Within(Load(before), Load(after)) && Within(Load(after), maps)
    ensures forall d :: d in Load(after) ==> AllClean(Load(after)[d])
  {
    SaveLoad(after, maps);
    assert forall d :: d in Load(before) ==> Load(before)[d] != map[];
    NonEmptyKeepsHistory(Load(before), maps);
  }

  /** Putting a grown map back. */
  lemma PutGrows(was: Maps, device: string, mapping: SlotMap)
    requires AllGood(was) && Good(mapping) && Grows(MapOf(was, device), mapping)
    ensures AllGood(was[device := mapping]) && Within(was, was[device := mapping])
  {}

  lemma PutStaysSound(was: Maps, device: string, mapping: SlotMap)
    requires AllSound(was) && Good(mapping) && AllClean(mapping)
    ensures AllSound(was[device := mapping])
  {}

  lemma NonEmptyIsAll(maps: Maps)
    requires forall d :: d in maps ==> maps[d] != map[]
    ensures NonEmpty(maps) == maps
  {}

  /** An unchanged map, present or empty, makes no difference to what is worth saving. */
  lemma PutSameIsSilent(was: Maps, device: string)
    ensures NonEmpty(was[device := MapOf(was, device)]) == NonEmpty(was)
  {
    if device in was {
      assert was[device := MapOf(was, device)] == was;
    } else {
      SameMap(NonEmpty(was), NonEmpty(was[device := map[]]));
    }
  }

  datatype Event =
    | Packet(device: string, serials: BySlot, hasManual: bool, stable: bool, readOk: bool, writeOk: bool)
    | Restarted

  /** Serials as telemetry reports them. */
  ghost predicate Reported(serials: BySlot) { OnSlots(serials) && forall p :: p in serials ==> IsClean(serials[p]) }

  /** Assigning slots to clean serials adds clean serials only. */
  lemma AssignStaysClean(mapping: SlotMap, serials: BySlot)
    requires Good(mapping) && Reported(serials)
    ensures AllClean(mapping) ==> AllClean(Assign(mapping, serials, SLOTS))
  {
    AssignGrows(mapping, serials, SLOTS);
  }

  class Store {
    /** None until the file has been read. */
    var memory: Option<Maps>
    var dirty: bool
    var disk: File

    /** Whatever the file held: memory gives no slot twice, and nothing is unsaved before anything was read. */
    ghost predicate Valid()
      reads this
    {
      && (memory.None? ==> !dirty)
      && (memory.Some? ==> AllGood(memory.value))
    }

    /** With clean serials everywhere, what is on disk is in memory, and is all of it unless there is something to
        save. */
    ghost predicate Mirrored()
      reads this
    {
      CleanFile(disk) && (memory.Some? ==> Savable(dirty))
    }

    ghost predicate Savable(unsaved: bool)
      requires memory.Some?
      reads this
    {
      && AllSound(memory.value) && Within(Load(disk), memory.value)
      && (!unsaved ==> Load(disk) == NonEmpty(memory.value))
    }

    /** A new client beside an existing file. */
    constructor (file: File)
      ensures Valid() && disk == file && memory == None
      ensures CleanFile(file) ==> Mirrored()
    {
      memory, dirty, disk := None, false, file;
    }

    /** Read the file the first time it is needed; a failed read is not remembered as an empty history. */
    method Positions(readOk: bool) returns (ok: bool)
      requires Valid()
      modifies this`memory
      ensures Valid() && (ok <==> memory.Some?)
      ensures old(memory).Some? ==> memory == old(memory)
      ensures old(memory).None? ==> memory == if readOk then Some(Load(disk)) else None
      ensures old(Mirrored()) ==> Mirrored()
    {
      if memory.None? && readOk {
        forall d | d in Load(disk)
          ensures Good(Load(disk)[d]) && Load(disk)[d] != map[]
        {
          LoadedIsGood(disk.devices[d].entries);
        }
        NonEmptyIsAll(Load(disk));
        memory := Some(Load(disk));
      }
      ok := memory.Some?;
    }

    /** Save everything if something changed now or an earlier save failed. */
    method Persist(changed: bool, writeOk: bool)
      requires Valid() && memory.Some?
      modifies this`dirty, this`disk
      ensures Valid()
      ensures !old(dirty) && !changed ==> disk == old(disk) && !dirty
      ensures old(dirty) || changed ==>
        dirty == !writeOk && if writeOk then Saves(disk, memory.value) else disk == old(disk)
      ensures old(CleanFile(disk) && Savable(dirty || changed)) ==> Mirrored() && Within(Load(old(disk)), Load(disk))
    {
      if changed || dirty {
        dirty := true;
        if writeOk {
          disk := WriteFile(memory.value);
          if old(CleanFile(disk) && Savable(dirty || changed)) {
            SaveKeepsHistory(old(disk), disk, memory.value);
          }
          dirty := false;
        }
      }
    }

    /** The history in force: the one in memory, or the one that is still to be read. */
    ghost function Base(): Maps
      reads this
    {
      if memory.Some? then memory.value else Load(disk)
    }

    /** Grow a device's map by what it reports, if stable slots are wanted, and save it. */
    method Update(device: string, serials: BySlot, useStable: bool, writeOk: bool) returns (mapping: SlotMap)
      requires Valid() && memory.Some? && Reported(serials)
      modifies this
      ensures Valid() && Good(mapping)
      ensures memory == Some(old(memory).value[device := mapping]) && Within(old(memory).value, memory.value)
      ensures var was := MapOf(old(memory).value, device);
        mapping == if useStable then Assign(was, serials, SLOTS) else was
      ensures old(Mirrored()) ==> Mirrored() && Within(Load(old(disk)), Load(disk))
      ensures useStable && writeOk ==> !dirty
      ensures !useStable ==> disk == old(disk) && dirty == old(dirty)
    {
      mapping := MapOf(memory.value, device);
      var changed := false;
      if useStable {
        AssignGrows(mapping, serials, SLOTS);
        AssignStaysClean(mapping, serials);
        mapping, changed := AssignStable(mapping, serials);
      }
      Put(device, mapping, changed);
      if useStable {
        Persist(changed, writeOk);
      }
    }

    /** The history part of stabilizing one packet. */
    method Observe(device: string, serials: BySlot, hasManual: bool, stable: bool, readOk: bool, writeOk: bool)
        returns (mapping: SlotMap, useStable: bool)
      requires Valid() && Reported(serials)
      modifies this
      ensures Valid() && Good(mapping)
      ensures old(Mirrored()) ==> Mirrored() && Within(Load(old(disk)), Load(disk))
      ensures memory.Some? <==> old(memory).Some? || readOk
      ensures memory.Some? ==> Within(old(Base()), memory.value) && useStable == stable
      ensures memory.None? ==> disk == old(disk) && !useStable && mapping == map[]
      ensures useStable && (serials != map[] || hasManual) ==>
        && mapping == Assign(MapOf(old(Base()), device), serials, SLOTS)
        && memory == Some(old(Base())[device := mapping])
        && (writeOk ==> !dirty)
      ensures memory.Some? && serials == map[] && !hasManual ==> memory.value == old(Base()) && dirty == old(dirty)
      ensures !useStable ==> disk == old(disk) && dirty == old(dirty)
    {
      var ok := Positions(readOk);
      useStable := ok && stable;
      WithinSelf(Base());
      if !ok || (serials == map[] && !hasManual) {
        return map[], useStable;
      }
      mapping := Update(device, serials, useStable, writeOk);
    }

    /** Put a device's map back, or its empty one in. */
    method Put(device: string, mapping: SlotMap, changed: bool)
      requires Valid() && memory.Some? && Good(mapping) && Grows(MapOf(memory.value, device), mapping)
      requires !changed ==> mapping == MapOf(memory.value, device)
      modifies this`memory
      ensures memory == Some(old(memory).value[device := mapping])
      ensures Valid() && Within(old(memory).value, memory.value)
      ensures old(Mirrored()) && AllClean(mapping) ==> Savable(dirty || changed)
    {
      PutGrows(memory.value, device, mapping);
      if Mirrored() && AllClean(mapping) {
        PutStaysSound(memory.value, device, mapping);
        PutSameIsSilent(memory.value, device);
        WithinChain(Load(disk), memory.value, memory.value[device := mapping]);
      }
      memory := Some(memory.value[device := mapping]);
    }

    method Restart()
      requires Valid()
      modifies this`memory, this`dirty
      ensures Valid() && memory == None && disk == old(disk) && !dirty
      ensures old(Mirrored()) ==> Mirrored()
    {
      memory, dirty := None, false;
    }

    /** Whatever packets arrive, however often the client restarts, whichever reads and writes fail: within one
        client no assignment ever changes, and an assignment of clean serials that is on disk stays on disk,
        unchanged. */
    method Run(events: seq<Event>)
      requires Valid() && forall i :: 0 <= i < |events| && events[i].Packet? ==> Reported(events[i].serials)
      modifies this
      ensures Valid()
      ensures old(memory).Some? && (forall i :: 0 <= i < |events| ==> events[i].Packet?) ==>
        memory.Some? && Within(old(memory).value, memory.value)
      ensures old(Mirrored()) ==> Mirrored() && Within(Load(old(disk)), Load(disk))
    {
      for i := 0 to |events|
        invariant Valid()
        invariant old(memory).Some? && (forall j :: 0 <= j < i ==> events[j].Packet?) ==>
          memory.Some? && Within(old(memory).value, memory.value)
        invariant old(Mirrored()) ==> Mirrored() && Within(Load(old(disk)), Load(disk))
      {
        Step(events[i], if old(memory).Some? then old(memory).value else map[], Load(old(disk)));
      }
    }

    /** One event, seen from any earlier memory and any earlier file. */
    method Step(e: Event, ghost memoryThen: Maps, ghost loadedThen: Maps)
      requires Valid() && (e.Packet? ==> Reported(e.serials))
      modifies this
      ensures Valid()
      ensures old(memory).Some? && Within(memoryThen, old(memory).value) && e.Packet? ==>
        memory.Some? && Within(memoryThen, memory.value)
      ensures old(Mirrored()) ==> Mirrored()
      ensures old(Mirrored()) && Within(loadedThen, Load(old(disk))) ==> Within(loadedThen, Load(disk))
    {
      match e
      case Restarted => Restart();
      case Packet(device, serials, hasManual, stable, readOk, writeOk) =>
        var mapping, useStable := Observe(device, serials, hasManual, stable, readOk, writeOk);
        if old(memory).Some? && Within(memoryThen, old(memory).value) {
          WithinChain(memoryThen, old(memory).value, memory.value);
        }
        if old(Mirrored()) && Within(loadedThen, Load(old(disk))) {
          WithinChain(loadedThen, Load(old(disk)), Load(disk));
        }
    }
  }
}
