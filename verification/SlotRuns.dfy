/** Runs of packets and restarts while the history can be read and written: one serial, one logical slot, for good. */
module SlotRuns {
  import opened Wire
  import opened SlotKeys
  import opened SlotResolution
  import opened SlotRemap
  import opened SlotSerials
  import opened SlotHistory
  import opened SlotStore
  import opened SlotClient

  datatype Step = Sent(device: string, payload: Items<Cell>, manual: BySlot) | NewClient

  function ReportOf(e: Step, device: string): BySlot {
    if e.Sent? && e.device == device then SerialsOf(AsMap(e.payload)) else map[]
  }

  /** A device's map after a run that began with the given one. */
  function MapAfter(start: SlotMap, steps: seq<Step>, device: string): SlotMap {
    if steps == [] then start else
    Assign(MapAfter(start, steps[..|steps| - 1], device), ReportOf(steps[|steps| - 1], device), SLOTS)
  }

  lemma {:induction false} NothingAssigned(mapping: SlotMap, physical: seq<int>)
    ensures Assign(mapping, map[], physical) == mapping
    decreases |physical|
  {
    if physical != [] {
      NothingAssigned(mapping, physical[1..]);
    }
  }

  // ---- the store follows

  /** Everything works: what is known of each device is its map after the steps so far. */
  ghost predicate Follows(store: Store, start: Maps, steps: seq<Step>)
    reads store
  {
    && store.Valid() && store.Mirrored() && !store.dirty
    && forall d :: MapOf(store.Base(), d) == MapAfter(MapOf(start, d), steps, d)
  }

  lemma MapAfterOne(start: Maps, before: Maps, after: Maps, steps: seq<Step>, e: Step)
    requires forall d :: MapOf(before, d) == MapAfter(MapOf(start, d), steps, d)
    requires forall d :: MapOf(after, d) == Assign(MapOf(before, d), ReportOf(e, d), SLOTS)
    ensures forall d :: MapOf(after, d) == MapAfter(MapOf(start, d), steps + [e], d)
  {
    assert (steps + [e])[..|steps|] == steps;
  }

  lemma RestartKnowsTheSame(maps: Maps, device: string)
    ensures MapOf(NonEmpty(maps), device) == MapOf(maps, device)
  {}

  lemma OtherDevicesStay(before: Maps, after: Maps, device: string, serials: BySlot, e: Step)
    requires after == before[device := Assign(MapOf(before, device), serials, SLOTS)]
    requires e.Sent? && e.device == device && serials == SerialsOf(AsMap(e.payload))
    ensures forall d :: MapOf(after, d) == Assign(MapOf(before, d), ReportOf(e, d), SLOTS)
  {
    forall d
      ensures MapOf(after, d) == Assign(MapOf(before, d), ReportOf(e, d), SLOTS)
    {
      NothingAssigned(MapOf(before, d), SLOTS);
    }
  }

  lemma NoReportNoChange(maps: Maps, e: Step)
    requires forall d :: ReportOf(e, d) == map[]
    ensures forall d :: MapOf(maps, d) == Assign(MapOf(maps, d), ReportOf(e, d), SLOTS)
  {
    forall d
      ensures MapOf(maps, d) == Assign(MapOf(maps, d), ReportOf(e, d), SLOTS)
    {
      NothingAssigned(MapOf(maps, d), SLOTS);
    }
  }

  /** What a packet is published as, under its device's map after it. */
  ghost predicate Published(start: Maps, steps: seq<Step>, e: Step, result: map<string, Cell>)
    requires e.Sent?
  {
    var plan := PlanOf(e.payload, e.manual, MapAfter(MapOf(start, e.device), steps + [e], e.device), true);
    plan.Sane() && IsRemapped(plan, e.payload, result)
  }

  method RestartOne(store: Store, ghost start: Maps, ghost steps: seq<Step>)
    requires Follows(store, start, steps)
    modifies store
    ensures Follows(store, start, steps + [NewClient])
  {
    ghost var before := store.Base();
    forall d
      ensures MapOf(Load(store.disk), d) == MapOf(before, d)
    {
      RestartKnowsTheSame(before, d);
    }
    store.Restart();
    NoReportNoChange(store.Base(), NewClient);
    MapAfterOne(start, store.Base(), store.Base(), steps, NewClient);
  }

  method PublishOne(store: Store, e: Step, ghost start: Maps, ghost steps: seq<Step>)
      returns (result: map<string, Cell>)
    requires Follows(store, start, steps) && e.Sent? && DistinctKeys(e.payload)
    modifies store
    ensures Follows(store, start, steps + [e]) && Published(start, steps, e, result)
  {
    ghost var before, serials := store.Base(), SerialsOf(AsMap(e.payload));
    var highest, mapping, useStable;
    result, highest, mapping, useStable := StabilizePacket(store, e.device, e.payload, e.manual, true, true, true);
    if serials == map[] && e.manual == map[] {
      NoReportNoChange(before, e);
      MapAfterOne(start, before, store.Base(), steps, e);
      NothingReported(e.payload, e.manual, mapping, true);
      NothingReported(e.payload, e.manual, MapAfter(MapOf(start, e.device), steps + [e], e.device), true);
    } else {
      OtherDevicesStay(before, store.Base(), e.device, serials, e);
      MapAfterOne(start, before, store.Base(), steps, e);
    }
  }

  /** Payloads are dictionaries. */
  ghost predicate AllDistinct(steps: seq<Step>) {
    forall i :: 0 <= i < |steps| && steps[i].Sent? ==> DistinctKeys(steps[i].payload)
  }

  /** The packets so far are published under their devices' maps. */
  ghost predicate AllPublished(start: Maps, steps: seq<Step>, results: seq<Option<map<string, Cell>>>) {
    |results| <= |steps| && forall k :: 0 <= k < |results| && steps[k].Sent? ==>
      OnePublished(start, steps, k, results[k])
  }

  ghost predicate OnePublished(start: Maps, steps: seq<Step>, k: nat, result: Option<map<string, Cell>>)
    requires k < |steps| && steps[k].Sent?
  {
    result.Some? && Published(start, steps[..k], steps[k], result.value)
  }

  lemma OneMorePublished(
    start: Maps, steps: seq<Step>, results: seq<Option<map<string, Cell>>>, next: Option<map<string, Cell>>)
    requires AllPublished(start, steps, results) && |results| < |steps|
    requires steps[|results|].Sent? ==> OnePublished(start, steps, |results|, next)
    ensures AllPublished(start, steps, results + [next])
  {
    forall k | 0 <= k < |results| && steps[k].Sent?
      ensures OnePublished(start, steps, k, (results + [next])[k])
    {
      assert (results + [next])[k] == results[k];
    }
  }

  method StepOne(store: Store, step: Step, ghost start: Maps, ghost steps: seq<Step>)
      returns (result: Option<map<string, Cell>>)
    requires Follows(store, start, steps) && (step.Sent? ==> DistinctKeys(step.payload))
    modifies store
    ensures Follows(store, start, steps + [step])
    ensures step.Sent? ==> result.Some? && Published(start, steps, step, result.value)
  {
    if step.Sent? {
      var published := PublishOne(store, step, start, steps);
      return Some(published);
    }
    RestartOne(store, start, steps);
    return None;
  }

  /** Every packet of a run is published under its device's map as that run has grown it, across all restarts. */
  method RunAll(store: Store, steps: seq<Step>) returns (results: seq<Option<map<string, Cell>>>)
    requires store.Valid() && store.Mirrored() && !store.dirty && AllDistinct(steps)
    modifies store
    ensures |results| == |steps| && AllPublished(old(store.Base()), steps, results)
    ensures Follows(store, old(store.Base()), steps)
  {
    results := [];
    ghost var start := store.Base();
    for i := 0 to |steps|
      invariant |results| == i && AllPublished(start, steps, results)
      invariant Follows(store, start, steps[..i])
    {
      var result := StepOne(store, steps[i], start, steps[..i]);
      assert steps[..i + 1] == steps[..i] + [steps[i]];
      OneMorePublished(start, steps, results, result);
      results := results + [result];
    }
    assert steps[..|steps|] == steps;
  }

  // ---- what this means for one serial

  /** All serials that a device shows in a run. */
  function SerialsShown(steps: seq<Step>, device: string): set<string> {
    if steps == [] then {} else
    SerialsShown(steps[..|steps| - 1], device) + ReportOf(steps[|steps| - 1], device).Values
  }

  /** In the whole run the device shows at most three serials, those of its first map included. */
  ghost predicate ShowsFew(start: SlotMap, steps: seq<Step>, device: string) {
    |start.Keys + SerialsShown(steps, device)| <= 3
  }

  lemma AssignKeys(mapping: SlotMap, serials: BySlot)
    requires OnSlots(serials) && Good(mapping)
    ensures Assign(mapping, serials, SLOTS).Keys <= mapping.Keys + serials.Values
  {
    AssignGrows(mapping, serials, SLOTS);
  }

  lemma {:induction false} MapAfterIsGood(start: SlotMap, steps: seq<Step>, device: string)
    requires Good(start)
    ensures Good(MapAfter(start, steps, device))
    ensures MapAfter(start, steps, device).Keys <= start.Keys + SerialsShown(steps, device)
  {
    if steps != [] {
      var init, report := steps[..|steps| - 1], ReportOf(steps[|steps| - 1], device);
      MapAfterIsGood(start, init, device);
      AssignGrows(MapAfter(start, init, device), report, SLOTS);
      AssignKeys(MapAfter(start, init, device), report);
    }
  }

  lemma GrowsChain(a: SlotMap, b: SlotMap, c: SlotMap)
    requires Grows(a, b) && Grows(b, c)
    ensures Grows(a, c)
  {}

  lemma {:induction false} MapAfterGrows(start: SlotMap, steps: seq<Step>, device: string, k: nat)
    requires Good(start) && k <= |steps|
    ensures Grows(MapAfter(start, steps[..k], device), MapAfter(start, steps, device))
    ensures SerialsShown(steps[..k], device) <= SerialsShown(steps, device)
    decreases |steps| - k
  {
    if k == |steps| {
      assert steps[..k] == steps;
    } else {
      var here := MapAfter(start, steps[..k], device);
      assert steps[..k + 1][..k] == steps[..k];
      MapAfterIsGood(start, steps[..k], device);
      AssignGrows(here, ReportOf(steps[k], device), SLOTS);
      MapAfterGrows(start, steps, device, k + 1);
      GrowsChain(here, MapAfter(start, steps[..k + 1], device), MapAfter(start, steps, device));
    }
  }

  /** Where the batteries of a packet go. */
  function PlacedBy(start: SlotMap, steps: seq<Step>, i: nat, device: string): Placement
    requires i < |steps| && steps[i].Sent?
  {
    Resolution(ReportOf(steps[i], device), steps[i].manual, MapAfter(start, steps[..i + 1], device), true)
  }

  /** A packet of this device that reports a battery at p, distinct from its others, with no choice made by hand. */
  ghost predicate Reports(steps: seq<Step>, i: nat, device: string, p: int) {
    && i < |steps| && steps[i].Sent? && p in ReportOf(steps[i], device)
    && Injective(ReportOf(steps[i], device)) && AllAutomatic(steps[i].manual)
  }

  lemma StillAtMostThree(start: SlotMap, steps: seq<Step>, i: nat, device: string)
    requires Good(start) && i < |steps| && ShowsFew(start, steps, device)
    ensures AtMostThree(MapAfter(start, steps[..i], device), ReportOf(steps[i], device))
  {
    MapAfterIsGood(start, steps[..i], device);
    assert steps[..i + 1][..i] == steps[..i];
    MapAfterGrows(start, steps, device, i + 1);
    SubsetIsSmaller(MapAfter(start, steps[..i], device).Keys + ReportOf(steps[i], device).Values,
                    start.Keys + SerialsShown(steps, device));
  }

  lemma GrowsKeeps(a: SlotMap, b: SlotMap, serial: string)
    requires Grows(a, b) && serial in a
    ensures serial in b && b[serial] == a[serial]
  {}

  lemma MapAfterStep(start: SlotMap, steps: seq<Step>, i: nat, device: string)
    requires i < |steps|
    ensures MapAfter(start, steps[..i + 1], device) ==
      Assign(MapAfter(start, steps[..i], device), ReportOf(steps[i], device), SLOTS)
  {
    assert steps[..i + 1][..i] == steps[..i];
  }

  lemma PlacedAsMapped(start: SlotMap, steps: seq<Step>, i: nat, device: string, p: int)
    requires Good(start) && ShowsFew(start, steps, device) && Reports(steps, i, device, p)
    ensures var serial, now := ReportOf(steps[i], device)[p], MapAfter(start, steps[..i + 1], device);
      serial in now && Lookup(PlacedBy(start, steps, i, device), p) == Some(now[serial])
  {
    StillAtMostThree(start, steps, i, device);
    MapAfterIsGood(start, steps[..i], device);
    MapAfterStep(start, steps, i, device);
    ResolvesStable(MapAfter(start, steps[..i], device), ReportOf(steps[i], device), steps[i].manual, p);
  }

  /** Every report of a serial is placed where the run's final map has it. */
  lemma PlacedWhereItStays(start: SlotMap, steps: seq<Step>, i: nat, device: string, p: int)
    requires Good(start) && ShowsFew(start, steps, device) && Reports(steps, i, device, p)
    ensures var serial, end := ReportOf(steps[i], device)[p], MapAfter(start, steps, device);
      serial in end && Lookup(PlacedBy(start, steps, i, device), p) == Some(end[serial])
  {
    PlacedAsMapped(start, steps, i, device, p);
    MapAfterGrows(start, steps, device, i + 1);
    GrowsKeeps(MapAfter(start, steps[..i + 1], device), MapAfter(start, steps, device), ReportOf(steps[i], device)[p]);
  }

  /** One serial, one logical slot, over every run of packets of any devices and restarts, while the history can be read
      and written: all reports of a serial go to the same slot, as long as its device shows at most three serials. */
  lemma OneSlotForever(start: SlotMap, steps: seq<Step>, device: string, i: nat, j: nat, p: int, q: int)
    requires Good(start) && ShowsFew(start, steps, device)
    requires Reports(steps, i, device, p) && Reports(steps, j, device, q)
    requires ReportOf(steps[i], device)[p] == ReportOf(steps[j], device)[q]
    ensures Lookup(PlacedBy(start, steps, i, device), p) == Lookup(PlacedBy(start, steps, j, device), q) != None
  {
    PlacedWhereItStays(start, steps, i, device, p);
    PlacedWhereItStays(start, steps, j, device, q);
  }

  /** A run that meets all of this: a battery at slot 3, before and after a restart. */
  function ExampleRun(serial: string): seq<Step> {
    var packet := Sent("noah", WholeSerialAtThree(serial), map[]);
    [packet, NewClient, packet]
  }

  lemma ExampleReports(serial: string, i: nat)
    requires Plausible(serial) && (i == 0 || i == 2)
    ensures Reports(ExampleRun(serial), i, "noah", 3)
  {
    WholeSerialIsReported(serial);
    assert ReportOf(ExampleRun(serial)[i], "noah") == map[3 := serial];
    assert AllAutomatic(map[]);
  }

  lemma ExampleIsDistinct(serial: string)
    ensures AllDistinct(ExampleRun(serial))
  {
    assert DistinctKeys(WholeSerialAtThree(serial));
  }

  lemma OneSlotExample(serial: string)
    requires Plausible(serial)
    ensures Reports(ExampleRun(serial), 0, "noah", 3) && Reports(ExampleRun(serial), 2, "noah", 3)
    ensures ShowsFew(map[], ExampleRun(serial), "noah") && Good(map[]) && AllDistinct(ExampleRun(serial))
  {
    ExampleReports(serial, 0);
    ExampleReports(serial, 2);
    ExampleIsDistinct(serial);
    ExampleShows(serial);
  }

  lemma ExampleShows(serial: string)
    requires Plausible(serial)
    ensures ShowsFew(map[], ExampleRun(serial), "noah")
  {
    var steps, none: SlotMap := ExampleRun(serial), map[];
    WholeSerialIsReported(serial);
    var report: BySlot := map[3 := serial];
    assert report.Values == {serial} by { assert report[3] == serial; }
    assert steps[..0] == [] && SerialsShown(steps[..0], "noah") == {};
    SerialsShownStep(steps, 0);
    SerialsShownStep(steps, 1);
    SerialsShownStep(steps, 2);
    assert steps[..3] == steps;
    assert none.Keys + SerialsShown(steps, "noah") == {serial};
  }

  lemma SerialsShownStep(steps: seq<Step>, i: nat)
    requires i < |steps|
    ensures SerialsShown(steps[..i + 1], "noah") ==
      SerialsShown(steps[..i], "noah") + ReportOf(steps[i], "noah").Values
  {
    assert steps[..i + 1][..i] == steps[..i];
  }
}
