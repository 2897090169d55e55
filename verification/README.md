# A model of GroBro's state machines and codecs

GroBro bridges Growatt devices to Home Assistant over MQTT. This project models, in Dafny, the parts of it that keep
state or convert bytes, and proves what they promise.

- Battery slots (`SlotKeys`, `SlotResolution`, `SlotPreference`, `SlotStability`, `SlotRemap`, `SlotSerials`,
  `SharedSlot`, `SlotHistory`, `SlotStore`, `SlotClient`, `SlotRuns`, `ManualChoices`, `DetectedSerials`). Every battery
  keeps one logical slot, whatever physical slot it reports: a persistent map of serials to slots, choices made by hand,
  the resolution of one packet and the renaming of its telemetry. The files behind them may fail to be read or written
  at any time.
- Config reads (`ReadSequence`, `ReadRuns`, `ConfigReads`). `ReadSequence` is an abstract machine with one phase per
  device and an environment that answers, fails or stays silent; `ConfigReads` is the client's real state (five maps and
  two sets) and is proved to move exactly as the machine does. Each callback is one atomic step under the runtime lock;
  responses may arrive inside a publish.
- Device timeout (`DeviceTimeout`): when a silent device is declared offline.
- Register capture (`RegisterDebug`, `DumpContents`, `EmbeddedBlock`): the per-register diff, the block cache that must
  not change it, and what a dump contains in terms of the bytes it was made from; the optimised search for an embedded
  register block and its brute-force reference.
- Diagnostic storage (`DiagnosticLog`, `LogRotation`, `DiagnosticWriter`): tail repair, size-bounded rotation in which
  any file operation may fail, and the bounded queue in front of it.
- Wire formats (`Wire`, `Scramble`, `ConfigCodec`, `ConfigResponse`, `ModbusMessage`, `ModbusCommand`), and in
  `ProtocolBytes` what they build and accept byte by byte.
- Acknowledgements and publish suppression (`PendingAcks`, `PublishCaches`).

Python's dictionaries are maps, and sequences of pairs where their order matters; files are byte sequences, a missing,
unreadable or damaged JSON file is a case of its own, and JSON itself is the identity on the data. Exceptions are
results. Locks are the boundaries of methods. Time is a real number, randomness and input/output are parameters. Loops
and state changes are methods over arrays, local variables or the fields of a class; expressions are functions. A
method's contract ties it to a function, and lemmas state what holds of that function.

`dafny verify dfyconfig.toml` checks everything.

## Where the code does not do what one might expect

- Two batteries share a logical slot exactly when an explicitly assigned serial is reported at two physical slots: the
  loop over explicit choices does not look at the slots already in use (`SlotResolution.NoSharedSlotIff`). Then the
  values reported at one of the two are lost (`SharedSlot.TwiceReportedLosesValues`, `SharedSlot.SharedSlotExample`).
- A battery that has no stable slot, because three others were seen before it, can take one of theirs when it is
  reported first (`SlotResolution.UnmappedBatteryDisplaces`). `SlotStability.StableSlotsAreKeptIff` says exactly when
  every battery with a stable slot gets it, and `SlotStability.StableSlotsAreKeptUnassignedIff` the same without manual
  choices.
- Cleaning a serial is not idempotent, so a history written by hand can change with every load (`SlotStore.ReloadsIff`,
  `SlotStore.TwoLoadsDiffer`); one that GroBro wrote cannot (`SlotStore.PlausibleIsClean`).
- While os.stat fails but the file can be opened, manual choices are read once and then not again
  (`ManualChoices.Chooser.ReadBlindly`); `ManualChoices.Chooser.Positions` says exactly when the choices in force are
  those in the file.
- Tail repair alone does not keep a file within its limit: an unterminated file of exactly the limit, whose tail is a
  whole record, is taken one byte over it, and no other file is (`DiagnosticLog.RepairOverflowsIff`,
  `DiagnosticLog.RepairOverflowExample`). All texts that GroBro appends end in a newline, and from these that file never
  comes about (`LogRotation.BoundedFilesStayWithinLimit`, `LogRotation.RotatedLog.WriteLines`).
- A rotation that fails after its first step has removed the oldest backup without making room
  (`LogRotation.RotatedLog.Rotate`). While nothing fails, half of the files are always worth full ones
  (`LogRotation.RotatedLog.RetainsHistory`).
- Suppression compares values as Python does, where 1, 1.0 and True are equal, and dictionaries without their order, so
  a payload can be suppressed although its JSON text would differ in a number's kind or in the order of its members
  (`PublishCaches.EqualPayloadTextIff`, `PublishCaches.KindChangeIsSuppressed`,
  `PublishCaches.OrderChangeIsSuppressed`).
- A built Modbus message is accepted by the parser only with its two-byte trailer, although the comments call that
  optional (`ModbusMessage.BuiltIsAcceptedIff`); milliseconds above 255 cannot be built (`ModbusMessage.PackTimestamp`).
- Without stable slots and manual choices the highest logical slot is returned as 1 even when batteries are present
  (`SlotRemap.Prepare`, `SlotSerials.HighestMissedExample`).

## Model

| member | source | states |
|---|---|---|
| `SlotKeys.DigitPositionIff` | grobro/ha/battery_position.py:20-25 | a name's slot digit is found at a position exactly where one of the four patterns splits the name |
| `SlotKeys.RemapMovesSlot` | grobro/ha/battery_position.py:60-74 | moving a slot name keeps it a name of the same pattern, with the digit in the same place, that now reads as the new slot |
| `SlotKeys.RemapInjective` | grobro/ha/battery_position.py:60-74 | two moves that end in one name went to one slot, and the names differ at most in their own slot digit |
| `SlotKeys.RemapToOwnSlot` | grobro/ha/battery_position.py:60-74 | moving a name to the slot it already names changes nothing |
| `SlotKeys.RemapTwice` | grobro/ha/battery_position.py:68-74 | the last move wins |
| `SlotResolution.PlaceExplicit` | grobro/ha/battery_position.py:490-509 | the loop over explicit choices places exactly the reported batteries that have one, and reports exactly the slots they use |
| `SlotResolution.ChooseSlot` | grobro/ha/battery_position.py:517-541 | the branches for one automatic battery pick the first free of: its stable slot, the slot it reports, any slot |
| `SlotResolution.ResolveSlots` | grobro/ha/battery_position.py:490-549 | both loops together compute the resolution that the lemmas below are about, and the set of slots in use |
| `SlotResolution.ResolutionIsSound` | grobro/ha/battery_position.py:490-549 | explicit batteries are where they were chosen to be; an automatic one is never on a slot whose choice is not the automatic one, and never shares; one is left out only if every slot has such a choice or is used |
| `SlotPreference.NoBetterSlotIsFree` | grobro/ha/battery_position.py:490-549 | of stable slot, reported slot and then the lowest, every slot that an automatic battery would rather have than its own, or any if it has none, is spoken for by hand (its choice is not the automatic one) or in use in the end |
| `SlotPreference.LeftOutOnlyIfFull` | grobro/ha/battery_position.py:490-549 | a reported battery is left out only if each of the three slots has a choice that is not the automatic one, or is in use |
| `SlotResolution.NoSharedSlotIff` | grobro/ha/battery_position.py:503-509 | two batteries share a logical slot if and only if one explicitly assigned serial is reported at two physical slots |
| `SlotResolution.FirstWishesAreGranted` | grobro/ha/battery_position.py:513-549 | if first wishes clash neither with each other nor with reservations, every automatic battery gets its first wish |
| `SlotResolution.FirstWishesAreGrantedIff` | grobro/ha/battery_position.py:513-549 | every automatic battery gets its first wish, stable or reported slot, if and only if first wishes clash neither with each other nor with reservations |
| `SlotStability.StableSlotsAreKeptIff` | grobro/ha/battery_position.py:511-549 | every automatic battery that has a stable slot gets it if and only if none of these slots is reserved by hand, none of these batteries is reported twice, and no battery without one, reported earlier, goes there |
| `SlotStability.StableSlotsAreKeptUnassignedIff` | grobro/ha/battery_position.py:511-549 | without manual choices: if and only if no known battery is reported twice, an unknown battery at 2 meets no later known one of slot 2, and one at 3 no known one at 4 of the slot it takes, which is 3, or 2 when the battery at 2 has gone to 3 |
| `SlotStability.LandingsArePlaced` | grobro/ha/battery_position.py:490-549 | resolution is three landings, each the first free wish after the ones before it |
| `SharedSlot.TwiceReportedLosesValues` | grobro/ha/battery_position.py:503-509 | a chosen serial reported at two physical slots: of any slot name that both report with different values, the value that comes earlier is not published |
| `SharedSlot.LaterVersionWins` | grobro/ha/battery_position.py:585-594 | where two batteries share a slot, a name of that slot holds the later of the two values sent to it |
| `SharedSlot.SharedSlotExample` | grobro/ha/battery_position.py:503-509 | such a packet with stored choices, in full: the charge that the battery reports at slot 2 is lost |
| `SlotResolution.UnmappedBatteryDisplaces` | grobro/ha/battery_position.py:517-541 | a concrete family where a fourth serial, reported first, takes the slot of a battery that has it as its stable slot |
| `SlotResolution.StableSlotsAreKept` | grobro/ha/battery_position.py:517-541 | without manual choices, distinct batteries that are all mapped go to exactly their mapped slots |
| `SlotResolution.ReportedSlotsAreKept` | grobro/ha/battery_position.py:517-541 | without manual choices and stable slots, every battery stays at the slot it reports |
| `SlotRemap.Separate` | grobro/ha/battery_position.py:576-583 | the first loop leaves in the dictionary exactly the names without a slot, and in the list exactly what decides the others |
| `SlotRemap.RemapAll` | grobro/ha/battery_position.py:576-594 | after both loops every name holds the last value that was sent to it, and no other name is present |
| `SlotRemap.UnchangedIsIdentity` | grobro/ha/battery_position.py:569-574 | where the early return fires, the full remap would give back the same dictionary |
| `SlotRemap.Stabilize` | grobro/ha/battery_position.py:490-596 | through either path every name holds what the full remap sends there; the returned number is the highest logical slot in use, one of them or 1, and 1 exactly when there is none |
| `SlotRemap.Prepare` | grobro/ha/battery_position.py:615-628 | the shortcut without stable slots and manual choices returns what the full remap would return; the number returned is the highest slot in use if and only if stable slots are on, something is chosen by hand, or no battery is placed |
| `SlotSerials.HighestMissedExample` | grobro/ha/battery_position.py:615-628 | a packet with a battery at slot 3 for which, without stable slots and manual choices, 1 is returned |
| `SlotRemap.NoCollisionIff` | grobro/ha/battery_position.py:576-596 | no two different source names ever land on one target name if and only if no two batteries share a slot |
| `SlotRemap.DestinationInjective` | grobro/ha/battery_position.py:576-596 | under unshared slots, equal destinations mean equal sources, for slot names and others alike |
| `SlotRemap.ValuesAreConserved` | grobro/ha/battery_position.py:576-596 | every value that is not deliberately dropped is found under its destination |
| `SlotRemap.ValuesHaveSources` | grobro/ha/battery_position.py:576-596 | every published value came from a source name that is sent there |
| `SlotRemap.DestinationIs` | grobro/ha/battery_position.py:585-594 | which names are published, in terms of placement, report and choices: those of a placed battery move with it; other slot names are withheld if and only if their slot is reported, in use, or has a choice that is not the automatic one |
| `SlotSerials.PaddedPieceIsClean` | grobro/ha/battery_position.py:28-31 | a piece of a serial is read back from a field padded with NULs |
| `SlotSerials.FragmentsSpellSerial` | grobro/ha/battery_position.py:41-57 | however a plausible serial is cut into four padded fields, the fields spell it |
| `SlotSerials.SerialIsSpeltIff` | grobro/ha/battery_position.py:34-57 | in characters: four cells spell a serial if and only if all are there, or the first alone has more than four characters, and what they spell is 8 to 40 letters, digits, dots, underscores and hyphens |
| `SlotSerials.SerialIsReadFrom` | grobro/ha/battery_position.py:41-46 | each slot's cells are the ones under its four part names, and no battery is reported otherwise |
| `SlotSerials.MissingFragmentIff` | grobro/ha/battery_position.py:49-54 | with a fragment missing, a whole serial in the first field is accepted if and only if the other fields are empty |
| `SlotSerials.SerialsArrive` | grobro/ha/battery_position.py:41-57 | a remapped packet spells exactly the placed batteries' serials, each at its logical slot |
| `SlotSerials.FirstPassSettles` | grobro/ha/battery_position.py:41-57 | after one pass every reported battery of the new packet is at its stable slot |
| `SlotSerials.StabilizedStays` | grobro/ha/battery_position.py:401-596 | stabilizing a stabilized packet changes nothing |
| `SlotHistory.AssignStable` | grobro/ha/battery_position.py:436-468 | the assignment loop grows the map as the recursive definition says, and its changed flag is true exactly when the map is different |
| `SlotHistory.NewBatterySlot` | grobro/ha/battery_position.py:442-461 | a serial without a slot gets the one it reports if nobody has that, else the lowest that nobody has, else none; one that has a slot changes nothing |
| `SlotHistory.AssignsInSlotOrder` | grobro/ha/battery_position.py:442-461 | an observation assigns the battery at 2 first, then the one at 3, then the one at 4 |
| `SlotHistory.AssignGrows` | grobro/ha/battery_position.py:436-468 | no assignment changes, no slot is given twice, only reported serials are added, and a reported serial stays without a slot only when all three are given |
| `SlotHistory.ThreeSerialsAllFit` | grobro/ha/battery_position.py:436-468 | as long as a device has shown at most three serials, each reported one has a stable slot |
| `SlotHistory.FirstObservationKeepsSlots` | grobro/ha/battery_position.py:436-468 | the first observation records distinct batteries where they report |
| `SlotHistory.SameSerialSameSlot` | grobro/ha/battery_position.py:401-549 | one serial, reported in two packets with any growth of the history between them, is sent to one and the same logical slot |
| `SlotHistory.ReadEntries` | grobro/ha/battery_position.py:96-117 | the loading loop over a device's entries yields what the fold over them yields |
| `SlotHistory.LoadedIsGood` | grobro/ha/battery_position.py:96-117 | whatever a file holds, the loaded map is injective into the three slots and its serials are cleaned, non-empty keys of the file |
| `SlotHistory.CleanMapReloads` | grobro/ha/battery_position.py:77-117 | a sound map of clean serials is loaded back from any order of its entries |
| `SlotStore.ReloadsIff` | grobro/ha/battery_position.py:77-117 | a stored map comes back unchanged if and only if none of its serials begins or ends with white space or NUL |
| `SlotStore.CleanKeepsIff` | grobro/ha/battery_position.py:28-31 | cleaning leaves a serial alone if and only if it neither begins nor ends with white space or NUL |
| `SlotStore.CleaningCanChangeTwice` | grobro/ha/battery_position.py:28-31 | cleaning is not idempotent: a text that two cleanings change twice |
| `SlotStore.TwoLoadsDiffer` | grobro/ha/battery_position.py:77-117 | a file whose load, saved and loaded again, gives another serial |
| `SlotStore.PlausibleIsClean` | grobro/ha/battery_position.py:34-57 | every serial that telemetry can report is left alone by cleaning |
| `SlotStore.SaveLoad` | grobro/ha/battery_position.py:77-124 | loading what was saved gives back everything but empty device entries |
| `SlotStore.SaveKeepsHistory` | grobro/ha/battery_position.py:473-488 | a successful save loses no assignment that was on disk, and disk then equals memory up to empty entries |
| `SlotStore.Store.Positions` | grobro/ha/battery_position.py:380-385 | the file is read at most once per client; a failed read leaves memory unread and the disk alone |
| `SlotStore.Store.Persist` | grobro/ha/battery_position.py:473-488 | a change or an old failure is written; a failed write keeps the dirty flag and the disk |
| `SlotStore.Store.Observe` | grobro/ha/battery_position.py:424-488 | whatever the file held, memory only grows and unread history is never overwritten; after a write that works nothing is dirty; with clean serials, disk keeps mirroring memory |
| `SlotStore.Store.Run` | grobro/ha/battery_position.py:401-488 | over every run of packets, restarts, failed reads and failed writes: within one client no assignment changes, for any file; in a file of clean serials an assignment that is on disk stays there unchanged |
| `SlotClient.StabilizePacket` | grobro/ha/battery_position.py:401-596 | the mapping in force is the earlier history grown by the report; the result is exactly the remap under the plan that report, choices and mapping determine; for distinct reported serials it conserves the packet |
| `SlotClient.RemappedIsConserved` | grobro/ha/battery_position.py:569-596 | where no two batteries share a slot, every kept value is under its destination, every entry has a source, and no entry has two |
| `SlotRuns.RunAll` | grobro/ha/battery_position.py:401-596 | while the history can be read and written, every packet of a run, whatever devices and restarts it mixes, is published as the remap under its device's map as the run has grown it |
| `SlotRuns.OneSlotForever` | grobro/ha/battery_position.py:401-549 | over every such run all reports of one serial go to the same logical slot, as long as its device shows at most three serials and nothing is chosen by hand |
| `SlotRuns.OneSlotExample` | grobro/ha/battery_position.py:401-549 | a run that meets the conditions of the former: a battery reported before and after a restart |
| `SlotRuns.PlacedWhereItStays` | grobro/ha/battery_position.py:436-541 | each report is placed where the map at the end of the run has its serial |
| `ManualChoices.ReadChoices` | grobro/ha/battery_position.py:149-168 | the validation loop accepts exactly the consistent choices (plausible serials, none twice) and returns all three, trimmed |
| `ManualChoices.WrittenLoads` | grobro/ha/battery_position.py:127-180 | choices that were written are the choices that are loaded |
| `ManualChoices.Chooser.Positions` | grobro/ha/battery_position.py:205-225 | the choices in force are cached ones of the same signature, else those in the file, else, while it cannot be read, the last ones read; what is cached afterwards; exactly when they are the file's |
| `ManualChoices.Chooser.ReadBlindly` | grobro/ha/battery_position.py:205-225 | while os.stat fails, whatever replaces the file, a second read still gives the choices of the first |
| `ManualChoices.Chooser.Save` | grobro/ha/battery_position.py:314-336 | each outcome's exact cause; a save replaces one device's choices and keeps all others that load; every failure leaves the file alone |
| `ManualChoices.ChangedIs` | grobro/ha/battery_position.py:331-336 | the device's entry becomes its choices, or goes when all are automatic; every other device's entry stays |
| `ManualChoices.ChoicesAre` | grobro/ha/battery_position.py:319-329 | a choice is the trimmed text under the slot's name, automatic where there is none |
| `ManualChoices.ConsistentIff` | grobro/ha/battery_position.py:156-168 | choices are accepted if and only if each is automatic, empty or a plausible serial, and no serial is chosen twice |
| `ManualChoices.ChoiceIsHonoured` | grobro/ha/battery_position.py:490-509 | a chosen battery that is reported is sent to its chosen slot, and nothing else is |
| `ManualChoices.EmptySlotStaysEmpty` | grobro/ha/battery_position.py:496-541 | a slot kept empty by hand receives no battery |
| `DetectedSerials.Recorder.Observe` | grobro/ha/battery_position.py:228-268 | disk and cache change together or not at all; equal reports, failed reads and failed writes leave the record as it is |
| `DetectedSerials.Recorder.Run` | grobro/ha/battery_position.py:228-268 | a run of reports and restarts leaves on disk what the event-by-event definition says |
| `DetectedSerials.LastReportStands` | grobro/ha/battery_position.py:228-268 | after any run each device's entry is its last report that landed, or what the file held at the start |
| `ReadSequence.RunRequestsInOrder` | grobro/ha/client.py:626-660 | in every run a device's latest cycle has requested a prefix of its registers, in order and once each, and all of them if it ended by itself |
| `ReadRuns.RequestsAreAskedFor` | grobro/ha/client.py:626-660 | the same against the registers that the start named: in every run a device has requested a prefix of exactly the registers for which its queue was last filled, and all of them if its cycle ended by itself |
| `ReadRuns.PressRequestsAll` | grobro/ha/client.py:792-844 | Read All on an idle device with all holding reads accepted and a working timer requests exactly the given registers in order, even if no answer ever arrives, and then is complete |
| `ReadRuns.PressStartsIff` | grobro/ha/client.py:792-844 | a press starts a cycle if and only if no holding read was refused, there is something to read, the source is ready and the timer starts; a refused holding read lets the next activity try again |
| `ReadRuns.FailureIsRetried` | grobro/ha/client.py:1288-1343 | however a request fails, the device is idle afterwards and its next activity queues every register again |
| `ReadSequence.StepKeeps` | grobro/ha/client.py:1276-1387 | every single event keeps that order for all devices, nested responses during a publish included |
| `ReadSequence.ContinueDecreases` | grobro/ha/client.py:1300-1343 | going on leaves at most the queue to do and adds work to no other device |
| `ReadSequence.RespondDecreases` | grobro/ha/client.py:1364-1387 | a matching response strictly decreases what is left; any other changes nothing at all |
| `ReadSequence.ExpireDecreases` | grobro/ha/client.py:1345-1362 | the registered timer's expiry strictly decreases what is left; any other timer's changes nothing at all |
| `ReadSequence.SilentRunCompletes` | grobro/ha/client.py:1345-1362 | a device that never answers still gets every request: its own timers finish the run |
| `ReadSequence.StaleTimerIsInert` | grobro/ha/client.py:1276-1286 | a timer that is not registered now never has an effect again, whatever happens before its callback runs |
| `ConfigReads.Reader.ActiveHasOneTimer` | grobro/ha/client.py:626-682 | a device is active exactly when one timer is registered for it: a start timer with a queue and nothing in flight, or a response timer for the register in flight; an inactive device has no state |
| `ConfigReads.Reader.Kickoff` | grobro/ha/client.py:1299-1343 | the five maps and two sets move as the machine's continuation does, under every answer of source, timers and broker |
| `ConfigReads.Reader.TakeNext` | grobro/ha/client.py:1316-1331 | the timer is armed before the request is sent, and a timer that cannot start ends the run |
| `ConfigReads.Reader.Cancel` | grobro/ha/client.py:1288-1297 | cancelling removes every trace of the device and of no other |
| `ConfigReads.Reader.HandleResponse` | grobro/ha/client.py:1364-1387 | a response is the machine's response step, and nothing once the client has stopped |
| `ConfigReads.Reader.StartTimerRuns` | grobro/ha/client.py:1276-1286 | a start timer's late or timely callback is the machine's expiry step |
| `ConfigReads.Reader.ReadTimerRuns` | grobro/ha/client.py:1345-1362 | so is a response timer's |
| `ConfigReads.Reader.QueueAll` | grobro/ha/client.py:626-660 | true is returned if and only if there are registers, the source is ready, the timer starts and the device is idle, and then the queue is exactly these registers; a timer that cannot start leaves nothing behind |
| `ConfigReads.Reader.ReadAll` | grobro/ha/client.py:792-844 | the button is ignored while a run is active, and the first refused holding read releases the device |
| `ConfigReads.Reader.RefreshIfNeeded` | grobro/ha/client.py:611-617 | device activity starts a run only for a device that has had none since the last reset |
| `ConfigReads.Reader.ResetAll` | grobro/ha/client.py:662-682 | a reconnect leaves no device active, so Read All is never stuck |
| `ConfigReads.Reader.Stop` | grobro/ha/timer_runtime.py:36-51 | stopping leaves no device active |
| `DeviceTimeout.EffectiveTimeoutIsLeast` | grobro/ha/timer_runtime.py:68-88 | the effective timeout is the least value that covers the minimum and, for a usable interval, the interval plus 20 percent and plus 30 seconds |
| `DeviceTimeout.Monitor.Traffic` | grobro/ha/client.py:1002-1057 | traffic is recorded; a running timer is kept, otherwise one due a full timeout later is armed |
| `DeviceTimeout.Monitor.Fire` | grobro/ha/client.py:1011-1049 | a device is declared offline exactly when its own timer fires a timeout or more after its last traffic; a superseded timer changes nothing and publishes nothing |
| `DeviceTimeout.Monitor.CheckTimeout` | grobro/ha/client.py:1026-1049 | an early timer is re-armed for exactly the remaining time |
| `DeviceTimeout.Monitor.Start` | grobro/ha/client.py:222-222 | starting again after a stop finds every timer and every last traffic consistent |
| `DeviceTimeout.Monitor.DetectSilence` | grobro/ha/client.py:1011-1057 | a silent device is found out after at most two firings of its own timers |
| `RegisterDebug.Capture.Run` | grobro/grobro/register_debug.py:79-263 | over every sequence of messages the cached capture writes exactly the records, and ends with exactly the last values, of the diff without a block cache |
| `RegisterDebug.Capture.WriteBlock` | grobro/grobro/register_debug.py:92-145 | skipping a known block, or dropping overlapping ones and walking it, both equal walking it; every cached block still agrees with the last values |
| `RegisterDebug.Capture.Invalidate` | grobro/grobro/register_debug.py:97-107 | exactly the cached blocks of that device and function that share a register are forgotten |
| `RegisterDebug.Capture.WriteModbus` | grobro/grobro/register_debug.py:79-147 | a whole message equals the plain diff over its blocks |
| `RegisterDebug.Capture.WriteNoah` | grobro/grobro/register_debug.py:150-263 | a 0x0103 message equals the plain diff and disturbs no cached block |
| `RegisterDebug.KnownBlockIsSilent` | grobro/grobro/register_debug.py:94-96 | a block whose bytes agree with the last values yields no record and no change in changes-only mode |
| `RegisterDebug.BlockIsRecorded` | grobro/grobro/register_debug.py:110-122 | walking a block makes its words the last values of its registers and touches no other key |
| `RegisterDebug.RowStaysInItsSpace` | grobro/grobro/register_debug.py:159-211 | the 0x0103 value spaces never touch a key of another space |
| `RegisterDebug.RunIsFaithful` | grobro/grobro/register_debug.py:79-263 | replaying the records gives the final values; every record names the true previous value and the true changed flag |
| `DumpContents.EveryWordIsSeen` | grobro/grobro/register_debug.py:110-122 | walking a block, in bytes: every register of its range within the limit, both of whose bytes are there, gets its big-endian word as last value; nothing else changes |
| `DumpContents.LastBlockDecides` | grobro/grobro/register_debug.py:86-122 | of a message with several blocks the last one that covers a register gives its value |
| `DumpContents.EveryNoahValueIsSeen` | grobro/grobro/register_debug.py:159-211 | of a 0x0103 message value i is kept under index i, and each embedded one under its register up to the end of the range and the limit; no other device or space changes |
| `DumpContents.LastWordStands` | grobro/grobro/register_debug.py:79-263 | over a whole run a register holds the word of the last block that covers it, if that block carries it |
| `DumpContents.FullWalkRecords` | grobro/grobro/register_debug.py:110-145 | in full mode each carried register of a block has exactly one record, changed or not, in order, with its word, its true previous value and flag |
| `DumpContents.FullRowRecords` | grobro/grobro/register_debug.py:159-193 | in full mode so has each value of a 0x0103 row |
| `DumpContents.ChangesOnlyIsThinned` | grobro/grobro/register_debug.py:124-125 | over every run the changes-only dump is the full dump without the records that report no change, and both end with the same values |
| `EmbeddedBlock.Search` | grobro/grobro/noah_0103.py:39-60 | the parity-skipping, bounded loop returns the first offset of all that fits exactly, or none if none fits |
| `EmbeddedBlock.FindEmbeddedRegisterBlock` | grobro/grobro/noah_0103.py:31-67 | for every packet the optimised search returns the offset, range and values of the brute-force search over all offsets |
| `EmbeddedBlock.BruteForce` | grobro/grobro/noah_0103.py:42-60 | the reference: of all exact fits the one with the largest count, the first of equals |
| `EmbeddedBlock.FitCount` | grobro/grobro/noah_0103.py:44-47 | an exact fit's count is determined by its offset, and its offset is within the search bound |
| `EmbeddedBlock.FirstFitIsLargest` | grobro/grobro/noah_0103.py:56-60 | the first exact fit is the one the reference selects |
| `EmbeddedBlock.ReferenceIsLargestFit` | grobro/grobro/noah_0103.py:31-67 | a block is found if and only if some offset fits; it is the unique widest one, with exactly the words between its range and the trailer |
| `ProtocolBytes.EmbeddedBlockIff` | grobro/grobro/noah_0103.py:31-67 | in bytes: a block is found if and only if the packet has 62 bytes and, from byte 54 on, a range of 1 to 2048 registers somewhere whose words end two bytes before the end; it is the first one, with its range and big-endian words |
| `DiagnosticLog.ReadChunk` | grobro/grobro/diagnostic_io.py:44-48 | one chunk yields the part after its last newline, in the file's own positions |
| `DiagnosticLog.ScanTail` | grobro/grobro/diagnostic_io.py:40-59 | the backward scan stops exactly after the last newline, or at 0, and rebuilds exactly that tail unless it is too long |
| `DiagnosticLog.RepairIncompleteTail` | grobro/grobro/diagnostic_io.py:32-72 | the repaired file is the specified one and the returned size is its length |
| `DiagnosticLog.RepairKeepsRecords` | grobro/grobro/diagnostic_io.py:60-72 | repair keeps everything up to the last newline, adds one newline or truncates, and repairing again does nothing |
| `DiagnosticLog.RepairDecides` | grobro/grobro/diagnostic_io.py:32-72 | an unfinished record after whole ones stays, completed by its newline, if and only if it is within the limit and reads as a whole record; otherwise it goes; whole records stay |
| `DiagnosticLog.RepairOverflowsIff` | grobro/grobro/diagnostic_io.py:60-68 | repair exceeds the limit exactly for an unterminated file of exactly the limit whose tail is a whole record |
| `DiagnosticLog.RepairOverflowExample` | grobro/grobro/diagnostic_io.py:60-68 | a quoted text of exactly the limit, left unterminated by something else, that repair takes one byte over it, for every reader that takes quoted texts for records |
| `LogRotation.BoundedFilesStayWithinLimit` | grobro/grobro/diagnostic_io.py:60-109 | the files that newline-terminated texts lead to are never taken over the limit by repair |
| `LogRotation.LinesAreRecords` | grobro/grobro/diagnostic_io.py:85-89 | every line is one whole record with its only newline at its end, but for the last line of an unterminated text |
| `LogRotation.ShortLinesAreAll` | grobro/grobro/diagnostic_io.py:85-89 | splitting into lines loses nothing: where no line exceeds the limit, the accepted lines are the text |
| `LogRotation.MoveKeepsOrder` | grobro/grobro/diagnostic_io.py:97-101 | a rename to a free number changes nothing in the concatenation from the oldest file to the current one |
| `LogRotation.OldestIsPrefix` | grobro/grobro/diagnostic_io.py:94-96 | removing the oldest file removes exactly its bytes from the front |
| `LogRotation.RotatedLog.Rename` | grobro/grobro/diagnostic_io.py:97-101 | no rename overwrites a live file, and after every single rename storage is still a suffix of the history in whole records |
| `LogRotation.RotatedLog.Rotate` | grobro/grobro/diagnostic_io.py:94-102 | wherever rotation fails, the files are some stage of the shift; if it succeeds, all have moved up by one and the oldest is gone; one that can do a single operation removes the oldest and fails |
| `LogRotation.RotatedLog.RepairCurrent` | grobro/grobro/diagnostic_io.py:78-82 | repairing the current file is repairing the end of the whole history |
| `LogRotation.RotatedLog.StartNewFile` | grobro/grobro/diagnostic_io.py:90-102 | closing and rotating loses no byte, and a failure leaves a terminated file |
| `LogRotation.RotatedLog.AppendLine` | grobro/grobro/diagnostic_io.py:85-106 | a line is added whole or not at all; in sizes: where the current file is empty, or holds the line within the limit, or no file could, no backup changes and nothing is dropped; otherwise all files move up by one |
| `LogRotation.RotatedLog.AppendPacked` | grobro/grobro/diagnostic_io.py:85-106 | a line keeps every two neighbouring files together above the limit, and something dropped only with an oldest backup present |
| `LogRotation.RotatedLog.RetainsHistory` | grobro/grobro/diagnostic_io.py:75-109 | in files so packed, if anything has ever been dropped, at least (BACKUPS+1)/2, rounded down, times the limit of the most recent history is still there |
| `LogRotation.PairsAreLarge` | grobro/grobro/diagnostic_io.py:90-102 | if neighbouring files together exceed the limit, half of the files are worth full ones |
| `LogRotation.RotatedLog.AppendAll` | grobro/grobro/diagnostic_io.py:85-106 | the loop reaches the history plus all lines that fit a file, or stops at a prefix of that |
| `LogRotation.RotatedLog.WriteLines` | grobro/grobro/diagnostic_io.py:75-109 | whatever fails and whenever, the history is the old one, or the repaired one with a prefix of the accepted lines (all of them on success); where the repaired current file and the accepted lines fit the limit together, no backup changes and nothing is dropped; where nothing fails and repair removes nothing, files stay packed; files within the limit stay within it when the text ends in a newline |
| `LogRotation.RotatedLog.StoredIsRecentHistory` | grobro/grobro/diagnostic_io.py:75-109 | at any time the files from the oldest to the current one read as a suffix of the history that starts at a record, and there are at most BACKUPS+1 of them |
| `LogRotation.RepairSuffix` | grobro/grobro/diagnostic_io.py:32-72 | repair depends on the unterminated end alone |
| `DiagnosticWriter.Writer.Submit` | grobro/grobro/diagnostic_io.py:133-156 | a job is accepted exactly when the writer is open, has room for it and has or gets a worker; a refused one leaves no trace |
| `DiagnosticWriter.Writer.Take` | grobro/grobro/diagnostic_io.py:158-165 | jobs are handed out in the order of acceptance, and the worker leaves exactly when the writer is closed and empty |
| `DiagnosticWriter.Writer.Finish` | grobro/grobro/diagnostic_io.py:173-179 | after storage returns, exactly that job's bytes are released |
| `DiagnosticWriter.Writer.FlushedMeansDone` | grobro/grobro/diagnostic_io.py:181-183 | on flush's condition everything ever accepted has been through storage |
| `DiagnosticWriter.Writer.HandedInOrder` | grobro/grobro/diagnostic_io.py:158-179 | what storage has seen is a prefix of what was accepted, lacking exactly the queue; at most one job is in hand |
| `Scramble.ScrambleInPlace` | grobro/grobro/builder.py:12-21 | the loop with its wrapping mask index computes the position-determined mask |
| `Scramble.EveryBitIsMasked` | grobro/grobro/builder.py:12-21 | bytes before position 8 stay; from there on each bit is the exclusive or of the packet's bit and that of the letter of the word Growatt, repeated |
| `Scramble.XorBits` | grobro/grobro/builder.py:17-17 | every bit of the result is the exclusive or of the operands' bits |
| `Scramble.ScrambleIsInvolution` | grobro/grobro/builder.py:12-21 | scrambling twice restores every packet |
| `Scramble.ScramblePrefix` | grobro/grobro/builder.py:12-21 | what is appended cannot change earlier bytes |
| `Scramble.UnscrambleWithTrailer` | grobro/grobro/parser.py:50-53 | unscrambling a scrambled packet together with an unscrambled trailer recovers the packet |
| `ConfigCodec.WriteBuildsIff` | grobro/grobro/builder.py:29-76 | exactly which writes can be built |
| `ConfigCodec.FinalizeArrives` | grobro/grobro/builder.py:37-49 | type, identity and payload of any finished packet, as a receiver sees them after unscrambling |
| `ConfigCodec.DecodeReadsWriteTlv` | grobro/grobro/noah_protocol_debug.py:64-96 | the decoder reads back the write TLV of any packet that has one before a two-byte trailer |
| `ConfigCodec.WriteRoundTrip` | grobro/grobro/builder.py:60-76 | build, unscramble with any two trailer bytes, decode: register and value come back, and the identity without trailing NULs |
| `ConfigCodec.WriteIdentitySurvivesIff` | grobro/grobro/builder.py:29-34 | the identity comes back unchanged if and only if it does not end in NUL |
| `ConfigCodec.ReadRequestArrives` | grobro/grobro/builder.py:52-57 | a read request carries its identity and register through the same wrapping |
| `ProtocolBytes.ReadRequestBytes` | grobro/grobro/builder.py:52-57 | the unscrambled bytes of a read request, in numbers: header, length 36, type 0x0119, padded identity, fourteen zeros, one register |
| `ProtocolBytes.WriteBytes` | grobro/grobro/builder.py:60-76 | the same of a write: type 0x0118, lengths 40 and 4 more than the value's, register, length, value |
| `ProtocolBytes.DecodedWriteIff` | grobro/grobro/noah_protocol_debug.py:64-96 | a packet is read as a write if and only if its type is 0x0118 and the value it announces ends before the trailer; its fields are the words at 38, 40, 42 and 44 |
| `ConfigResponse.ReadEntries` | grobro/grobro/parser.py:115-133 | the TLV loop over a moving position finds exactly what scanning the body from its front finds |
| `ConfigResponse.ParseConfigMessage` | grobro/grobro/parser.py:102-177 | refused exactly when shorter than 47 bytes; otherwise the entries of the TLV scan, or the legacy entry if it finds none |
| `ProtocolBytes.FirstEntryIs` | grobro/grobro/parser.py:125-140 | in bytes: a length at 43 that fits gives the register at 41 the value up to there, and that is the first entry |
| `ProtocolBytes.LegacyEntryIs` | grobro/grobro/parser.py:142-165 | any other length makes the register at 41 and the text from 45 to the trailer the only entry |
| `ConfigResponse.HeaderReadsBack` | grobro/grobro/parser.py:12-12 | the header fields that a device writes are read back, the identity without trailing NULs |
| `ConfigResponse.ResponseRoundTrip` | grobro/grobro/parser.py:115-133 | any non-empty list of TLVs, followed by the beginning of one more and a trailer, is parsed to exactly that list in order |
| `ConfigResponse.TextResponseIff` | grobro/grobro/parser.py:115-133 | a response of text values gives back exactly its registers and texts, in order, if and only if no text has a NUL at either end |
| `ConfigResponse.TextSurvivesIff` | grobro/grobro/parser.py:129-133 | a text value comes back unchanged if and only if it has no NUL at either end |
| `ModbusMessage.ReadBlocks` | grobro/model/modbus_message.py:317-325 | the block loop over a moving offset equals the recursive reading, and terminates |
| `ModbusMessage.Parse` | grobro/model/modbus_message.py:258-346 | the parser equals its specification on every buffer |
| `ProtocolBytes.ModbusHeaderIff` | grobro/model/modbus_message.py:257-277 | in bytes: a header is accepted if and only if it is complete, names protocol 7 and the true length, and its function is 3, 4, 5, 6, 16 or 100 |
| `ProtocolBytes.ModbusAcceptedIff` | grobro/model/modbus_message.py:257-346 | a message is accepted if and only if its header is and what follows is five bytes for function 6, else whole blocks, from 75 on for function 4 and from 38 on for others, in each case with or without two trailing bytes |
| `ModbusMessage.MessageRoundTrip` | grobro/model/modbus_message.py:223-363 | build any well-shaped message, append any two bytes, parse: everything the format can carry comes back |
| `ModbusMessage.MessageSurvivesIff` | grobro/model/modbus_message.py:348-363 | the very same message comes back if and only if its identities are NUL-free at both ends and its time is in whole milliseconds |
| `ModbusMessage.BuiltIsAcceptedIff` | grobro/model/modbus_message.py:270-271 | a built message followed by any bytes is accepted if and only if these are exactly two |
| `ModbusMessage.AcceptedBlocksAreBody` | grobro/model/modbus_message.py:314-346 | for every accepted buffer without acknowledgement the built blocks are exactly the body bytes before the trailer |
| `ModbusMessage.ParseBlocksRebuild` | grobro/model/modbus_message.py:46-86 | parsed blocks have the size their range says and rebuild to exactly the bytes they were read from |
| `ModbusMessage.PackTimestamp` | grobro/model/modbus_message.py:156-165 | of the seven byte fields only two can refuse: a timestamp can be built if and only if its year is 2000 to 2255 and it is less than 256 milliseconds past a second |
| `ProtocolBytes.ModbusHeaderBytes` | grobro/model/modbus_message.py:223-232 | the 38 bytes before a built message's body, in numbers; the length counts two trailing bytes |
| `ProtocolBytes.BlockBytes` | grobro/model/modbus_message.py:82-83 | a built block is its first and last register and its values, two bytes a register |
| `ProtocolBytes.MetadataBytes` | grobro/model/modbus_message.py:152-165 | built metadata: padded serial, year since 2000, month, day, hour, minute, second, milliseconds |
| `ProtocolBytes.AckBytes` | grobro/model/modbus_message.py:168-194 | a built acknowledgement: register, status, value |
| `ModbusCommand.HeaderRoundTrip` | grobro/model/modbus_function.py:17-41 | a packed command header is recognised and its length measured, with or without trailer |
| `ProtocolBytes.CommandBytes` | grobro/model/modbus_function.py:17-41 | the 42 bytes of a packed command header, in numbers; the length is 36 more than what follows |
| `ProtocolBytes.CommandHeaderIff` | grobro/model/modbus_function.py:17-41 | in bytes: a command is accepted if and only if it begins with 1 and protocol 7, names address 1, a known function and a length of at least 42 that is true with or without two trailing bytes |
| `ModbusCommand.MultipleRoundTrip` | grobro/model/modbus_function.py:53-100 | a command for several registers comes back if and only if its range is ordered and fits its values; otherwise it is refused |
| `ModbusCommand.SingleRoundTrip` | grobro/model/modbus_function.py:111-152 | a command for one register comes back |
| `ModbusCommand.SingleReadsMultipleIff` | grobro/model/modbus_function.py:129-132 | the one-register parser takes the other kind for its own if and only if that has no values |
| `ModbusCommand.FieldReencodesIff` | grobro/model/modbus_message.py:22-27 | an identity field is what its own reading is encoded as if and only if it is ASCII and, unless all NUL, does not begin with NUL |
| `ModbusCommand.AcceptedRebuildsIff` | grobro/model/modbus_function.py:53-100 | an accepted command is rebuilt to its own bytes if and only if its identity field is ASCII and, unless all NUL, does not begin with NUL |
| `PendingAcks.Tracker.Reserve` | grobro/grobro/client.py:381-396 | a write is appended to its device's queue; at the limit tracking is given up for that device until shutdown |
| `PendingAcks.Tracker.RollBack` | grobro/grobro/client.py:410-420 | a publish that was not accepted takes back its own reservation and no other, even when an acknowledgement came first |
| `PendingAcks.Tracker.Acknowledge` | grobro/grobro/client.py:686-705 | an acknowledgement for a known register settles the oldest write to it, any other the oldest write of all |
| `PendingAcks.Tracker.Delete` | grobro/grobro/client.py:415-420 | a queue never stays behind empty |
| `PendingAcks.Tracker.Stop` | grobro/grobro/client.py:263-269 | the beginning of a shutdown keeps every queue as it is |
| `PendingAcks.Tracker.Forget` | grobro/grobro/client.py:308-311 | its end leaves no queue and no untracked device; every write that still waited is forgotten |
| `PendingAcks.SettleRemoves` | grobro/grobro/client.py:415-420 | settling one write removes exactly it from the outstanding ones |
| `PendingAcks.OutstandingAreDistinct` | grobro/grobro/client.py:194-195 | equal register numbers are still different reservations |
| `PendingAcks.TrackedDelete` | grobro/grobro/client.py:381-420 | after any deletion the queue is still the submission-ordered list of writes neither acknowledged nor rolled back |
| `PublishCaches.Publisher.PublishState` | grobro/ha/client.py:529-548 | a payload is suppressed exactly when it equals the cached one as a dictionary, whose text is then what the broker last accepted on the topic; only an accepted payload is cached |
| `PublishCaches.Publisher.PublishSettings` | grobro/ha/client.py:551-580 | each setting is judged on its own; the first one of a name is sent if and only if no equal value is cached; a failed publish stops neither the others nor its own retry |
| `PublishCaches.Publisher.PublishSwitch` | grobro/ha/neo_power_runtime.py:119-130 | the optimistic switch state drops the cached setting, so cache and broker never disagree |
| `PublishCaches.Publisher.Clear` | grobro/ha/performance.py:161-172 | clearing keeps the invariant that a cached value is the broker's |
| `PublishCaches.EqualPayloadTextIff` | grobro/ha/performance.py:137-148 | a payload suppressed as equal has the broker's own text if and only if neither the order of its names nor the kind of a number has changed |
| `PublishCaches.EqualTextsAreEqualPayloads` | grobro/ha/performance.py:151-158 | payloads of equal text are equal as dictionaries, so the second check never decides |
| `PublishCaches.KindChangeIsSuppressed` | grobro/ha/performance.py:144-145 | an example where the texts would differ by a number's kind |
| `PublishCaches.OrderChangeIsSuppressed` | grobro/ha/performance.py:144-145 | a family of examples where they would differ by the order of two names |
| `PublishCaches.AcceptedSettingsArrive` | grobro/ha/client.py:561-580 | the last accepted value given for a name is, up to equality, what its topic holds |
| `PublishCaches.EachOnItsOwn` | grobro/ha/client.py:561-580 | a setting whose name is given once: nothing changes for it if an equal value is cached or the broker refuses; otherwise cache and topic hold it |
| `PublishCaches.OthersLeaveName` | grobro/ha/client.py:561-580 | a name that is not given keeps its cached value and its topic |

## Left out

- LogRotation.RotatedLog.WriteLines: the size bound is stated for newline-terminated texts and starting files that are within it, because repair may add a newline to a full file and an unterminated last line has no room for one; lines end at newlines only, the other separators of str.splitlines do not occur in JSON records; how much history is kept is stated for calls in which nothing fails and repair removes nothing, because a failing rotation can lose the oldest backup for nothing and a shortened file need not overflow with its neighbour.
- LogRotation.RotatedLog.Close: after a failure any part of the unflushed bytes from some point on is lost, which covers a short write but not bytes that a buffer wrote out of order.
- DiagnosticLog.RepairIncompleteTail: whether a tail is a whole JSON record is an arbitrary predicate; a repair that fails has changed nothing, because its one change to the file is a single append or a single truncation.
- DiagnosticWriter.Writer.Take: waiting, timeouts and thread joins are the environment's choice of when a method is called.
- SlotStore.Store.Observe: JSON is the identity on names and numbers, and a failed write leaves the old file, as the atomic replacement does.
- SlotStore.Store.Run: that disk keeps every assignment is stated for files whose serials cleaning leaves alone, which every file written by this code is; `SlotStore.ReloadsIff` shows why another one can lose entries.
- SlotHistory.SameSerialSameSlot: like `SlotRuns.OneSlotForever`, stated for devices that have shown at most three serials and for no manual choice; with manual choices or more serials `SlotStability.StableSlotsAreKeptIff` says when a battery goes to its stable slot.
- SlotRemap.RemapAll: the result is a map; the order in which a remap leaves the names is not modelled.
- SlotSerials.SerialsArrive: letters and digits of a serial are the ASCII ones; str.isalnum accepts more.
- ManualChoices.Chooser.Positions: a file's stamp changes with every write.
- RegisterDebug.Capture.Run: a record is its source, key, value, previous value and flag; the fields derived from these, the time stamps and the watch list are left out, and the canonical device identity of a 0x0103 message is a parameter.
- ConfigReads.Reader.ReadAll: the holding reads are a list of outcomes; no callback of the same device runs between them.
- ConfigReads.Reader.HandleResponse: that a response also counts as device traffic is modelled by `DeviceTimeout.Monitor.Traffic` alone.
- DeviceTimeout.Monitor.Fire: real numbers stand for floating-point seconds; publishing availability is left out, with its cache.
- PublishCaches.Publisher.PublishState: values are None, booleans, integers, reals and texts, and a JSON text is the sequence of its tokens; NaN and negative zero are left out, and so are the availability topics and the smart-meter cache.
- PublishCaches.Publisher.PublishSettings: the register type, a part of a setting's topic, is taken to be fixed by device and name, as the register tables fix it.
- PendingAcks.Tracker.Reserve: publishing is split from it, so that acknowledgements may arrive in between; its result is the choice between nothing and `PendingAcks.Tracker.RollBack`.
- ConfigCodec.WriteRoundTrip: the checksum is any two bytes.
- ModbusMessage.Parse: the header's device address byte is not checked by the code and is therefore not part of a message.
- Register lookup in a parsed message, the older TLV dump and its offset heuristic, and the other NOAH messages: settled by reading one function each.
- MQTT sessions, forwarding, subscriptions and shutdown; the web interface; add-on configuration; discovery, localization and register tables: input/output and table lookup.
- Payload preparation, PV counting, firmware strings and the wall-clock sync: one branch each.
- Logging and warn-once flags.
