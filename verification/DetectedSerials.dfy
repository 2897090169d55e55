/** The record of which serials each device last reported, kept for the user interface. */
module DetectedSerials {
  import opened Wire

  /** A device's entry: the reported serials by physical slot, or whatever else a file may hold there. */
  datatype Entry = Reported(serials: map<int, string>) | Other(text: string)

  datatype File = Missing | Damaged | Devices(devices: map<string, Entry>)

  /** What reading the file gives; a missing or damaged one counts as empty. */
  function Contents(file: File): map<string, Entry> { if file.Devices? then file.devices else map[] }

  /** readOk says that the file can be read or is missing. */
  datatype Event = Observed(device: string, serials: map<int, string>, readOk: bool, writeOk: bool) | Restarted

  /** Whether the file has been read, and what is on record. */
  datatype Book = Book(read: bool, entries: map<string, Entry>)

  /** An event reaches the record unless it is empty, the record has not been read, or the write fails. */
  predicate Lands(b: Book, e: Event) { e.Observed? && e.serials != map[] && (b.read || e.readOk) && e.writeOk }

  function Note(b: Book, e: Event): Book {
    match e
    case Restarted => b.(read := false)
    case Observed(device, serials, readOk, _) =>
      Book(b.read || (readOk && serials != map[]),
           if Lands(b, e) then b.entries[device := Reported(serials)] else b.entries)
  }

  function NoteAll(b: Book, events: seq<Event>): Book {
    if events == [] then b else Note(NoteAll(b, events[..|events| - 1]), events[|events| - 1])
  }

  class Recorder {
    var disk: File
    var cache: Option<map<string, Entry>>
    /** Devices whose last write failed. */
    var failures: set<string>

    ghost predicate Valid()
      reads this
    {
      cache.Some? ==> cache.value == Contents(disk)
    }

    ghost function OnRecord(): Book
      reads this
    {
      Book(cache.Some?, Contents(disk))
    }

    constructor (disk: File)
      ensures Valid() && cache == None && this.disk == disk
    {
      this.disk, cache, failures := disk, None, {};
    }

    method Observe(device: string, serials: map<int, string>, readOk: bool, writeOk: bool)
      requires Valid()
      modifies this
      ensures Valid()
      ensures OnRecord() == Note(old(OnRecord()), Observed(device, serials, readOk, writeOk))
      ensures Contents(disk) ==
        if serials != map[] && (old(cache).Some? || readOk) && writeOk
          then Contents(old(disk))[device := Reported(serials)]
        else Contents(old(disk))
      ensures cache.Some? <==> old(cache).Some? || (serials != map[] && readOk)
    {
      if serials == map[] {
        return;
      }
      if cache.None? {
        if !readOk {
          return;
        }
        cache := Some(Contents(disk));
      }
      if device in cache.value && cache.value[device] == Reported(serials) {
        assert cache.value[device := Reported(serials)] == cache.value;
        return;
      }
      var updated := cache.value[device := Reported(serials)];
      if !writeOk {
        failures := failures + {device};
        return;
      }
      failures := failures - {device};
      disk, cache := Devices(updated), Some(updated);
    }

    method Run(events: seq<Event>)
      requires Valid()
      modifies this
      ensures Valid() && OnRecord() == NoteAll(old(OnRecord()), events)
    {
      for i := 0 to |events|
        invariant Valid() && OnRecord() == NoteAll(old(OnRecord()), events[..i])
      {
        assert events[..i + 1][..i] == events[..i];
        match events[i] {
          case Observed(device, serials, readOk, writeOk) => Observe(device, serials, readOk, writeOk);
          case Restarted => cache := None;
        }
      }
      assert events[..|events|] == events;
    }
  }

  /** After any run a device's entry is its last report that landed; without one it is what it was at the start.
      No device is ever forgotten. */
  lemma {:induction false} LastReportStands(b: Book, events: seq<Event>, device: string, k: nat)
    requires k <= |events|
    requires k < |events| ==> Lands(NoteAll(b, events[..k]), events[k]) && events[k].device == device
    requires forall j ::
      0 <= j < |events| && (k == |events| || j > k) && events[j].Observed? && events[j].device == device ==>
      !Lands(NoteAll(b, events[..j]), events[j])
    ensures var entries := NoteAll(b, events).entries;
      if k < |events| then device in entries && entries[device] == Reported(events[k].serials)
      else (device in entries <==> device in b.entries) && (device in entries ==> entries[device] == b.entries[device])
    decreases |events|
  {
    if events != [] {
      var n := |events| - 1;
      var init := events[..n];
      if k != n {
        forall j | 0 <= j <= n
          ensures init[..j] == events[..j]
        {}
        LastReportStands(b, init, device, if k == |events| then n else k);
      }
    }
  }
}
