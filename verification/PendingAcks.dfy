/** Which config writes are still waiting for their acknowledgement. */
module PendingAcks {
  import opened Wire

  const MAX_PENDING := 128

  /** An integer with an identity of its own: equal registers are still different reservations. */
  datatype Reservation = Reservation(id: nat, registerNo: int)

  datatype Fate = Waiting | Acknowledged | RolledBack | Forgotten

  /** The whole story of one device's tracked writes, in submission order. */
  datatype Entry = Entry(r: Reservation, fate: Fate)

  function Outstanding(story: seq<Entry>): seq<Reservation> {
    if story == [] then []
    else if story[|story| - 1].fate == Waiting then Outstanding(story[..|story| - 1]) + [story[|story| - 1].r]
    else Outstanding(story[..|story| - 1])
  }

  ghost predicate DistinctIds(story: seq<Entry>) {
    forall i, j :: 0 <= i < j < |story| ==> story[i].r.id != story[j].r.id
  }

  /** Give one reservation its fate; the rest of the story is untouched. */
  function Settle(story: seq<Entry>, id: nat, fate: Fate): (r: seq<Entry>)
    ensures |r| == |story|
  {
    seq(|story|, i requires 0 <= i < |story| =>
      if story[i].r.id == id && story[i].fate == Waiting then Entry(story[i].r, fate) else story[i])
  }

  /** The queue without the reservation of that identity, if it is there. */
  function Without(pending: seq<Reservation>, id: nat): seq<Reservation> {
    if pending == [] then []
    else if pending[|pending| - 1].id == id then Without(pending[..|pending| - 1], id)
    else Without(pending[..|pending| - 1], id) + [pending[|pending| - 1]]
  }

  lemma WithoutAppend(pending: seq<Reservation>, r: Reservation, id: nat)
    ensures Without(pending + [r], id) == if r.id == id then Without(pending, id) else Without(pending, id) + [r]
  {
    assert (pending + [r])[..|pending|] == pending;
  }

  lemma SettleInit(story: seq<Entry>, id: nat, fate: Fate)
    requires story != []
    ensures Settle(story, id, fate)[..|story| - 1] == Settle(story[..|story| - 1], id, fate)
  {}

  lemma {:induction false} SettleRemoves(story: seq<Entry>, id: nat, fate: Fate)
    requires fate != Waiting
    ensures Outstanding(Settle(story, id, fate)) == Without(Outstanding(story), id)
  {
    if story != [] {
      var init, last := story[..|story| - 1], story[|story| - 1];
      SettleRemoves(init, id, fate);
      SettleInit(story, id, fate);
      if last.fate == Waiting {
        WithoutAppend(Outstanding(init), last.r, id);
      }
    }
  }

  lemma {:induction false} OutstandingIds(story: seq<Entry>, i: nat)
    requires i < |Outstanding(story)|
    ensures exists k :: 0 <= k < |story| && story[k] == Entry(Outstanding(story)[i], Waiting)
  {
    var init, last := story[..|story| - 1], story[|story| - 1];
    if i < |Outstanding(init)| {
      OutstandingIds(init, i);
      var k :| 0 <= k < |init| && init[k] == Entry(Outstanding(init)[i], Waiting);
      assert story[k] == init[k];
    } else {
      assert story[|story| - 1] == Entry(Outstanding(story)[i], Waiting);
    }
  }

  lemma {:induction false} OutstandingAreDistinct(story: seq<Entry>, i: nat, j: nat)
    requires DistinctIds(story) && i < j < |Outstanding(story)|
    ensures Outstanding(story)[i].id != Outstanding(story)[j].id
  {
    var init := story[..|story| - 1];
    if j < |Outstanding(init)| {
      OutstandingAreDistinct(init, i, j);
    } else {
      OutstandingIds(init, i);
    }
  }

  /** Removing position k of distinct reservations is removing its identity. */
  lemma {:induction false} WithoutIsDelete(pending: seq<Reservation>, k: nat)
    requires k < |pending|
    requires forall i, j :: 0 <= i < j < |pending| ==> pending[i].id != pending[j].id
    ensures Without(pending, pending[k].id) == pending[..k] + pending[k + 1..]
  {
    var n := |pending| - 1;
    var init := pending[..n];
    if k == n {
      WithoutAbsent(init, pending[n].id);
      assert pending[..k] + pending[k + 1..] == init;
    } else {
      WithoutIsDelete(init, k);
      assert pending[..k] + pending[k + 1..] == (init[..k] + init[k + 1..]) + [pending[n]];
    }
  }

  lemma {:induction false} WithoutAbsent(pending: seq<Reservation>, id: nat)
    requires forall i :: 0 <= i < |pending| ==> pending[i].id != id
    ensures Without(pending, id) == pending
  {
    if pending != [] {
      WithoutAbsent(pending[..|pending| - 1], id);
    }
  }

  /** Give every write that still waits its fate. */
  function SettleAll(story: seq<Entry>, fate: Fate): seq<Entry> {
    seq(|story|, i requires 0 <= i < |story| => if story[i].fate == Waiting then Entry(story[i].r, fate) else story[i])
  }

  lemma {:induction false} SettleAllRemoves(story: seq<Entry>, fate: Fate)
    requires fate != Waiting
    ensures Outstanding(SettleAll(story, fate)) == []
  {
    if story != [] {
      assert SettleAll(story, fate)[..|story| - 1] == SettleAll(story[..|story| - 1], fate);
      SettleAllRemoves(story[..|story| - 1], fate);
    }
  }

  function StoryOf(stories: map<string, seq<Entry>>, device: string): seq<Entry> {
    if device in stories then stories[device] else []
  }

  function QueueOf(pending: map<string, seq<Reservation>>, device: string): seq<Reservation> {
    if device in pending then pending[device] else []
  }

  predicate HasId(queue: seq<Reservation>, id: nat) { exists i :: 0 <= i < |queue| && queue[i].id == id }

  /** One device: its queue is exactly the outstanding part of its story, unless tracking was given up. */
  ghost predicate Tracked(queue: seq<Reservation>, givenUp: bool, story: seq<Entry>, created: nat) {
    && DistinctIds(story)
    && (forall i :: 0 <= i < |story| ==> story[i].r.id < created)
    && |queue| <= MAX_PENDING
    && (if givenUp then queue == [] else queue == Outstanding(story))
  }

  lemma TrackedReserve(queue: seq<Reservation>, story: seq<Entry>, created: nat, registerNo: int)
    requires Tracked(queue, false, story, created) && |queue| < MAX_PENDING
    ensures var r := Reservation(created, registerNo);
      Tracked(queue + [r], false, story + [Entry(r, Waiting)], created + 1)
  {
    var r := Reservation(created, registerNo);
    var longer := story + [Entry(r, Waiting)];
    assert longer[..|longer| - 1] == story;
  }

  lemma {:induction false} TrackedDelete(queue: seq<Reservation>, story: seq<Entry>, created: nat, k: nat, fate: Fate)
    requires Tracked(queue, false, story, created) && k < |queue| && fate != Waiting
    ensures Tracked(queue[..k] + queue[k + 1..], false, Settle(story, queue[k].id, fate), created)
    ensures queue[..k] + queue[k + 1..] == Without(queue, queue[k].id)
  {
    forall i, j | 0 <= i < j < |queue|
      ensures queue[i].id != queue[j].id
    {
      OutstandingAreDistinct(story, i, j);
    }
    WithoutIsDelete(queue, k);
    SettleRemoves(story, queue[k].id, fate);
  }

  lemma TrackedLater(queue: seq<Reservation>, givenUp: bool, story: seq<Entry>, created: nat)
    requires Tracked(queue, givenUp, story, created)
    ensures Tracked(queue, givenUp, story, created + 1)
  {}

  lemma TrackedGiveUp(queue: seq<Reservation>, story: seq<Entry>, created: nat)
    requires Tracked(queue, false, story, created)
    ensures Tracked([], true, story, created + 1)
  {}

  lemma TrackedForget(queue: seq<Reservation>, givenUp: bool, story: seq<Entry>, created: nat)
    requires Tracked(queue, givenUp, story, created)
    ensures Tracked([], false, SettleAll(story, Forgotten), created)
  {
    SettleAllRemoves(story, Forgotten);
  }

  /** Every device is tracked as it should be, and no queue is kept empty. */
  ghost predicate AllTracked(
    pending: map<string, seq<Reservation>>, disabled: set<string>, stories: map<string, seq<Entry>>, created: nat)
  {
    && (forall d :: Tracked(QueueOf(pending, d), d in disabled, StoryOf(stories, d), created))
    && (forall d :: d in pending ==> pending[d] != [])
  }

  lemma AppendKeeps(
    pending: map<string, seq<Reservation>>, disabled: set<string>, stories: map<string, seq<Entry>>, created: nat,
    device: string, r: Reservation)
    requires AllTracked(pending, disabled, stories, created) && device !in disabled && r.id == created
    requires |QueueOf(pending, device)| < MAX_PENDING
    ensures AllTracked(pending[device := QueueOf(pending, device) + [r]], disabled,
                       stories[device := StoryOf(stories, device) + [Entry(r, Waiting)]], created + 1)
  {
    var nextPending := pending[device := QueueOf(pending, device) + [r]];
    var nextStories := stories[device := StoryOf(stories, device) + [Entry(r, Waiting)]];
    forall d
      ensures Tracked(QueueOf(nextPending, d), d in disabled, StoryOf(nextStories, d), created + 1)
    {
      assert Tracked(QueueOf(pending, d), d in disabled, StoryOf(stories, d), created);
      if d == device {
        TrackedReserve(QueueOf(pending, d), StoryOf(stories, d), created, r.registerNo);
      } else {
        TrackedLater(QueueOf(pending, d), d in disabled, StoryOf(stories, d), created);
      }
    }
  }

  lemma GiveUpKeeps(
    pending: map<string, seq<Reservation>>, disabled: set<string>, stories: map<string, seq<Entry>>, created: nat,
    device: string)
    requires AllTracked(pending, disabled, stories, created) && device !in disabled
    ensures AllTracked(pending - {device}, disabled + {device}, stories, created + 1)
  {
    forall d
      ensures Tracked(QueueOf(pending - {device}, d), d in disabled + {device}, StoryOf(stories, d), created + 1)
    {
      assert Tracked(QueueOf(pending, d), d in disabled, StoryOf(stories, d), created);
      if d == device {
        TrackedGiveUp(QueueOf(pending, d), StoryOf(stories, d), created);
      } else {
        TrackedLater(QueueOf(pending, d), d in disabled, StoryOf(stories, d), created);
      }
    }
  }

  lemma LaterKeeps(
    pending: map<string, seq<Reservation>>, disabled: set<string>, stories: map<string, seq<Entry>>, created: nat)
    requires AllTracked(pending, disabled, stories, created)
    ensures AllTracked(pending, disabled, stories, created + 1)
  {
    forall d
      ensures Tracked(QueueOf(pending, d), d in disabled, StoryOf(stories, d), created + 1)
    {
      TrackedLater(QueueOf(pending, d), d in disabled, StoryOf(stories, d), created);
    }
  }

  /** The queues without one position of a device's queue; a queue that this empties goes altogether. */
  function Removed(pending: map<string, seq<Reservation>>, device: string, k: nat): map<string, seq<Reservation>>
    requires device in pending && k < |pending[device]|
  {
    var rest := pending[device][..k] + pending[device][k + 1..];
    if rest == [] then pending - {device} else pending[device := rest]
  }

  lemma RemovedQueue(pending: map<string, seq<Reservation>>, device: string, k: nat, d: string)
    requires device in pending && k < |pending[device]|
    ensures QueueOf(Removed(pending, device, k), d) ==
      if d == device then pending[device][..k] + pending[device][k + 1..] else QueueOf(pending, d)
  {}

  lemma DeleteKeeps(
    pending: map<string, seq<Reservation>>, disabled: set<string>, stories: map<string, seq<Entry>>, created: nat,
    device: string, k: nat, fate: Fate)
    requires AllTracked(pending, disabled, stories, created) && fate != Waiting
    requires device in pending && k < |pending[device]|
    ensures AllTracked(Removed(pending, device, k), disabled,
                       stories[device := Settle(StoryOf(stories, device), pending[device][k].id, fate)], created)
  {
    var next := stories[device := Settle(StoryOf(stories, device), pending[device][k].id, fate)];
    forall d
      ensures Tracked(QueueOf(Removed(pending, device, k), d), d in disabled, StoryOf(next, d), created)
    {
      assert Tracked(QueueOf(pending, d), d in disabled, StoryOf(stories, d), created);
      RemovedQueue(pending, device, k, d);
      if d == device {
        TrackedDelete(pending[device], StoryOf(stories, device), created, k, fate);
      }
    }
  }

  class Tracker {
    var pending: map<string, seq<Reservation>>
    var disabled: set<string>
    var stopped: bool
    /** The next identity. */
    var created: nat
    /** The tracked writes of every device and how each ended. */
    ghost var stories: map<string, seq<Entry>>

    ghost predicate Valid()
      reads this
    {
      AllTracked(pending, disabled, stories, created)
    }

    constructor ()
      ensures Valid() && pending == map[] && disabled == {} && stories == map[]
    {
      pending, disabled, stopped, stories, created := map[], {}, false, map[], 0;
    }

    /** The reservation that a config write makes before it publishes; None when the client has stopped. */
    method Reserve(device: string, registerNo: int) returns (r: Option<Reservation>)
      requires Valid()
      modifies this
      ensures Valid() && stopped == old(stopped)
      ensures r.None? <==> old(stopped)
      ensures r.None? ==> pending == old(pending) && disabled == old(disabled) && stories == old(stories)
      ensures r.Some? ==> r.value.registerNo == registerNo && r.value.id == old(created) && created == old(created) + 1
      ensures r.Some? && device in old(disabled) ==>
        pending == old(pending) && disabled == old(disabled) && stories == old(stories)
      ensures r.Some? && device !in old(disabled) ==>
        var before := QueueOf(old(pending), device);
        if |before| >= 128 then
          pending == old(pending) - {device} && disabled == old(disabled) + {device} && stories == old(stories)
        else
          && pending == old(pending)[device := before + [r.value]] && disabled == old(disabled)
          && stories == old(stories)[device := StoryOf(old(stories), device) + [Entry(r.value, Waiting)]]
    {
      if stopped {
        return None;
      }
      var reservation := Reservation(created, registerNo);
      if device in disabled {
        LaterKeeps(pending, disabled, stories, created);
      } else {
        var queue := QueueOf(pending, device);
        if |queue| >= MAX_PENDING {
          GiveUpKeeps(pending, disabled, stories, created, device);
          pending := pending - {device};
          disabled := disabled + {device};
        } else {
          AppendKeeps(pending, disabled, stories, created, device, reservation);
          pending := pending[device := queue + [reservation]];
          stories := stories[device := StoryOf(stories, device) + [Entry(reservation, Waiting)]];
        }
      }
      created := created + 1;
      return Some(reservation);
    }

    /** Delete one position of a device's queue, dropping the queue when that empties it. */
    method Delete(device: string, k: nat, ghost fate: Fate)
      requires Valid() && device in pending && k < |pending[device]| && fate != Waiting
      modifies this`pending, this`stories
      ensures Valid()
      ensures pending == Removed(old(pending), device, k)
      ensures stories == old(stories)[device := Settle(StoryOf(old(stories), device), old(pending)[device][k].id, fate)]
    {
      DeleteKeeps(pending, disabled, stories, created, device, k, fate);
      var queue := pending[device];
      stories := stories[device := Settle(StoryOf(stories, device), queue[k].id, fate)];
      var rest := queue[..k] + queue[k + 1..];
      if rest == [] {
        pending := pending - {device};
      } else {
        pending := pending[device := rest];
      }
    }

    /** After a publish that was not accepted: take back this very reservation and no other. */
    method RollBack(device: string, r: Reservation)
      requires Valid()
      modifies this`pending, this`stories
      ensures Valid()
      ensures !HasId(QueueOf(old(pending), device), r.id) ==> pending == old(pending) && stories == old(stories)
      ensures HasId(QueueOf(old(pending), device), r.id) ==>
        var rest := Without(old(pending)[device], r.id);
        && pending == (if rest == [] then old(pending) - {device} else old(pending)[device := rest])
        && stories == old(stories)[device := Settle(StoryOf(old(stories), device), r.id, RolledBack)]
    {
      if device in pending {
        var queue := pending[device];
        for index := 0 to |queue|
          invariant pending == old(pending) && stories == old(stories)
          invariant forall i :: 0 <= i < index ==> queue[i].id != r.id
        {
          if queue[index].id == r.id {
            assert Tracked(QueueOf(pending, device), device in disabled, StoryOf(stories, device), created);
            TrackedDelete(queue, StoryOf(stories, device), created, index, RolledBack);
            Delete(device, index, RolledBack);
            break;
          }
        }
      }
    }

    /** The position of the first reservation for a register, or the length. */
    static function FirstFor(queue: seq<Reservation>, registerNo: int): (k: nat)
      ensures k <= |queue|
      ensures forall i :: 0 <= i < k ==> queue[i].registerNo != registerNo
      ensures k < |queue| ==> queue[k].registerNo == registerNo
    {
      if queue == [] || queue[0].registerNo == registerNo then 0 else 1 + FirstFor(queue[1..], registerNo)
    }

    /** An acknowledgement: one for a known register settles the oldest write to it, any other the oldest write of
        all. */
    method Acknowledge(device: string, parsedRegister: int, known: bool) returns (registerNo: int)
      requires Valid()
      modifies this`pending, this`stories
      ensures Valid()
      ensures registerNo == if !known && device in old(pending)
        then old(pending)[device][0].registerNo else parsedRegister
      ensures var queue := QueueOf(old(pending), device);
        var k := if known then FirstFor(queue, parsedRegister) else 0;
        if k >= |queue| then pending == old(pending) && stories == old(stories)
        else
          && pending == Removed(old(pending), device, k)
          && stories == old(stories)[device := Settle(StoryOf(old(stories), device), queue[k].id, Acknowledged)]
    {
      registerNo := parsedRegister;
      if device in pending {
        var queue := pending[device];
        if known {
          var k := FirstFor(queue, parsedRegister);
          if k < |queue| {
            Delete(device, k, Acknowledged);
          }
        } else {
          registerNo := queue[0].registerNo;
          Delete(device, 0, Acknowledged);
        }
      }
    }

    /** The beginning of the shutdown: no write is reserved from now on. */
    method Stop()
      requires Valid()
      modifies this`stopped
      ensures Valid() && stopped
    {
      stopped := true;
    }

    /** Its end, some callbacks later: every queue is forgotten, and so is which devices were not tracked. */
    method Forget()
      requires Valid() && stopped
      modifies this`pending, this`disabled, this`stories
      ensures Valid() && pending == map[] && disabled == {}
      ensures stories == map d | d in old(stories) :: SettleAll(old(stories)[d], Forgotten)
    {
      ghost var was := stories;
      pending, disabled := map[], {};
      stories := map d | d in was :: SettleAll(was[d], Forgotten);
      forall d
        ensures Tracked(QueueOf(pending, d), d in disabled, StoryOf(stories, d), created)
      {
        TrackedForget(QueueOf(old(pending), d), d in old(disabled), StoryOf(was, d), created);
        assert StoryOf(stories, d) == SettleAll(StoryOf(was, d), Forgotten);
      }
    }
  }
}
