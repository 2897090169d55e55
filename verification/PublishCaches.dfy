/** Suppression of unchanged Home Assistant state: caches that mirror what the broker last accepted. */
module PublishCaches {
  import opened Wire

  datatype Value = Null | Bool(b: bool) | Int(i: int) | Float(r: real) | Text(s: string)

  function NumberOf(v: Value): Option<real> {
    match v
    case Bool(b) => Some(if b then 1.0 else 0.0)
    case Int(i) => Some(i as real)
    case Float(r) => Some(r)
    case _ => None
  }

  /** Equality as Python compares values: numbers by magnitude, whatever their kind. */
  predicate Equal(a: Value, b: Value) {
    if NumberOf(a).Some? then NumberOf(a) == NumberOf(b) else a == b
  }

  predicate DistinctNames(p: seq<(string, Value)>) { forall i, j :: 0 <= i < j < |p| ==> p[i].0 != p[j].0 }

  /** A dictionary in its insertion order. */
  type Payload = p: seq<(string, Value)> | DistinctNames(p)

  function Get(p: seq<(string, Value)>, name: string): (value: Option<Value>)
    ensures value.Some? ==> (name, value.value) in p
    ensures value.None? ==> forall i :: 0 <= i < |p| ==> p[i].0 != name
  {
    if p == [] then None else if p[0].0 == name then Some(p[0].1) else Get(p[1..], name)
  }

  /** Equality as Python compares dictionaries: by names, whatever their order. */
  predicate EqualPayloads(p: Payload, q: Payload) {
    |p| == |q| && forall i :: 0 <= i < |p| ==> Get(q, p[i].0).Some? && Equal(p[i].1, Get(q, p[i].0).value)
  }

  /** The kinds that JSON writes differently. */
  predicate SameKind(a: Value, b: Value) {
    a.Null? == b.Null? && a.Bool? == b.Bool? && a.Int? == b.Int? && a.Float? == b.Float? && a.Text? == b.Text?
  }

  /** The pieces of a JSON text. A value's piece shows the value and its kind. */
  datatype Token = Open | Close | Comma | Colon | Name(name: string) | Literal(value: Value)

  type Json = seq<Token>

  function Members(p: seq<(string, Value)>): seq<Token> {
    if p == [] then [] else
    var last := p[|p| - 1];
    Members(p[..|p| - 1]) + (if |p| == 1 then [] else [Comma]) + [Name(last.0), Colon, Literal(last.1)]
  }

  /** json.dumps, which writes the members in insertion order */
  function Dump(p: seq<(string, Value)>): Json { [Open] + Members(p) + [Close] }

  /** A setting's topic. The register type, which the real topic also contains, is fixed by device and name. */
  datatype Topic = StateTopic(device: string) | HoldingTopic(device: string, name: string)

  datatype Content = StateText(json: Json) | Setting(value: Value)

  datatype Outcome = Accepted | Rejected | Raised

  const SWITCH := "inverter_power"

  datatype Item = Item(name: string, value: Value)

  /** The settings part of the caches and the broker, which one call updates together. */
  datatype Mirror = Mirror(cache: map<(string, string), Value>, broker: map<Topic, Content>)

  predicate IsCached(cache: map<(string, string), Value>, device: string, item: Item) {
    (device, item.name) in cache && Equal(cache[(device, item.name)], item.value)
  }

  /** The first setting of this name. */
  predicate IsFirst(items: seq<Item>, i: int)
    requires 0 <= i < |items|
  {
    forall j :: 0 <= j < i ==> items[j].name != items[i].name
  }

  function OneSetting(m: Mirror, device: string, item: Item, outcome: Outcome): Mirror {
    if IsCached(m.cache, device, item) || outcome != Accepted then m
    else
      Mirror(m.cache[(device, item.name) := item.value],
             m.broker[HoldingTopic(device, item.name) := Setting(item.value)])
  }

  function AllSettings(m: Mirror, device: string, items: seq<Item>, outcomes: seq<Outcome>): Mirror
    requires |outcomes| == |items|
    decreases |items|
  {
    if items == [] then m
    else AllSettings(OneSetting(m, device, items[0], outcomes[0]), device, items[1..], outcomes[1..])
  }

  lemma NextSetting(m: Mirror, device: string, items: seq<Item>, outcomes: seq<Outcome>, i: nat)
    requires |outcomes| == |items| && i < |items|
    ensures AllSettings(m, device, items[i..], outcomes[i..]) ==
      AllSettings(OneSetting(m, device, items[i], outcomes[i]), device, items[i + 1..], outcomes[i + 1..])
  {
    assert items[i..][0] == items[i] && items[i..][1..] == items[i + 1..];
    assert outcomes[i..][0] == outcomes[i] && outcomes[i..][1..] == outcomes[i + 1..];
  }

  /** The first settings of a name so far were sent exactly when these cached values were not equal to theirs. */
  ghost predicate Judged(sent: seq<bool>, cache: map<(string, string), Value>, device: string, items: seq<Item>) {
    |sent| <= |items| && forall k :: 0 <= k < |sent| && IsFirst(items, k) ==>
      (sent[k] <==> !IsCached(cache, device, items[k]))
  }

  /** For names that are still to come both caches say the same. */
  ghost predicate StillUnknown(
    now: map<(string, string), Value>, was: map<(string, string), Value>, device: string, items: seq<Item>, i: nat)
  {
    forall k :: i <= k < |items| && IsFirst(items, k) ==>
      (IsCached(now, device, items[k]) <==> IsCached(was, device, items[k]))
  }

  /** Items of other names are cached in both alike. */
  ghost predicate OthersCachedAlike(
    now: map<(string, string), Value>, was: map<(string, string), Value>, device: string, item: Item)
  {
    forall other: Item :: other.name != item.name ==> (IsCached(now, device, other) <==> IsCached(was, device, other))
  }

  lemma UnknownOneMore(
      next: map<(string, string), Value>, now: map<(string, string), Value>, was: map<(string, string), Value>,
      device: string, items: seq<Item>, i: nat)
    requires i < |items| && StillUnknown(now, was, device, items, i) && OthersCachedAlike(next, now, device, items[i])
    ensures StillUnknown(next, was, device, items, i + 1)
  {}

  lemma JudgedOneMore(
      sent: seq<bool>, one: bool, cache: map<(string, string), Value>, device: string, items: seq<Item>)
    requires Judged(sent, cache, device, items) && |sent| < |items|
    requires IsFirst(items, |sent|) ==> (one <==> !IsCached(cache, device, items[|sent|]))
    ensures Judged(sent + [one], cache, device, items)
  {}

  /** Every cached setting is what the broker holds. */
  ghost predicate Mirrors(m: Mirror) {
    forall key :: key in m.cache ==>
      HoldingTopic(key.0, key.1) in m.broker && m.broker[HoldingTopic(key.0, key.1)] == Setting(m.cache[key])
  }

  class Publisher {
    var states: map<string, Payload>
    var texts: map<string, Json>
    var settings: map<(string, string), Value>
    /** The last content accepted on each topic. */
    ghost var broker: map<Topic, Content>

    ghost predicate Valid()
      reads this
    {
      && states.Keys == texts.Keys
      && (forall d :: d in states ==>
          && texts[d] == Dump(states[d])
          && StateTopic(d) in broker && broker[StateTopic(d)] == StateText(texts[d]))
      && Mirrors(Mirror(settings, broker))
    }

    constructor ()
      ensures Valid() && broker == map[]
    {
      states, texts, settings, broker := map[], map[], map[], map[];
    }

    /** The end of publish_input_register: two suppression checks, one publish, then both caches. */
    method PublishState(device: string, payload: Payload, outcome: Outcome) returns (sent: bool)
      requires Valid()
      modifies this
      ensures Valid()
      ensures sent <==> !(device in old(states) && EqualPayloads(old(states)[device], payload))
      ensures !sent ==>
        && device in states && EqualPayloads(states[device], payload)
        && StateTopic(device) in broker && broker[StateTopic(device)] == StateText(Dump(states[device]))
      ensures sent && outcome == Accepted ==>
        && broker == old(broker)[StateTopic(device) := StateText(Dump(payload))]
        && states == old(states)[device := payload] && settings == old(settings)
      ensures !sent || outcome != Accepted ==>
        broker == old(broker) && states == old(states) && settings == old(settings)
    {
      if device in states && EqualPayloads(states[device], payload) {
        return false;
      }
      var text := Dump(payload);
      if device in texts && texts[device] == text {
        EqualTextsAreEqualPayloads(states[device], payload);
        return false;
      }
      sent := true;
      if outcome == Accepted {
        broker := broker[StateTopic(device) := StateText(text)];
        states := states[device := payload];
        texts := texts[device := text];
      }
    }

    /** One setting: silent when cached, cached only when the broker takes it. */
    method PublishSetting(device: string, item: Item, outcome: Outcome) returns (sent: bool)
      requires Valid()
      modifies this`settings, this`broker
      ensures Valid()
      ensures Mirror(settings, broker) == OneSetting(Mirror(old(settings), old(broker)), device, item, outcome)
      ensures sent <==> !IsCached(old(settings), device, item)
      ensures OthersCachedAlike(settings, old(settings), device, item)
    {
      var key := (device, item.name);
      if key in settings && Equal(settings[key], item.value) {
        return false;
      }
      if outcome == Accepted {
        broker := broker[HoldingTopic(device, item.name) := Setting(item.value)];
        settings := settings[key := item.value];
      }
      return true;
    }

    /** publish_holding_register_input: each changed setting is published on its own, failures do not stop the rest. */
    method PublishSettings(device: string, items: seq<Item>, outcomes: seq<Outcome>) returns (sent: seq<bool>)
      requires Valid() && |outcomes| == |items|
      modifies this
      ensures Valid()
      ensures Mirror(settings, broker) == AllSettings(Mirror(old(settings), old(broker)), device, items, outcomes)
      ensures states == old(states)
      ensures |sent| == |items|
      ensures forall i :: 0 <= i < |items| && IsFirst(items, i) ==>
        (sent[i] <==> !IsCached(old(settings), device, items[i]))
    {
      sent := [];
      for i := 0 to |items|
        invariant Valid() && states == old(states) && |sent| == i
        invariant AllSettings(Mirror(settings, broker), device, items[i..], outcomes[i..]) ==
          AllSettings(Mirror(old(settings), old(broker)), device, items, outcomes)
        invariant Judged(sent, old(settings), device, items) && StillUnknown(settings, old(settings), device, items, i)
      {
        NextSetting(Mirror(settings, broker), device, items, outcomes, i);
        ghost var now := settings;
        var one := PublishSetting(device, items[i], outcomes[i]);
        UnknownOneMore(settings, now, old(settings), device, items, i);
        JudgedOneMore(sent, one, old(settings), device, items);
        sent := sent + [one];
      }
    }

    /** The optimistic NEO switch state: published past the cache, whose entry is dropped so that a real readback gets
        through. */
    method PublishSwitch(device: string, state: string, outcome: Outcome)
      requires Valid()
      modifies this
      ensures Valid() && states == old(states)
      ensures outcome == Accepted ==>
        && broker == old(broker)[HoldingTopic(device, "inverter_power") := Setting(Text(state))]
        && settings == old(settings) - {(device, "inverter_power")}
      ensures outcome != Accepted ==> broker == old(broker) && settings == old(settings)
    {
      if outcome == Accepted {
        broker := broker[HoldingTopic(device, SWITCH) := Setting(Text(state))];
        settings := settings - {(device, SWITCH)};
      }
    }

    method Clear()
      requires Valid()
      modifies this`states, this`texts, this`settings
      ensures Valid() && states == map[] && settings == map[]
    {
      states, texts, settings := map[], map[], map[];
    }
  }

  lemma {:induction false} MembersLength(p: seq<(string, Value)>)
    ensures |Members(p)| == if p == [] then 0 else 4 * |p| - 1
  {
    if p != [] {
      MembersLength(p[..|p| - 1]);
    }
  }

  lemma {:induction false} MembersInjective(p: seq<(string, Value)>, q: seq<(string, Value)>)
    requires Members(p) == Members(q)
    ensures p == q
    decreases |p|
  {
    MembersLength(p);
    MembersLength(q);
    if p != [] {
      var n := |p| - 1;
      MembersLength(p[..n]);
      MembersLength(q[..n]);
      var m := |Members(p)|;
      assert Members(p)[m - 3] == Name(p[n].0) && Members(q)[m - 3] == Name(q[n].0);
      assert Members(p)[m - 1] == Literal(p[n].1) && Members(q)[m - 1] == Literal(q[n].1);
      var k := |Members(p[..n])|;
      assert Members(p)[..k] == Members(p[..n]) && Members(q)[..k] == Members(q[..n]);
      MembersInjective(p[..n], q[..n]);
      assert p == p[..n] + [p[n]] && q == q[..n] + [q[n]];
    }
  }

  /** The text of a payload determines it, order and kinds included. */
  lemma DumpInjective(p: seq<(string, Value)>, q: seq<(string, Value)>)
    requires Dump(p) == Dump(q)
    ensures p == q
  {
    assert Dump(p)[1..|Dump(p)| - 1] == Members(p) && Dump(q)[1..|Dump(q)| - 1] == Members(q);
    MembersInjective(p, q);
  }

  lemma {:induction false} GetAt(p: seq<(string, Value)>, i: nat)
    requires DistinctNames(p) && i < |p|
    ensures Get(p, p[i].0) == Some(p[i].1)
  {
    if i > 0 {
      GetAt(p[1..], i - 1);
    }
  }

  /** So the second check never decides: payloads of equal text are equal as dictionaries. */
  lemma EqualTextsAreEqualPayloads(p: Payload, q: Payload)
    requires Dump(p) == Dump(q)
    ensures EqualPayloads(p, q)
  {
    DumpInjective(p, q);
    forall i | 0 <= i < |p|
      ensures Get(q, p[i].0) == Some(p[i].1)
    {
      GetAt(q, i);
    }
  }

  predicate SameOrder(p: Payload, q: Payload) { |p| == |q| && forall i :: 0 <= i < |p| ==> p[i].0 == q[i].0 }

  /** Values of the same name are of the same kind. */
  predicate SameKinds(p: Payload, q: Payload) {
    forall i, j :: 0 <= i < |p| && 0 <= j < |q| && p[i].0 == q[j].0 ==> SameKind(p[i].1, q[j].1)
  }

  /** A payload that is suppressed as equal has the broker's very text exactly when neither the order of the names
      nor the kind of a number has changed. */
  lemma EqualPayloadTextIff(p: Payload, q: Payload)
    requires EqualPayloads(p, q)
    ensures Dump(p) == Dump(q) <==> SameOrder(p, q) && SameKinds(p, q)
  {
    if Dump(p) == Dump(q) {
      DumpInjective(p, q);
    }
    if SameOrder(p, q) && SameKinds(p, q) {
      forall i | 0 <= i < |p|
        ensures p[i] == q[i]
      {
        GetAt(q, i);
        EqualSameKind(p[i].1, q[i].1);
      }
      assert p == q;
    }
  }

  lemma EqualSameKind(a: Value, b: Value)
    requires Equal(a, b) && SameKind(a, b)
    ensures a == b
  {
    if a.Int? {
      assert a.i == (a.i as real).Floor == (b.i as real).Floor == b.i;
    }
  }

  /** So a payload can be suppressed although its text would differ from the broker's: a number has changed its kind. */
  lemma KindChangeIsSuppressed()
    ensures var p: Payload, q: Payload := [("pac", Int(1))], [("pac", Float(1.0))];
      EqualPayloads(p, q) && SameOrder(p, q) && Dump(p) != Dump(q)
  {
    var p: Payload, q: Payload := [("pac", Int(1))], [("pac", Float(1.0))];
    GetAt(q, 0);
    assert p[0] != q[0];
    if Dump(p) == Dump(q) {
      DumpInjective(p, q);
    }
  }

  /** Or the names have changed their order. */
  lemma OrderChangeIsSuppressed(soc: Value, pac: Value)
    ensures var p: Payload, q: Payload := [("bat2_soc", soc), ("pac", pac)], [("pac", pac), ("bat2_soc", soc)];
      EqualPayloads(p, q) && SameKinds(p, q) && Dump(p) != Dump(q)
  {
    assert "bat2_soc"[0] == 'b' && "pac"[0] == 'p';
    var p: Payload, q: Payload := [("bat2_soc", soc), ("pac", pac)], [("pac", pac), ("bat2_soc", soc)];
    GetAt(q, 0);
    GetAt(q, 1);
    assert p[0] != q[0];
    if Dump(p) == Dump(q) {
      DumpInjective(p, q);
    }
  }

  /** When the broker takes everything, the last value given for a name is, up to equality, what its topic holds. */
  lemma {:induction false} AcceptedSettingsArrive(
      m: Mirror, device: string, items: seq<Item>, outcomes: seq<Outcome>, k: nat)
    requires |outcomes| == |items| && k < |items| && Mirrors(m)
    requires outcomes[k] == Accepted
    requires forall j :: k < j < |items| ==> items[j].name != items[k].name
    ensures var after, topic := AllSettings(m, device, items, outcomes), HoldingTopic(device, items[k].name);
      topic in after.broker && after.broker[topic].Setting? && Equal(after.broker[topic].value, items[k].value)
    decreases |items|
  {
    var next := OneSetting(m, device, items[0], outcomes[0]);
    if k == 0 {
      OthersLeaveName(next, device, items[1..], outcomes[1..], items[0].name);
    } else {
      AcceptedSettingsArrive(next, device, items[1..], outcomes[1..], k - 1);
    }
  }

  /** A setting whose name the call gives once: if its cached value is equal, or the broker does not take it, nothing
      changes for it; otherwise cache and topic hold it. */
  lemma {:induction false} EachOnItsOwn(
      m: Mirror, device: string, items: seq<Item>, outcomes: seq<Outcome>, k: nat)
    requires |outcomes| == |items| && k < |items|
    requires forall j :: 0 <= j < |items| && j != k ==> items[j].name != items[k].name
    ensures var after, key := AllSettings(m, device, items, outcomes), (device, items[k].name);
      var topic, quiet := HoldingTopic(device, items[k].name),
        (key in m.cache && Equal(m.cache[key], items[k].value)) || outcomes[k] != Accepted;
      && Lookup(after.cache, key) == (if quiet then Lookup(m.cache, key) else Some(items[k].value))
      && Lookup(after.broker, topic) == (if quiet then Lookup(m.broker, topic) else Some(Setting(items[k].value)))
    decreases |items|
  {
    var next := OneSetting(m, device, items[0], outcomes[0]);
    if k == 0 {
      OthersLeaveName(next, device, items[1..], outcomes[1..], items[0].name);
    } else {
      EachOnItsOwn(next, device, items[1..], outcomes[1..], k - 1);
    }
  }

  /** A name that is not given keeps its cached value and its topic. */
  lemma {:induction false} OthersLeaveName(
      m: Mirror, device: string, items: seq<Item>, outcomes: seq<Outcome>, name: string)
    requires |outcomes| == |items| && forall j :: 0 <= j < |items| ==> items[j].name != name
    ensures var after := AllSettings(m, device, items, outcomes);
      && Lookup(after.cache, (device, name)) == Lookup(m.cache, (device, name))
      && Lookup(after.broker, HoldingTopic(device, name)) == Lookup(m.broker, HoldingTopic(device, name))
    decreases |items|
  {
    if items != [] {
      OthersLeaveName(OneSetting(m, device, items[0], outcomes[0]), device, items[1..], outcomes[1..], name);
    }
  }
}
