/** Telemetry names that belong to one battery slot, and moving them to another slot. */
module SlotKeys {
  import opened Wire

  const SLOTS: seq<int> := [2, 3, 4]

  predicate IsSlot(n: int) { n == 2 || n == 3 || n == 4 }

  function Digit(slot: int): char
    requires IsSlot(slot)
  {
    if slot == 2 then '2' else if slot == 3 then '3' else '4'
  }

  predicate IsSlotDigit(c: char) { c == '2' || c == '3' || c == '4' }

  function SlotOf(c: char): int
    requires IsSlotDigit(c)
  {
    if c == '2' then 2 else if c == '3' then 3 else 4
  }

  predicate StartsWith(name: string, prefix: string) {
    |prefix| <= |name| && forall i :: 0 <= i < |prefix| ==> name[i] == prefix[i]
  }

  /** The prefix is followed by a slot digit and then by something. */
  predicate DigitAfter(name: string, prefix: string) {
    StartsWith(name, prefix) && |name| > |prefix| && IsSlotDigit(name[|prefix|])
  }

  predicate UpperOrUnderscore(c: char) { 'A' <= c <= 'Z' || c == '_' }

  /** The end of the name as a regular expression's `$` sees it: also just before a final line feed. */
  predicate AtEnd(name: string, at: nat) { at == |name| || (at == |name| - 1 && name[at] == '\n') }

  predicate EndOrUnderscore(name: string, at: nat) { AtEnd(name, at) || (at < |name| && name[at] == '_') }

  /** Where the four name patterns find their slot digit. */
  function DigitPosition(name: string): (at: Option<nat>)
    ensures at.Some? ==> at.value < |name| && IsSlotDigit(name[at.value])
  {
    if DigitAfter(name, "bat") && |name| > 4 && name[4] == '_' then Some(3)
    else if DigitAfter(name, "bat_") && |name| > 5 && name[5] == '_' then Some(4)
    else if DigitAfter(name, "battery") && |name| > 8 && UpperOrUnderscore(name[8]) then Some(7)
    else if (DigitAfter(name, "maxcvbat") || DigitAfter(name, "mincvbat")) && EndOrUnderscore(name, 9) then Some(8)
    else None
  }

  function LogicalSlot(name: string): (slot: Option<int>)
    ensures slot.Some? ==> IsSlot(slot.value)
  {
    match DigitPosition(name)
    case None => None
    case Some(at) => Some(SlotOf(name[at]))
  }

  function RemapKey(name: string, slot: int): string
    requires IsSlot(slot)
  {
    match DigitPosition(name)
    case None => name
    case Some(at) => name[..at] + [Digit(slot)] + name[at + 1..]
  }

  /** A pattern splits the name at this position: what comes before the digit, and what must follow it. */
  predicate Splits(name: string, at: nat) {
    && at < |name| && IsSlotDigit(name[at])
    && var prefix := name[..at];
      || ((prefix == "bat" || prefix == "bat_") && at + 1 < |name| && name[at + 1] == '_')
      || (prefix == "battery" && at + 1 < |name| && UpperOrUnderscore(name[at + 1]))
      || ((prefix == "maxcvbat" || prefix == "mincvbat") && EndOrUnderscore(name, at + 1))
  }

  lemma StartsWithIff(name: string, prefix: string, at: nat)
    requires at <= |name|
    ensures name[..at] == prefix <==> at == |prefix| && StartsWith(name, prefix)
  {}

  /** At most one pattern splits a name, and where it does the digit is found. */
  lemma DigitPositionIff(name: string, at: nat)
    ensures DigitPosition(name) == Some(at) <==> Splits(name, at)
  {
    if at <= |name| {
      StartsWithIff(name, "bat", at);
      StartsWithIff(name, "bat_", at);
      StartsWithIff(name, "battery", at);
      StartsWithIff(name, "maxcvbat", at);
      StartsWithIff(name, "mincvbat", at);
    }
    assert "bat_"[3] == '_' && "battery"[3] == 't' && "maxcvbat"[0] == 'm' && "mincvbat"[0] == 'm'
      && "mincvbat"[1] == 'i';
  }

  /** Moving a name keeps it a slot name with its digit in the same place, now naming the new slot. */
  lemma RemapMovesSlot(name: string, slot: int)
    requires IsSlot(slot) && LogicalSlot(name).Some?
    ensures DigitPosition(RemapKey(name, slot)) == DigitPosition(name)
    ensures LogicalSlot(RemapKey(name, slot)) == Some(slot)
  {
    var at, moved := DigitPosition(name).value, RemapKey(name, slot);
    assert |moved| == |name| && moved[at] == Digit(slot);
    assert forall i :: 0 <= i < |name| && i != at ==> moved[i] == name[i];
    SamePosition(name, moved, at);
  }

  /** Names that differ in the digit alone are recognised by the same pattern. */
  lemma SamePosition(name: string, other: string, at: nat)
    requires DigitPosition(name) == Some(at) && |other| == |name| && IsSlotDigit(other[at])
    requires forall i :: 0 <= i < |name| && i != at ==> other[i] == name[i]
    ensures DigitPosition(other) == Some(at)
  {
    assert name[0] == other[0] && name[1] == other[1] && name[2] == other[2];
    assert "bat"[0] == 'b' && "bat_"[3] == '_' && "battery"[3] == 't' && "maxcvbat"[0] == 'm' && "mincvbat"[0] == 'm';
  }

  lemma RemapToOwnSlot(name: string)
    requires LogicalSlot(name).Some?
    ensures RemapKey(name, LogicalSlot(name).value) == name
  {}

  /** What a move leaves alone. */
  lemma RemapParts(name: string, slot: int, at: nat)
    requires IsSlot(slot) && DigitPosition(name) == Some(at)
    ensures var moved := RemapKey(name, slot);
      && |moved| == |name| && moved[..at] == name[..at] && moved[at + 1..] == name[at + 1..] && moved[at] == Digit(slot)
  {
    var moved := RemapKey(name, slot);
    assert moved == name[..at] + [Digit(slot)] + name[at + 1..];
  }

  lemma SameParts(a: string, b: string, at: nat)
    requires at < |a| == |b| && a[..at] == b[..at] && a[at] == b[at] && a[at + 1..] == b[at + 1..]
    ensures a == b
  {
    assert a == a[..at] + [a[at]] + a[at + 1..];
    assert b == b[..at] + [b[at]] + b[at + 1..];
  }

  /** Two names moved to the same name went to the same slot and differ at most in their own slots. */
  lemma RemapInjective(a: string, s: int, b: string, t: int)
    requires IsSlot(s) && IsSlot(t) && LogicalSlot(a).Some? && LogicalSlot(b).Some?
    requires RemapKey(a, s) == RemapKey(b, t)
    ensures s == t
    ensures b == RemapKey(a, LogicalSlot(b).value)
    ensures LogicalSlot(a) == LogicalSlot(b) ==> a == b
  {
    RemapMovesSlot(a, s);
    RemapMovesSlot(b, t);
    var at := DigitPosition(a).value;
    RemapParts(a, s, at);
    RemapParts(b, t, at);
    RemapParts(a, LogicalSlot(b).value, at);
    SameParts(RemapKey(a, LogicalSlot(b).value), b, at);
    if LogicalSlot(a) == LogicalSlot(b) {
      RemapToOwnSlot(a);
    }
  }

  /** A second move overrides the first. */
  lemma {:induction false} RemapTwice(name: string, s: int, t: int)
    requires IsSlot(s) && IsSlot(t)
    ensures RemapKey(RemapKey(name, s), t) == RemapKey(name, t)
  {
    if LogicalSlot(name).Some? {
      RemapMovesSlot(name, s);
    }
  }
}
