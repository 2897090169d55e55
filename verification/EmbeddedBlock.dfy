/** The search for a register block that ends exactly before the trailer of a 0x0103 packet. */
module EmbeddedBlock {
  import opened Wire

  const MIN_PACKET := 24 + 30 + 6 + 2
  const PREFIX := 54
  const TRAILER_SIZE := 2
  const MAX_COUNT := 2048

  datatype Block = Block(offset: nat, start: int, end: int, values: seq<int>)

  /** The big-endian words of a byte string, ignoring an odd last byte. */
  function Words(s: seq<byte>): seq<int> {
    seq(|s| / 2, i requires 0 <= i < |s| / 2 => GetU16(s, 2 * i))
  }

  /** An offset holds an exact fit: a plausible range whose values end at dataEnd. */
  predicate Fits(data: seq<byte>, offset: int, dataEnd: int) {
    && 0 <= offset && offset + 4 <= |data|
    && var start, end := GetU16(data, offset), GetU16(data, offset + 2);
      && start <= end && end - start + 1 <= MAX_COUNT
      && offset + 4 + (end - start + 1) * 2 == dataEnd
  }

  function Count(data: seq<byte>, offset: int): int
    requires 0 <= offset && offset + 4 <= |data|
  {
    GetU16(data, offset + 2) - GetU16(data, offset) + 1
  }

  /** The reference: try every offset in order, keep the first block of the largest count. */
  function BruteForce(data: seq<byte>, dataEnd: int, upTo: nat): (best: Option<nat>)
    ensures best.Some? ==> best.value < upTo && Fits(data, best.value, dataEnd)
    ensures best.None? ==> forall o :: 0 <= o < upTo ==> !Fits(data, o, dataEnd)
    ensures best.Some? ==> forall o :: 0 <= o < upTo && Fits(data, o, dataEnd) ==>
      Count(data, o) < Count(data, best.value) || (Count(data, o) == Count(data, best.value) && best.value <= o)
  {
    if upTo == 0 then None else
    var best := BruteForce(data, dataEnd, upTo - 1);
    if Fits(data, upTo - 1, dataEnd) && (best.None? || Count(data, upTo - 1) > Count(data, best.value))
      then Some(upTo - 1)
    else best
  }

  /** The block that the brute-force search selects in a whole packet. */
  function Reference(packet: seq<byte>): Option<Block> {
    if |packet| < MIN_PACKET then None else
    var data := packet[PREFIX..];
    var dataEnd := |data| - TRAILER_SIZE;
    match BruteForce(data, dataEnd, |data|)
    case None => None
    case Some(offset) =>
      Some(Block(offset, GetU16(data, offset), GetU16(data, offset + 2), Words(data[offset + 4..dataEnd])))
  }

  /** An exact fit leaves no freedom: the offset determines the count, so a later fit is a smaller one. */
  lemma FitCount(data: seq<byte>, offset: int, dataEnd: int)
    requires Fits(data, offset, dataEnd)
    ensures 2 * Count(data, offset) == dataEnd - 4 - offset
    ensures dataEnd - 4 - 2 * MAX_COUNT <= offset <= dataEnd - 6
  {}

  lemma OddDistanceNeverFits(data: seq<byte>, offset: int, dataEnd: int, half: int)
    requires dataEnd - offset == 2 * half + 1
    ensures !Fits(data, offset, dataEnd)
  {
    if Fits(data, offset, dataEnd) {
      FitCount(data, offset, dataEnd);
      assert false;
    }
  }

  /** The first exact fit of this stretch of offsets, if it has one, with its range and count. */
  ghost predicate FirstOf(
      data: seq<byte>, dataEnd: int, from: nat, to: nat, best: Option<(nat, int, int)>, bestCount: int)
  {
    && (best.None? ==> bestCount == 0 && forall o :: from <= o < to ==> !Fits(data, o, dataEnd))
    && (best.Some? ==> var (offset, start, end) := best.value;
        && from <= offset < to && Fits(data, offset, dataEnd) && bestCount == Count(data, offset)
        && start == GetU16(data, offset) && end == GetU16(data, offset + 2)
        && forall o :: from <= o < offset ==> !Fits(data, o, dataEnd))
  }

  lemma NothingNew(data: seq<byte>, dataEnd: int, from: nat, to: nat, best: Option<(nat, int, int)>, bestCount: int)
    requires FirstOf(data, dataEnd, from, to, best, bestCount) && from <= to && !Fits(data, to + 1, dataEnd)
    requires best.Some? || !Fits(data, to, dataEnd)
    ensures FirstOf(data, dataEnd, from, to + 2, best, bestCount)
  {}

  lemma NewFirst(data: seq<byte>, dataEnd: int, from: nat, to: nat)
    requires FirstOf(data, dataEnd, from, to, None, 0) && from <= to && Fits(data, to, dataEnd)
    ensures FirstOf(data, dataEnd, from, to + 2, Some((to, GetU16(data, to), GetU16(data, to + 2))), Count(data, to))
  {}

  /** A later exact fit is smaller, so it never replaces an earlier one. */
  lemma LaterIsSmaller(data: seq<byte>, dataEnd: int, earlier: nat, later: nat)
    requires earlier < later && Fits(data, earlier, dataEnd) && Fits(data, later, dataEnd)
    ensures Count(data, later) < Count(data, earlier)
  {
    FitCount(data, earlier, dataEnd);
    FitCount(data, later, dataEnd);
  }

  /** No offset outside the searched stretch fits. */
  lemma FitsAreSearched(data: seq<byte>, dataEnd: int, from: nat, to: nat, o: int)
    requires Fits(data, o, dataEnd) && to >= dataEnd - 5
    requires from <= (if dataEnd - 4 - 2 * MAX_COUNT > 0 then dataEnd - 4 - 2 * MAX_COUNT else 0) + 1
    requires (dataEnd - from) % 2 == 0
    ensures from <= o < to
  {
    FitCount(data, o, dataEnd);
  }

  lemma FirstOfAll(data: seq<byte>, dataEnd: int, from: nat, to: nat, best: Option<(nat, int, int)>, bestCount: int)
    requires FirstOf(data, dataEnd, from, to, best, bestCount) && to >= dataEnd - 5
    requires from <= (if dataEnd - 4 - 2 * MAX_COUNT > 0 then dataEnd - 4 - 2 * MAX_COUNT else 0) + 1
    requires (dataEnd - from) % 2 == 0
    ensures best.None? ==> forall o :: 0 <= o < |data| ==> !Fits(data, o, dataEnd)
    ensures best.Some? ==> forall o :: 0 <= o < best.value.0 ==> !Fits(data, o, dataEnd)
  {
    forall o | Fits(data, o, dataEnd)
      ensures from <= o < to
    {
      FitsAreSearched(data, dataEnd, from, to, o);
    }
  }

  /** The optimised loop: even distances only, and no start too far from the end. */
  method Search(data: seq<byte>, dataEnd: int) returns (best: Option<(nat, int, int)>)
    requires dataEnd == |data| - TRAILER_SIZE
    ensures best.None? ==> forall o :: 0 <= o < |data| ==> !Fits(data, o, dataEnd)
    ensures best.Some? ==> var (offset, start, end) := best.value;
      && Fits(data, offset, dataEnd) && start == GetU16(data, offset) && end == GetU16(data, offset + 2)
      && forall o :: 0 <= o < offset ==> !Fits(data, o, dataEnd)
  {
    best := None;
    var bestCount := 0;
    var searchStart := if dataEnd - 4 - 2 * MAX_COUNT > 0 then dataEnd - 4 - 2 * MAX_COUNT else 0;
    searchStart := searchStart + (dataEnd - searchStart) % 2;
    var offset := searchStart;
    ghost var half := (dataEnd - searchStart) / 2;
    while offset < dataEnd - 5
      invariant searchStart <= offset && dataEnd - offset == 2 * half
      invariant FirstOf(data, dataEnd, searchStart, offset, best, bestCount)
    {
      OddDistanceNeverFits(data, offset + 1, dataEnd, half - 1);
      best, bestCount := Try(data, dataEnd, searchStart, offset, best, bestCount);
      offset, half := offset + 2, half - 1;
    }
    FirstOfAll(data, dataEnd, searchStart, offset, best, bestCount);
  }

  /** One offset: a plausible range that fits exactly and is larger than the best so far becomes the best. */
  method Try(data: seq<byte>, dataEnd: int, ghost from: nat, offset: nat, best: Option<(nat, int, int)>, bestCount: int)
      returns (next: Option<(nat, int, int)>, nextCount: int)
    requires from <= offset < dataEnd - 5 && dataEnd == |data| - TRAILER_SIZE && !Fits(data, offset + 1, dataEnd)
    requires FirstOf(data, dataEnd, from, offset, best, bestCount)
    ensures FirstOf(data, dataEnd, from, offset + 2, next, nextCount)
  {
    var start, end := GetU16(data, offset), GetU16(data, offset + 2);
    next, nextCount := best, bestCount;
    if end >= start {
      var count := end - start + 1;
      if count <= MAX_COUNT && offset + 4 + count * 2 == dataEnd {
        if best.Some? {
          LaterIsSmaller(data, dataEnd, best.value.0, offset);
        }
        if count > bestCount {
          NewFirst(data, dataEnd, from, offset);
          return Some((offset, start, end)), count;
        }
      }
    }
    NothingNew(data, dataEnd, from, offset, best, bestCount);
  }

  method FindEmbeddedRegisterBlock(packet: seq<byte>) returns (found: Option<Block>)
    ensures found == Reference(packet)
  {
    if |packet| < MIN_PACKET {
      return None;
    }
    var data := packet[PREFIX..];
    var dataEnd := |data| - TRAILER_SIZE;
    var best := Search(data, dataEnd);
    if best.None? {
      return None;
    }
    var (offset, start, end) := best.value;
    FirstFitIsLargest(data, dataEnd, offset);
    return Some(Block(offset, start, end, Words(data[offset + 4..dataEnd])));
  }

  /** The first fitting offset is the one the reference selects. */
  lemma FirstFitIsLargest(data: seq<byte>, dataEnd: int, first: nat)
    requires dataEnd == |data| - TRAILER_SIZE && Fits(data, first, dataEnd)
    requires forall o :: 0 <= o < first ==> !Fits(data, o, dataEnd)
    ensures BruteForce(data, dataEnd, |data|) == Some(first)
  {
    var best := BruteForce(data, dataEnd, |data|);
    FitCount(data, first, dataEnd);
    FitCount(data, best.value, dataEnd);
  }

  lemma WordsAre(data: seq<byte>, from: nat, to: nat)
    requires from <= to <= |data|
    ensures forall i :: 0 <= i < (to - from) / 2 ==> Words(data[from..to])[i] == GetU16(data, from + 2 * i)
  {}

  /** What the reference promises of every packet: the widest exact fit, or none where no offset fits. */
  lemma ReferenceIsLargestFit(packet: seq<byte>)
    requires |packet| >= MIN_PACKET
    ensures var data := packet[PREFIX..]; var dataEnd := |data| - TRAILER_SIZE;
      && (Reference(packet).None? <==> forall o: int :: !Fits(data, o, dataEnd))
      && (Reference(packet).Some? ==> var b := Reference(packet).value;
          && Fits(data, b.offset, dataEnd)
          && |b.values| == b.end - b.start + 1
          && (forall i :: 0 <= i < |b.values| ==> b.values[i] == GetU16(data, b.offset + 4 + 2 * i))
          && forall o: int :: Fits(data, o, dataEnd) ==>
            Count(data, o) <= |b.values| && (Count(data, o) == |b.values| ==> o == b.offset))
  {
    var data := packet[PREFIX..];
    var dataEnd := |data| - TRAILER_SIZE;
    if Reference(packet).Some? {
      FitCount(data, Reference(packet).value.offset, dataEnd);
      WordsAre(data, Reference(packet).value.offset + 4, dataEnd);
      forall o: int | Fits(data, o, dataEnd)
        ensures 2 * Count(data, o) == dataEnd - 4 - o
      {
        FitCount(data, o, dataEnd);
      }
    }
  }
}
