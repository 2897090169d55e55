/** Repair of a log file whose last record a crash cut short. */
module DiagnosticLog {
  import opened Wire

  const NEWLINE: byte := 10
  const CHUNK := 8192

  predicate Terminated(s: seq<byte>) { s == [] || s[|s| - 1] == NEWLINE }

  /** A position where a record may begin. */
  predicate Boundary(s: seq<byte>, at: nat) { at <= |s| && (at == 0 || s[at - 1] == NEWLINE) }

  ghost predicate NoNewlineFrom(s: seq<byte>, at: nat) { forall i :: at <= i < |s| ==> s[i] != NEWLINE }

  /** The position after the last newline, or 0. */
  function TailStart(s: seq<byte>): (at: nat)
    ensures Boundary(s, at) && NoNewlineFrom(s, at)
  {
    if Terminated(s) then |s| else TailStart(s[..|s| - 1])
  }

  lemma TailStartIsUnique(s: seq<byte>, at: nat)
    requires Boundary(s, at) && NoNewlineFrom(s, at)
    ensures at == TailStart(s)
  {}

  /** What repair makes of a file: complete says whether an unterminated tail is a whole record. */
  function Repaired(s: seq<byte>, complete: seq<byte> -> bool, maxBytes: nat): (r: seq<byte>)
    ensures Terminated(r)
  {
    RepairedAt(s, TailStart(s), complete, maxBytes)
  }

  /** The same with the start of the tail given. */
  function RepairedAt(s: seq<byte>, at: nat, complete: seq<byte> -> bool, maxBytes: nat): seq<byte>
    requires at <= |s|
  {
    if at == |s| then s else if |s| - at <= maxBytes && complete(s[at..]) then s + [NEWLINE] else s[..at]
  }

  /** bytes.rfind of a newline */
  function RFind(s: seq<byte>): (at: int)
    ensures -1 <= at < |s|
    ensures at >= 0 ==> s[at] == NEWLINE
    ensures NoNewlineFrom(s, at + 1)
  {
    if s == [] then -1 else if s[|s| - 1] == NEWLINE then |s| - 1 else RFind(s[..|s| - 1])
  }

  /** Chunks collected from the end of a file backwards, in file order. */
  function JoinReversed(chunks: seq<seq<byte>>): seq<byte> {
    if chunks == [] then [] else JoinReversed(chunks[1..]) + chunks[0]
  }

  lemma {:induction false} JoinReversedAppend(chunks: seq<seq<byte>>, next: seq<byte>)
    ensures JoinReversed(chunks + [next]) == next + JoinReversed(chunks)
  {
    if chunks == [] {
      assert chunks + [next] == [next] && [next][1..] == [];
    } else {
      assert (chunks + [next])[1..] == chunks[1..] + [next];
      JoinReversedAppend(chunks[1..], next);
      ConcatAssociates(next, JoinReversed(chunks[1..]), chunks[0]);
    }
  }

  /** One chunk before position: the part after its last newline, and whether it has one. */
  method ReadChunk(file: seq<byte>, position: nat) returns (start: nat, found: bool, suffix: seq<byte>)
    requires 0 < position <= |file|
    ensures start < position && |suffix| <= position - start
    ensures suffix == file[position - |suffix|..position]
    ensures forall i :: position - |suffix| <= i < position ==> file[i] != NEWLINE
    ensures found ==> start < position - |suffix| && file[position - |suffix| - 1] == NEWLINE
    ensures !found ==> position - |suffix| == start
  {
    start := if position > CHUNK then position - CHUNK else 0;
    var chunk := file[start..position];
    var newline := RFind(chunk);
    found := newline >= 0;
    suffix := if found then chunk[newline + 1..] else chunk;
    SliceOfSlice(file, start, position, newline + 1, |chunk|);
    assert found ==> chunk[newline] == file[start + newline];
    forall i | position - |suffix| <= i < position
      ensures file[i] != NEWLINE
    {
      assert chunk[i - start] == file[i];
    }
  }

  /** The backward scan: find where the unterminated tail starts and collect it unless it is too long. */
  method ScanTail(file: seq<byte>, maxBytes: nat) returns (boundary: nat, tail: Option<seq<byte>>)
    ensures boundary == TailStart(file)
    ensures tail == if |file| - boundary <= maxBytes then Some(file[boundary..]) else None
  {
    boundary := |file|;
    var position: nat, tailSize, found := |file|, 0, false;
    var chunks: Option<seq<seq<byte>>> := Some([]);
    assert file[boundary..] == [];
    while position > 0 && !found
      invariant position <= boundary <= |file|
      invariant if found then position < boundary && file[boundary - 1] == NEWLINE else position == boundary
      invariant NoNewlineFrom(file, boundary)
      invariant chunks.Some? <==> |file| - boundary <= maxBytes
      invariant chunks.Some? ==> JoinReversed(chunks.value) == file[boundary..] && tailSize == |file| - boundary
      decreases position
    {
      var start, suffix;
      start, found, suffix := ReadChunk(file, position);
      if chunks.Some? && |suffix| + tailSize <= maxBytes {
        JoinReversedAppend(chunks.value, suffix);
        assert file[position - |suffix|..] == suffix + file[position..];
        chunks, tailSize := Some(chunks.value + [suffix]), tailSize + |suffix|;
      } else {
        chunks := None;
      }
      boundary := position - |suffix|;
      position := start;
    }
    TailStartIsUnique(file, boundary);
    tail := if chunks.Some? then Some(JoinReversed(chunks.value)) else None;
  }

  method RepairIncompleteTail(file: seq<byte>, complete: seq<byte> -> bool, maxBytes: nat)
      returns (repaired: seq<byte>, size: nat)
    ensures repaired == Repaired(file, complete, maxBytes)
    ensures size == |repaired|
  {
    if |file| == 0 || file[|file| - 1] == NEWLINE {
      return file, |file|;
    }
    var boundary, tail := ScanTail(file, maxBytes);
    if tail.Some? && complete(tail.value) {
      return file + [NEWLINE], |file| + 1;
    }
    return file[..boundary], boundary;
  }

  /** Repair never loses an earlier record: the file up to its last newline is kept, byte for byte. */
  lemma RepairKeepsRecords(s: seq<byte>, complete: seq<byte> -> bool, maxBytes: nat)
    ensures var r := Repaired(s, complete, maxBytes);
      && s[..TailStart(s)] <= r
      && (r == s || r == s + [NEWLINE] || r == s[..TailStart(s)])
      && Repaired(r, complete, maxBytes) == r
  {
    var r := Repaired(s, complete, maxBytes);
    assert TailStart(r) == |r|;
  }

  /** Whole records stay as they are; after them, an unfinished one stays, completed by its newline, exactly when it is
      not too long and reads as a whole record, and otherwise goes. */
  lemma RepairDecides(records: seq<byte>, tail: seq<byte>, complete: seq<byte> -> bool, maxBytes: nat)
    requires records == [] || records[|records| - 1] == 10
    requires tail != [] && forall i :: 0 <= i < |tail| ==> tail[i] != 10
    ensures Repaired(records, complete, maxBytes) == records
    ensures Repaired(records + tail, complete, maxBytes) ==
      if |tail| <= maxBytes && complete(tail) then records + tail + [10] else records
  {
    TailStartIsUnique(records, |records|);
    TailStartIsUnique(records + tail, |records|);
    assert (records + tail)[|records|..] == tail && (records + tail)[..|records|] == records;
  }

  /** Repair can push a file over the limit, in exactly one way. */
  lemma RepairOverflowsIff(s: seq<byte>, complete: seq<byte> -> bool, maxBytes: nat)
    requires |s| <= maxBytes
    ensures |Repaired(s, complete, maxBytes)| > maxBytes <==>
      |s| == maxBytes && !Terminated(s) && complete(s[TailStart(s)..])
  {}

  /** A JSON text of n letters. */
  function Quoted(n: nat): seq<byte> { [34] + Repeat(97, n) + [34] }

  /** A quoted text that fills a file to its limit, as another program may leave it there: any reader that knows
      such texts for records makes repair exceed the limit. */
  lemma RepairOverflowExample(complete: seq<byte> -> bool, maxBytes: nat)
    requires maxBytes >= 2 && forall n: nat :: complete(Quoted(n))
    ensures var s := Quoted(maxBytes - 2);
      |s| == maxBytes && |Repaired(s, complete, maxBytes)| == maxBytes + 1
  {
    var s := Quoted(maxBytes - 2);
    TailStartIsUnique(s, 0);
    assert s[0..] == s;
  }
}
