/** Appending to a rotated log while any file operation may fail. */
module LogRotation {
  import opened Wire
  import opened DiagnosticLog

  // ---- lines

  /** text.splitlines(keepends=True) for text whose only line separator is the newline. */
  function SplitLines(s: seq<byte>): seq<seq<byte>> { LinesFrom(s, 0) }

  function LinesFrom(s: seq<byte>, from: nat): seq<seq<byte>>
    requires from <= |s|
    decreases |s| - from
  {
    if from == |s| then [] else [s[from..LineEnd(s, from)]] + LinesFrom(s, LineEnd(s, from))
  }

  /** Where the line that begins here ends: after its newline, or at the end of the text. */
  function LineEnd(s: seq<byte>, from: nat): (end: nat)
    requires from < |s|
    ensures from < end <= |s|
    ensures s[end - 1] == NEWLINE || end == |s|
    ensures forall k :: from <= k < end - 1 ==> s[k] != NEWLINE
    decreases |s| - from
  {
    if s[from] == NEWLINE || from + 1 == |s| then from + 1 else LineEnd(s, from + 1)
  }

  /** One whole record: its only newline, if it has one, is at its end, and only the last line of a text may lack it. */
  ghost predicate OneRecord(line: seq<byte>, unfinished: bool) {
    && line != [] && (forall k :: 0 <= k < |line| - 1 ==> line[k] != NEWLINE)
    && (unfinished || line[|line| - 1] == NEWLINE)
  }

  lemma LineIsOneRecord(s: seq<byte>, from: nat)
    requires from < |s|
    ensures var end := LineEnd(s, from);
      OneRecord(s[from..end], end == |s| && !Terminated(s))
  {
    var end := LineEnd(s, from);
    var line := s[from..end];
    assert forall k :: 0 <= k < |line| ==> line[k] == s[from + k];
  }

  lemma {:induction false} LinesFromAreRecords(s: seq<byte>, from: nat, i: nat)
    requires from <= |s| && i < |LinesFrom(s, from)|
    ensures OneRecord(LinesFrom(s, from)[i], i == |LinesFrom(s, from)| - 1 && !Terminated(s))
    decreases |s| - from
  {
    var end := LineEnd(s, from);
    if i > 0 {
      LinesFromAreRecords(s, end, i - 1);
    } else {
      LineIsOneRecord(s, from);
    }
  }

  /** Every line is one whole record, but for the last one of an unterminated text. */
  lemma LinesAreRecords(s: seq<byte>, i: nat)
    requires i < |SplitLines(s)|
    ensures OneRecord(SplitLines(s)[i], i == |SplitLines(s)| - 1 && !Terminated(s))
  {
    LinesFromAreRecords(s, 0, i);
  }

  /** The lines that fit a file at all; longer ones are discarded. */
  function Accepted(lines: seq<seq<byte>>, maxBytes: nat): seq<byte> {
    if lines == [] then [] else
    (if |lines[0]| <= maxBytes then lines[0] else []) + Accepted(lines[1..], maxBytes)
  }

  ghost predicate AllFit(lines: seq<seq<byte>>, maxBytes: nat)
  {
    forall i :: 0 <= i < |lines| ==> |lines[i]| <= maxBytes
  }

  lemma RestFits(first: seq<byte>, rest: seq<seq<byte>>, maxBytes: nat)
    requires AllFit([first] + rest, maxBytes)
    ensures AllFit(rest, maxBytes) && Accepted([first] + rest, maxBytes) == first + Accepted(rest, maxBytes)
  {
    assert ([first] + rest)[0] == first && ([first] + rest)[1..] == rest;
    assert forall i :: 0 <= i < |rest| ==> rest[i] == ([first] + rest)[i + 1];
  }

  lemma {:induction false} ShortLinesFrom(s: seq<byte>, from: nat, maxBytes: nat)
    requires from <= |s| && AllFit(LinesFrom(s, from), maxBytes)
    ensures Accepted(LinesFrom(s, from), maxBytes) == s[from..]
    decreases |s| - from
  {
    if from < |s| {
      var end := LineEnd(s, from);
      RestFits(s[from..end], LinesFrom(s, end), maxBytes);
      ShortLinesFrom(s, end, maxBytes);
      assert s[from..end] + s[end..] == s[from..];
    }
  }

  /** Where no line is too long nothing is discarded: the lines are exactly the text. */
  lemma ShortLinesAreAll(s: seq<byte>, maxBytes: nat)
    requires AllFit(SplitLines(s), maxBytes)
    ensures Accepted(SplitLines(s), maxBytes) == s
  {
    ShortLinesFrom(s, 0, maxBytes);
    assert s[0..] == s;
  }

  lemma TerminatedConcat(s: seq<byte>, line: seq<byte>)
    requires line != []
    ensures Terminated(s + line) <==> Terminated(line)
  {}

  /** Where reached and the accepted lines from i on make up the goal, so do reached with line i and the lines after
      it. */
  lemma AcceptStep(reached: seq<byte>, lines: seq<seq<byte>>, i: nat, maxBytes: nat, goal: seq<byte>)
    requires i < |lines| && reached + Accepted(lines[i..], maxBytes) == goal
    ensures reached <= goal
    ensures (if |lines[i]| <= maxBytes then reached + lines[i] else reached) + Accepted(lines[i + 1..], maxBytes) ==
      goal
  {
    assert lines[i..][0] == lines[i] && lines[i..][1..] == lines[i + 1..];
    var kept := if |lines[i]| <= maxBytes then lines[i] else [];
    ConcatAssociates(reached, kept, Accepted(lines[i + 1..], maxBytes));
    assert kept == [] ==> reached + kept == reached;
  }

  // ---- files

  function Content(files: map<nat, seq<byte>>, i: nat): seq<byte> { if i in files then files[i] else [] }

  /** The numbered files from the oldest down to (and including) file `low`, concatenated. */
  function Joined(files: map<nat, seq<byte>>, high: nat, low: nat): seq<byte>
    requires low <= high + 1
    decreases high + 1 - low
  {
    if low == high + 1 then [] else Joined(files, high, low + 1) + Content(files, low)
  }

  lemma {:induction false} JoinedAgree(a: map<nat, seq<byte>>, b: map<nat, seq<byte>>, high: nat, low: nat)
    requires low <= high + 1
    requires forall i :: low <= i <= high ==> Content(a, i) == Content(b, i)
    ensures Joined(a, high, low) == Joined(b, high, low)
    decreases high + 1 - low
  {
    if low <= high {
      JoinedAgree(a, b, high, low + 1);
    }
  }

  function Moved(files: map<nat, seq<byte>>, i: nat): map<nat, seq<byte>>
    requires i in files
  {
    (files - {i})[i + 1 := files[i]]
  }

  /** Renaming a file to the next number changes nothing in the sequence as long as that number is free. */
  lemma {:induction false} MoveKeepsOrder(files: map<nat, seq<byte>>, i: nat, high: nat, low: nat)
    requires low <= i < high && i in files && i + 1 !in files
    ensures Joined(Moved(files, i), high, low) == Joined(files, high, low)
    decreases i - low
  {
    var moved := Moved(files, i);
    if low == i {
      JoinedAgree(moved, files, high, i + 2);
      var rest := Joined(files, high, i + 2);
      assert Joined(files, high, i + 1) == rest + [] == rest;
      assert Joined(moved, high, i + 1) == rest + files[i];
      assert Joined(moved, high, i) == rest + files[i] + [] == rest + files[i];
    } else {
      MoveKeepsOrder(files, i, high, low + 1);
    }
  }

  lemma {:induction false} BackupsEndInNewline(files: map<nat, seq<byte>>, high: nat, low: nat)
    requires low <= high + 1
    requires forall i :: low <= i <= high ==> Terminated(Content(files, i))
    ensures Terminated(Joined(files, high, low))
    decreases high + 1 - low
  {
    if low <= high {
      BackupsEndInNewline(files, high, low + 1);
      var older, own := Joined(files, high, low + 1), Content(files, low);
      if own == [] {
        assert older + own == older;
      } else {
        assert (older + own)[|older + own| - 1] == own[|own| - 1];
      }
    }
  }

  /** Without its oldest file the sequence loses exactly that file's bytes at the front. */
  lemma {:induction false} OldestIsPrefix(files: map<nat, seq<byte>>, high: nat, low: nat)
    requires low <= high
    ensures Joined(files, high, low) == Content(files, high) + Joined(files - {high}, high, low)
    decreases high - low
  {
    var without := files - {high};
    if low == high {
      assert Joined(files, high, high) == [] + Content(files, high) == Content(files, high);
      assert Joined(without, high, high) == [] + [] == [];
      assert Content(files, high) + [] == Content(files, high);
    } else {
      OldestIsPrefix(files, high, low + 1);
      ConcatAssociates(Content(files, high), Joined(without, high, low + 1), Content(files, low));
    }
  }

  function At(files: map<nat, seq<byte>>, i: nat): Option<seq<byte>> { if i in files then Some(files[i]) else None }

  /** Files above index have moved up by one, leaving index + 1 free; the others are where they were. */
  ghost predicate ShiftedFrom(now: map<nat, seq<byte>>, was: map<nat, seq<byte>>, backups: nat, index: int)
    requires index >= -1
  {
    && (forall i: nat :: i <= index ==> At(now, i) == At(was, i))
    && At(now, index + 1) == None
    && (forall i: nat :: index + 1 < i <= backups ==> At(now, i) == At(was, i - 1))
  }

  ghost predicate SameBackups(now: map<nat, seq<byte>>, was: map<nat, seq<byte>>) {
    forall i: nat :: i > 0 ==> At(now, i) == At(was, i)
  }

  /** The current file became the first backup and every other backup moved up by one. */
  ghost predicate RotatedOnce(now: map<nat, seq<byte>>, was: map<nat, seq<byte>>, current: seq<byte>, backups: nat) {
    At(now, 1) == Some(current) && forall i: nat :: 1 < i <= backups ==> At(now, i) == At(was, i - 1)
  }

  lemma RotatedStays(
      now: map<nat, seq<byte>>, mid: map<nat, seq<byte>>, was: map<nat, seq<byte>>, current: seq<byte>, backups: nat)
    requires SameBackups(now, mid) && RotatedOnce(mid, was, current, backups)
    ensures RotatedOnce(now, was, current, backups)
  {}

  lemma BackupsStaySame(now: map<nat, seq<byte>>, mid: map<nat, seq<byte>>, was: map<nat, seq<byte>>)
    requires SameBackups(now, mid) && SameBackups(mid, was)
    ensures SameBackups(now, was)
  {}

  /** Every backup has a predecessor, and the two would not have fitted into one file; and something has been dropped
      only if there is an oldest backup. */
  ghost predicate Packed(files: map<nat, seq<byte>>, current: nat, dropped: nat, backups: nat, maxBytes: nat) {
    && (forall i: nat :: i > 1 && i in files ==> i - 1 in files && |files[i]| + |files[i - 1]| > maxBytes)
    && (1 in files ==> |files[1]| + current > maxBytes)
    && (dropped > 0 ==> backups in files)
  }

  lemma PackedStays(
      now: map<nat, seq<byte>>, was: map<nat, seq<byte>>, current: nat, before: nat, dropped: nat, backups: nat,
      maxBytes: nat)
    requires SameBackups(now, was) && before <= current && backups >= 1
    requires Packed(was, before, dropped, backups, maxBytes)
    ensures Packed(now, current, dropped, backups, maxBytes)
  {
    forall i: nat | i > 1 && i in now
      ensures i - 1 in now && |now[i]| + |now[i - 1]| > maxBytes
    {
      assert At(now, i) == At(was, i) && At(now, i - 1) == At(was, i - 1);
    }
    assert At(now, backups) == At(was, backups) && At(now, 1) == At(was, 1);
  }

  /** A line that did not fit rotates packed files into packed ones. */
  lemma PackedRotates(
      now: map<nat, seq<byte>>, was: map<nat, seq<byte>>, closed: seq<byte>, line: nat, dropped: nat, backups: nat,
      maxBytes: nat)
    requires RotatedOnce(now, was, closed, backups) && |closed| + line > maxBytes && backups >= 1
    requires Packed(was, |closed|, dropped, backups, maxBytes) && forall i :: i in now ==> i <= backups
    ensures Packed(now, line, dropped + |Content(was, backups)|, backups, maxBytes)
  {
    forall i: nat | i > 1 && i in now
      ensures i - 1 in now && |now[i]| + |now[i - 1]| > maxBytes
    {
      assert At(now, i) == At(was, i - 1);
      assert i > 2 ==> At(now, i - 1) == At(was, i - 2);
    }
    if dropped + |Content(was, backups)| > 0 && backups > 1 {
      assert At(now, backups) == At(was, backups - 1);
    }
  }

  lemma {:induction false} PackedFrom(
      files: map<nat, seq<byte>>, current: nat, dropped: nat, backups: nat, maxBytes: nat, i: nat)
    requires Packed(files, current, dropped, backups, maxBytes) && dropped > 0 && 1 <= i <= backups
    ensures i in files
    decreases backups - i
  {
    if i < backups {
      PackedFrom(files, current, dropped, backups, maxBytes, i + 1);
    }
  }

  /** Neighbouring files together exceed the limit, so half of all files are worth full ones. */
  lemma {:induction false} PairsAreLarge(files: map<nat, seq<byte>>, high: nat, low: nat, maxBytes: nat)
    requires low <= high + 1
    requires forall i :: low <= i < high ==> |Content(files, i + 1)| + |Content(files, i)| > maxBytes
    ensures |Joined(files, high, low)| >= (high + 1 - low) / 2 * (maxBytes + 1)
    decreases high + 1 - low
  {
    if low < high {
      PairsAreLarge(files, high, low + 2, maxBytes);
      var pairs := (high + 1 - (low + 2)) / 2;
      assert (high + 1 - low) / 2 == pairs + 1;
      assert (pairs + 1) * (maxBytes + 1) == pairs * (maxBytes + 1) + (maxBytes + 1);
      assert |Joined(files, high, low)| ==
        |Joined(files, high, low + 2)| + |Content(files, low + 1)| + |Content(files, low)|;
    }
  }

  /** How long the accepted lines from i on are. */
  lemma AcceptedLength(lines: seq<seq<byte>>, i: nat, maxBytes: nat)
    requires i < |lines|
    ensures |Accepted(lines[i..], maxBytes)| ==
      (if |lines[i]| <= maxBytes then |lines[i]| else 0) + |Accepted(lines[i + 1..], maxBytes)|
  {
    assert lines[i..][0] == lines[i] && lines[i..][1..] == lines[i + 1..];
  }

  /** What the writer holds while it works: the open file's unflushed bytes and the size it believes the file has. */
  datatype Handle = Handle(open: bool, pending: seq<byte>, existing: nat)

  ghost predicate AllBounded(files: map<nat, seq<byte>>, maxBytes: nat) {
    forall i :: i in files ==> |files[i]| <= maxBytes && (Terminated(files[i]) || |files[i]| < maxBytes)
  }

  ghost predicate BackupsFit(files: map<nat, seq<byte>>, maxBytes: nat)
  {
    forall i :: i in files && i > 0 ==> |files[i]| <= maxBytes
  }

  /** The files that newline-terminated texts lead to are never taken over the limit by repair. */
  lemma BoundedFilesStayWithinLimit(files: map<nat, seq<byte>>, complete: seq<byte> -> bool, maxBytes: nat)
    requires AllBounded(files, maxBytes)
    ensures |Repaired(Content(files, 0), complete, maxBytes)| <= maxBytes
  {
    RepairOverflowsIff(Content(files, 0), complete, maxBytes);
  }

  /** Repairing the current one of some bounded files keeps it within the limit. */
  lemma {:induction false} RepairFits(
      was: map<nat, seq<byte>>, now: map<nat, seq<byte>>, complete: seq<byte> -> bool, maxBytes: nat)
    requires AllBounded(was, maxBytes) && SameBackups(now, was)
    requires Content(now, 0) == Repaired(Content(was, 0), complete, maxBytes)
    ensures |Content(now, 0)| <= maxBytes && BackupsFit(now, maxBytes)
  {
    BoundedFilesStayWithinLimit(was, complete, maxBytes);
    forall i: nat | i in now && i > 0
      ensures |now[i]| <= maxBytes
    {
      assert At(now, i) == At(was, i);
    }
  }

  class RotatedLog {
    const maxBytes: nat
    const backups: nat
    /** File 0 is the current one, file i the i-th backup. */
    var files: map<nat, seq<byte>>
    /** Every byte that ever reached storage, after repairs. */
    ghost var history: seq<byte>
    /** How much of the history has been rotated away. */
    ghost var dropped: nat

    /** On disk is a suffix of the history that starts where a record starts, in at most backups + 1 files. */
    ghost predicate Valid()
      reads this
    {
      && backups >= 1
      && (forall i :: i in files ==> i <= backups)
      && (forall i :: i in files && i > 0 ==> Terminated(files[i]))
      && Boundary(history, dropped)
      && Joined(files, backups, 0) == history[dropped..]
    }

    /** No file exceeds the limit, and an unterminated current file still has room for a newline. */
    ghost predicate Bounded()
      reads this
    {
      AllBounded(files, maxBytes)
    }

    /** The files that uninterrupted writing leaves: no two neighbours would have fitted into one. */
    ghost predicate StoresPacked()
      reads this
    {
      Packed(files, |Content(files, 0)|, dropped, backups, maxBytes)
    }

    /** So whatever has been dropped, that much of the most recent history is still there. */
    lemma RetainsHistory()
      requires Valid() && StoresPacked()
      ensures dropped == 0 || |history| - dropped >= (backups + 1) / 2 * (maxBytes + 1)
    {
      if dropped > 0 {
        forall i: nat | i < backups
          ensures |Content(files, i + 1)| + |Content(files, i)| > maxBytes
        {
          PackedFrom(files, |Content(files, 0)|, dropped, backups, maxBytes, i + 1);
        }
        PairsAreLarge(files, backups, 0, maxBytes);
      }
    }

    constructor (maxBytes: nat, backups: nat)
      requires backups >= 1
      ensures Valid() && Bounded() && StoresPacked() && files == map[] && history == []
      ensures this.maxBytes == maxBytes && this.backups == backups
    {
      this.maxBytes, this.backups, files, history, dropped := maxBytes, backups, map[], [], 0;
      new;
      NothingJoins(backups, 0);
    }

    static lemma {:induction false} NothingJoins(high: nat, low: nat)
      requires low <= high + 1
      ensures Joined(map[], high, low) == []
      decreases high + 1 - low
    {
      if low <= high {
        NothingJoins(high, low + 1);
      }
    }

    /** What can be read back at any time: the most recent part of the history, in whole records, in few enough
        files. */
    lemma StoredIsRecentHistory()
      requires Valid()
      ensures Boundary(history, dropped) && Joined(files, backups, 0) == history[dropped..]
      ensures |files| <= backups + 1
    {
      SmallSet(files.Keys, backups);
    }

    static lemma {:induction false} SmallSet(s: set<nat>, n: nat)
      requires forall i :: i in s ==> i <= n
      ensures |s| <= n + 1
    {
      if n in s {
        if n == 0 {
          assert s == {0};
        } else {
          SmallSet(s - {n}, n - 1);
        }
      } else if n > 0 {
        SmallSet(s, n - 1);
      } else {
        assert s == {};
      }
    }

    /** os.replace, used only where the target is free: no rename overwrites a live file. */
    method Rename(i: nat)
      requires Valid() && i < backups && i in files && i + 1 !in files && Terminated(files[i])
      modifies this`files
      ensures Valid()
      ensures At(files, i) == None && At(files, i + 1) == At(old(files), i)
      ensures forall j: nat :: j != i && j != i + 1 ==> At(files, j) == At(old(files), j)
    {
      MoveKeepsOrder(files, i, backups, 0);
      files := Moved(files, i);
    }

    /** os.remove of the oldest backup */
    method RemoveOldest()
      requires Valid() && backups in files
      modifies this`files, this`dropped
      ensures Valid()
      ensures At(files, backups) == None && dropped == old(dropped) + |Content(old(files), backups)|
      ensures forall j: nat :: j != backups ==> At(files, j) == At(old(files), j)
    {
      OldestIsPrefix(files, backups, 0);
      ghost var oldest := files[backups];
      assert history[dropped..] == oldest + Joined(files - {backups}, backups, 0);
      assert history[dropped + |oldest|..] == Joined(files - {backups}, backups, 0);
      assert oldest != [] ==>
        history[dropped + |oldest| - 1] == history[dropped..][|oldest| - 1] == oldest[|oldest| - 1];
      files, dropped := files - {backups}, dropped + |oldest|;
    }

    /** Make room for a new current file. The budget says how many operations succeed before one fails; a negative one
        never runs out. */
    method Rotate(budget: int) returns (left: Option<int>)
      requires Valid() && 0 in files && Terminated(files[0])
      modifies this`files, this`dropped
      ensures Valid()
      ensures budget < 0 ==> left.Some? && left.value < 0
      ensures left.Some? ==>
        ShiftedFrom(files, old(files), backups, -1) && dropped == old(dropped) + |Content(old(files), backups)|
      ensures left.None? ==> At(files, 0) == At(old(files), 0)
      ensures dropped == if budget == 0 then old(dropped) else old(dropped) + |Content(old(files), backups)|
      ensures budget == 1 && backups in old(files) ==> left.None?
      ensures forall i: nat :: i in files ==>
        At(files, i) == At(old(files), i) || (i > 0 && At(files, i) == At(old(files), i - 1))
      ensures left.None? ==>
        exists index: nat :: 0 <= index <= backups && ShiftedFrom(files, old(files), backups, index)
    {
      var fuel := budget;
      assert At(files, backups + 1) == None;
      assert ShiftedFrom(files, old(files), backups, backups);
      if backups in files {
        if fuel == 0 {
          return None;
        }
        RemoveOldest();
        fuel := fuel - 1;
      }
      var index := backups - 1;
      assert ShiftedFrom(files, old(files), backups, index);
      while index > 0
        invariant 0 <= index < backups && Valid()
        invariant ShiftedFrom(files, old(files), backups, index)
        invariant dropped == old(dropped) + |Content(old(files), backups)|
        invariant budget < 0 ==> fuel < 0
        invariant budget == 1 && backups in old(files) ==> fuel == 0
      {
        assert At(files, index) == At(old(files), index) && At(files, index + 1) == None;
        if index in files {
          if fuel == 0 {
            return None;
          }
          Rename(index);
          fuel := fuel - 1;
        }
        index := index - 1;
      }
      assert At(files, 0) == At(old(files), 0) && At(files, 1) == None;
      if fuel == 0 {
        return None;
      }
      Rename(0);
      left := Some(fuel - 1);
    }

    /** The current file is the end of the history, and what precedes it there ends at a record. */
    lemma CurrentIsLast()
      requires Valid()
      ensures var current := Content(files, 0);
        && |current| <= |history| - dropped
        && history == history[..|history| - |current|] + current
        && Terminated(history[..|history| - |current|])
    {
      var older, current := Joined(files, backups, 1), Content(files, 0);
      BackupsEndInNewline(files, backups, 1);
      assert history[dropped..] == older + current;
      assert history == history[..dropped] + (older + current) == history[..dropped] + older + current;
      assert history[..|history| - |current|] == history[..dropped] + older;
    }

    /** The current file becomes `now`; the history changes by exactly the same end. */
    method ReplaceCurrent(now: seq<byte>)
      requires Valid()
      modifies this`files, this`history
      ensures Valid() && files == old(files)[0 := now]
      ensures history == old(history)[..|old(history)| - |Content(old(files), 0)|] + now
    {
      CurrentIsLast();
      ghost var current, older := Content(files, 0), Joined(files, backups, 1);
      ghost var kept := history[..|history| - |current|];
      assert history[dropped..] == older + current;
      assert kept[dropped..] == older;
      JoinedAgree(files, files[0 := now], backups, 1);
      files, history := files[0 := now], kept + now;
      assert history[dropped..] == older + now;
    }

    /** Bytes reach the current file, which is created if needed. */
    method Flush(bytes: seq<byte>)
      requires Valid()
      modifies this`files, this`history
      ensures Valid() && files == old(files)[0 := Content(old(files), 0) + bytes]
      ensures history == old(history) + bytes
    {
      CurrentIsLast();
      ghost var current := Content(files, 0);
      ConcatAssociates(history[..|history| - |current|], current, bytes);
      ReplaceCurrent(Content(files, 0) + bytes);
    }

    /** Repair of the current file is repair of the whole history. */
    method RepairCurrent(complete: seq<byte> -> bool) returns (size: nat)
      requires Valid()
      modifies this`files, this`history
      ensures Valid()
      ensures history == Repaired(old(history), complete, maxBytes)
      ensures Content(files, 0) == Repaired(Content(old(files), 0), complete, maxBytes)
      ensures size == |Content(files, 0)| && Holds(Handle(false, [], size))
      ensures SameBackups(files, old(files))
    {
      CurrentIsLast();
      RepairSuffix(history[..|history| - |Content(files, 0)|], Content(files, 0), complete, maxBytes);
      var repaired;
      repaired, size := RepairIncompleteTail(Content(files, 0), complete, maxBytes);
      if 0 in files {
        ReplaceCurrent(repaired);
      }
    }

    ghost predicate Holds(h: Handle)
      reads this
    {
      && Valid()
      && h.existing == |Content(files, 0)| + |h.pending|
      && (!h.open ==> h.pending == [])
      && (h.open || h.existing > 0 ==> 0 in files)
    }

    /** What the current file will contain once the handle is closed. */
    ghost function Current(h: Handle): seq<byte>
      reads this
    {
      Content(files, 0) + h.pending
    }

    /** The history once the handle is closed. */
    ghost function Reached(h: Handle): seq<byte>
      reads this
    {
      history + h.pending
    }

    /** Either the remaining lines lead to the goal, or work has stopped on the way there. */
    ghost predicate Heading(h: Handle, going: bool, rest: seq<seq<byte>>, goal: seq<byte>)
      reads this
    {
      if going then Reached(h) + Accepted(rest, maxBytes) == goal else Reached(h) <= goal
    }

    /** A line that would take a non-empty file over the limit. */
    predicate NeedsNewFile(h: Handle, line: seq<byte>) { h.existing > 0 && h.existing + |line| > maxBytes }

    ghost predicate Fits(h: Handle)
      reads this
    {
      h.existing <= maxBytes && BackupsFit(files, maxBytes)
    }

    /** A failure loses any part of the unflushed bytes from some point on. */
    method Abandon(h: Handle, cut: nat)
      requires Holds(h)
      modifies this`files, this`history
      ensures Valid()
      ensures old(history) <= history <= old(history) + h.pending
      ensures SameBackups(files, old(files))
      ensures old(Fits(h)) && Terminated(old(Current(h))) ==> Bounded()
    {
      if h.open {
        var kept := h.pending[..if cut < |h.pending| then cut else |h.pending|];
        assert kept == h.pending ==> Content(files, 0) + kept == Current(h);
        Flush(kept);
      } else {
        assert Content(files, 0) + [] == Content(files, 0);
      }
    }

    /** Close the current file and rotate. */
    method StartNewFile(h: Handle, budget: int) returns (next: Handle, left: Option<int>)
      requires Holds(h) && Terminated(Current(h)) && h.existing > 0
      modifies this`files, this`history, this`dropped
      ensures Holds(next)
      ensures budget < 0 ==> left.Some? && left.value < 0
      ensures old(history) <= history && history + next.pending == old(history) + h.pending
      ensures left.Some? ==>
        && next == Handle(false, [], 0) && Current(next) == []
        && RotatedOnce(files, old(files), old(Current(h)), backups)
        && dropped == old(dropped) + |Content(old(files), backups)|
      ensures Terminated(Current(next))
      ensures old(Fits(h)) ==> Fits(next)
    {
      if h.open {
        if budget == 0 {
          return h, None;
        }
        Flush(h.pending);
      }
      assert history + [] == history;
      ghost var closed := files;
      assert Content(files, 0) == old(Current(h));
      next := Handle(false, [], h.existing);
      assert Current(next) == Content(files, 0);
      left := Rotate(if h.open then budget - 1 else budget);
      assert left.None? ==> Content(files, 0) == Content(closed, 0);
      assert SameBackups(closed, old(files));
      assert left.Some? ==> At(files, 1) == At(closed, 0) == Some(old(Current(h)));
      if old(Fits(h)) {
        forall i: nat | i in files
          ensures |files[i]| <= maxBytes
        {
          assert At(files, i) == At(closed, i) || (i > 0 && At(files, i) == At(closed, i - 1));
        }
      }
      if left.Some? {
        next := Handle(false, [], 0);
        assert At(files, 0) == None;
      }
    }

    /** Open the file if necessary and write one line to its buffer. */
    method Write(h: Handle, line: seq<byte>, budget: int) returns (next: Handle, left: Option<int>)
      requires Holds(h)
      modifies this`files, this`history
      ensures budget < 0 ==> left.Some? && left.value < 0
      ensures Holds(next) && history == old(history) && SameBackups(files, old(files))
      ensures if left.Some? then next == Handle(true, h.pending + line, h.existing + |line|) else next == h
      ensures Current(next) == if left.Some? then old(Current(h)) + line else old(Current(h))
      ensures Reached(next) == if left.Some? then old(Reached(h)) + line else old(Reached(h))
      ensures old(Fits(h)) && next.existing <= maxBytes ==> Fits(next)
    {
      if budget == 0 {
        return h, None;
      }
      if !h.open {
        assert history + [] == history && Content(files, 0) + [] == Content(files, 0);
        Flush([]);
      }
      ConcatAssociates(Content(files, 0), h.pending, line);
      ConcatAssociates(history, h.pending, line);
      return Handle(true, h.pending + line, h.existing + |line|), Some(budget - 1);
    }

    /** A line that does not fit the current file starts a new one. */
    method RotateAndWrite(h: Handle, line: seq<byte>, budget: int) returns (next: Handle, left: Option<int>)
      requires Holds(h) && Terminated(Current(h)) && line != [] && |line| <= maxBytes && NeedsNewFile(h, line)
      modifies this`files, this`history, this`dropped
      ensures budget < 0 ==> left.Some? && left.value < 0
      ensures Holds(next) && old(history) <= history
      ensures Reached(next) == if left.Some? then old(Reached(h)) + line else old(Reached(h))
      ensures left.Some? ==>
        RotatedOnce(files, old(files), old(Current(h)), backups)
        && dropped == old(dropped) + |Content(old(files), backups)|
      ensures if left.Some? then Current(next) == line else Terminated(Current(next))
      ensures old(Fits(h)) ==> Fits(next)
    {
      next, left := StartNewFile(h, budget);
      if left.None? {
        return;
      }
      ghost var rotated := files;
      assert [] + line == line;
      next, left := Write(next, line, left.value);
      if left.Some? {
        RotatedStays(files, rotated, old(files), old(Current(h)), backups);
      }
    }

    /** One iteration of the writing loop. The budget counts the file operations that still succeed. */
    method AppendLine(h: Handle, line: seq<byte>, budget: int) returns (next: Handle, left: Option<int>)
      requires Holds(h) && Terminated(Current(h)) && line != []
      modifies this`files, this`history, this`dropped
      ensures budget < 0 ==> left.Some? && left.value < 0
      ensures Holds(next) && old(history) <= history
      ensures Reached(next) == if left.Some? && |line| <= maxBytes then old(Reached(h)) + line else old(Reached(h))
      ensures left.Some? && |line| <= maxBytes && h.existing > 0 && h.existing + |line| > maxBytes ==>
        RotatedOnce(files, old(files), old(Current(h)), backups) && next.existing == |line|
        && dropped == old(dropped) + |Content(old(files), backups)|
      ensures |line| > maxBytes || h.existing == 0 || h.existing + |line| <= maxBytes ==>
        SameBackups(files, old(files)) && dropped == old(dropped)
        && (left.Some? ==> next.existing == h.existing + if |line| <= maxBytes then |line| else 0)
      ensures Terminated(Current(next)) || (left.Some? && !Terminated(line))
      ensures old(Fits(h)) ==> Fits(next)
    {
      if |line| > maxBytes {
        return h, Some(budget);
      }
      if NeedsNewFile(h, line) {
        next, left := RotateAndWrite(h, line, budget);
      } else {
        next, left := Write(h, line, budget);
        TerminatedConcat(old(Current(h)), line);
      }
    }

    /** The files together with what the handle holds are packed. */
    ghost predicate WritesPacked(h: Handle)
      reads this
    {
      Packed(files, h.existing, dropped, backups, maxBytes)
    }

    /** All lines still to be written fit the current file. */
    ghost predicate HasRoom(h: Handle, rest: seq<seq<byte>>) { h.existing + |Accepted(rest, maxBytes)| <= maxBytes }

    /** One line keeps the files packed. */
    method AppendPacked(h: Handle, line: seq<byte>, budget: int) returns (next: Handle, left: Option<int>)
      requires Holds(h) && Terminated(Current(h)) && line != []
      modifies this`files, this`history, this`dropped
      ensures budget < 0 ==> left.Some? && left.value < 0
      ensures Holds(next) && old(history) <= history
      ensures Reached(next) == if left.Some? && |line| <= maxBytes then old(Reached(h)) + line else old(Reached(h))
      ensures |line| > maxBytes || h.existing == 0 || h.existing + |line| <= maxBytes ==>
        SameBackups(files, old(files)) && dropped == old(dropped)
        && (left.Some? ==> next.existing == h.existing + if |line| <= maxBytes then |line| else 0)
      ensures left.Some? && old(WritesPacked(h)) ==> WritesPacked(next)
      ensures Terminated(Current(next)) || (left.Some? && !Terminated(line))
      ensures old(Fits(h)) ==> Fits(next)
    {
      next, left := AppendLine(h, line, budget);
      if left.Some? && old(WritesPacked(h)) {
        if |line| <= maxBytes && h.existing > 0 && h.existing + |line| > maxBytes {
          PackedRotates(files, old(files), old(Current(h)), |line|, old(dropped), backups, maxBytes);
        } else {
          PackedStays(files, old(files), next.existing, h.existing, dropped, backups, maxBytes);
        }
      }
    }

    /** The same for line i, on the way to the goal. */
    method AppendNext(lines: seq<seq<byte>>, i: nat, h: Handle, budget: int, ghost goal: seq<byte>)
        returns (next: Handle, left: Option<int>)
      requires i < |lines| && Holds(h) && Terminated(Current(h)) && lines[i] != [] && Heading(h, true, lines[i..], goal)
      modifies this`files, this`history, this`dropped
      ensures budget < 0 ==> left.Some? && left.value < 0
      ensures Holds(next) && old(history) <= history && Heading(next, left.Some?, lines[i + 1..], goal)
      ensures HasRoom(h, lines[i..]) ==>
        SameBackups(files, old(files)) && dropped == old(dropped) && (left.Some? ==> HasRoom(next, lines[i + 1..]))
      ensures left.Some? && old(WritesPacked(h)) ==> WritesPacked(next)
      ensures Terminated(Current(next)) || (left.Some? && !Terminated(lines[i]))
      ensures old(Fits(h)) ==> Fits(next)
    {
      AcceptStep(Reached(h), lines, i, maxBytes, goal);
      AcceptedLength(lines, i, maxBytes);
      next, left := AppendPacked(h, lines[i], budget);
    }

    /** The loop over the lines of a text, until it ends or an operation fails. */
    method AppendAll(text: seq<byte>, first: Handle, budget: int) returns (h: Handle, left: Option<int>)
      requires Holds(first) && first.pending == [] && Terminated(Current(first))
      modifies this`files, this`history, this`dropped
      ensures budget < 0 ==> left.Some? && left.value < 0
      ensures Holds(h) && old(history) <= history
      ensures var goal := old(history) + Accepted(SplitLines(text), maxBytes);
        if left.Some? then Reached(h) == goal else Reached(h) <= goal
      ensures HasRoom(first, SplitLines(text)) ==> SameBackups(files, old(files)) && dropped == old(dropped)
      ensures left.Some? && old(WritesPacked(first)) ==> WritesPacked(h)
      ensures Terminated(text) ==> Terminated(Current(h))
      ensures old(Fits(first)) ==> Fits(h)
    {
      h, left := first, Some(budget);
      var lines, i := SplitLines(text), 0;
      ghost var goal := history + Accepted(lines, maxBytes);
      assert history + [] == history && lines[0..] == lines;
      while i < |lines| && left.Some?
        invariant 0 <= i <= |lines| && Holds(h)
        invariant old(history) <= history
        invariant budget < 0 ==> left.Some? && left.value < 0
        invariant Heading(h, left.Some?, lines[i..], goal)
        invariant Terminated(Current(h)) || (i == |lines| && !Terminated(text))
        invariant HasRoom(first, lines) ==>
          SameBackups(files, old(files)) && dropped == old(dropped) && (left.Some? ==> HasRoom(h, lines[i..]))
        invariant left.Some? && old(WritesPacked(first)) ==> WritesPacked(h)
        invariant old(Fits(first)) ==> Fits(h)
        decreases |lines| - i
      {
        LinesAreRecords(text, i);
        ghost var before := files;
        h, left := AppendNext(lines, i, h, left.value, goal);
        if HasRoom(first, lines) {
          BackupsStaySame(files, before, old(files));
        }
        i := i + 1;
      }
      assert left.Some? ==> lines[i..] == [];
    }

    method Close(h: Handle, left: Option<int>, cut: nat) returns (ok: bool)
      requires Holds(h)
      modifies this`files, this`history
      ensures Valid()
      ensures left.Some? && left.value < 0 ==> ok
      ensures ok ==> left.Some? && history == old(history) + h.pending && |Content(files, 0)| == h.existing
      ensures SameBackups(files, old(files))
      ensures old(history) <= history <= old(history) + h.pending
      ensures old(Fits(h)) && Terminated(old(Current(h))) ==> Bounded()
    {
      if left.None? || (h.open && left.value == 0) {
        Abandon(h, cut);
        return false;
      }
      if h.open {
        Flush(h.pending);
      } else {
        assert Content(files, 0) + [] == Content(files, 0) && history + [] == history;
      }
      return true;
    }

    /** The loop and the closing that follows it on every path, from a closed file on. */
    method AppendAndClose(text: seq<byte>, size: nat, budget: int, cut: nat) returns (ok: bool)
      requires Valid() && size == |Content(files, 0)| && Terminated(Content(files, 0)) && Holds(Handle(false, [], size))
      modifies this`files, this`history, this`dropped
      ensures Valid()
      ensures var goal := old(history) + Accepted(SplitLines(text), maxBytes);
        if ok then history == goal else old(history) <= history <= goal
      ensures budget < 0 ==> ok
      ensures size + |Accepted(SplitLines(text), maxBytes)| <= maxBytes ==>
        SameBackups(files, old(files)) && dropped == old(dropped)
      ensures ok && old(StoresPacked()) ==> StoresPacked()
      ensures size <= maxBytes && old(BackupsFit(files, maxBytes)) && Terminated(text) ==> Bounded()
    {
      assert Content(files, 0) + [] == Content(files, 0);
      var h, left := AppendAll(text, Handle(false, [], size), budget);
      ghost var appended, packed := files, WritesPacked(h);
      ok := Close(h, left, cut);
      if ok && packed {
        PackedStays(files, appended, h.existing, h.existing, dropped, backups, maxBytes);
      }
      if size + |Accepted(SplitLines(text), maxBytes)| <= maxBytes {
        BackupsStaySame(files, appended, old(files));
      }
    }

    /** Repair would remove nothing from the current file. */
    ghost predicate RepairAddsOnly(complete: seq<byte> -> bool)
      reads this
    {
      |Content(files, 0)| <= |Repaired(Content(files, 0), complete, maxBytes)|
    }

    /** Append a text. Whatever fails and whenever, storage holds whole records of the repaired history and a prefix of
        the text. */
    method WriteLines(text: seq<byte>, complete: seq<byte> -> bool, budget: int, cut: nat) returns (ok: bool)
      requires Valid()
      modifies this
      ensures Valid()
      ensures var start := Repaired(old(history), complete, maxBytes);
        var goal := start + Accepted(SplitLines(text), maxBytes);
        if ok then history == goal else history == old(history) || start <= history <= goal
      ensures budget < 0 ==> ok
      ensures var size := |Repaired(Content(old(files), 0), complete, maxBytes)|;
        size + |Accepted(SplitLines(text), maxBytes)| <= maxBytes ==>
          SameBackups(files, old(files)) && dropped == old(dropped)
      ensures ok && old(StoresPacked() && RepairAddsOnly(complete)) ==> StoresPacked()
      ensures old(Bounded()) && Terminated(text) ==> Bounded()
    {
      // The size of the file is read first, then the repair does all of its work or none.
      if budget == 0 || budget == 1 {
        return false;
      }
      var size := RepairCurrent(complete);
      if old(Bounded()) {
        RepairFits(old(files), files, complete, maxBytes);
      }
      assert Content(files, 0) + [] == Content(files, 0);
      if old(StoresPacked() && RepairAddsOnly(complete)) {
        PackedStays(files, old(files), size, |Content(old(files), 0)|, dropped, backups, maxBytes);
      }
      ghost var repaired := files;
      ok := AppendAndClose(text, size, budget - 2, cut);
      if size + |Accepted(SplitLines(text), maxBytes)| <= maxBytes {
        BackupsStaySame(files, repaired, old(files));
      }
    }
  }

  lemma TailOfConcat(older: seq<byte>, current: seq<byte>)
    requires Terminated(older)
    ensures TailStart(older + current) == |older| + TailStart(current)
  {
    TailStartIsUnique(older + current, |older| + TailStart(current));
  }

  lemma TailOfWhole(older: seq<byte>, current: seq<byte>, at: nat)
    requires at <= |current|
    ensures (older + current)[|older| + at..] == current[at..]
    ensures (older + current)[..|older| + at] == older + current[..at]
  {}

  lemma RepairedAtSuffix(older: seq<byte>, current: seq<byte>, at: nat, complete: seq<byte> -> bool, maxBytes: nat)
    requires at <= |current|
    ensures RepairedAt(older + current, |older| + at, complete, maxBytes) ==
      older + RepairedAt(current, at, complete, maxBytes)
  {
    TailOfWhole(older, current, at);
    ConcatAssociates(older, current, [NEWLINE]);
  }

  lemma RepairSuffix(older: seq<byte>, current: seq<byte>, complete: seq<byte> -> bool, maxBytes: nat)
    requires Terminated(older)
    ensures Repaired(older + current, complete, maxBytes) == older + Repaired(current, complete, maxBytes)
  {
    TailOfConcat(older, current);
    RepairedAtSuffix(older, current, TailStart(current), complete, maxBytes);
  }
}
