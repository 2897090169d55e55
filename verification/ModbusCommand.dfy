/** Register commands: a 42-byte header with two words at its end, and for writes to several registers their values. */
module ModbusCommand {
  import opened Wire
  import M = ModbusMessage

  const COMMAND_SIZE := 42
  const PRESET_MULTIPLE := 16

  datatype Header = Header(deviceId: string, f: int, first: int, second: int)

  datatype Multiple = Multiple(deviceId: string, f: int, start: int, end: int, values: seq<byte>)

  datatype Single = Single(deviceId: string, f: int, register: int, value: int)

  /** The common packing; extra is the number of bytes that follow it. */
  function Pack(h: Header, extra: nat): (r: Result<seq<byte>>)
    requires M.IsFunction(h.f)
    ensures r.Ok? ==> |r.value| == COMMAND_SIZE
  {
    if !IsU16(36 + extra) || !IsU16(h.first) || !IsU16(h.second) then Err else
    match IdField(h.deviceId, M.ID_WIDTH)
    case Err => Err
    case Ok(id) => Ok(PutU16(1) + PutU16(7) + PutU16(36 + extra) + [1, h.f] + id + PutU16(h.first) + PutU16(h.second))
  }

  function BuildMultiple(c: Multiple): Result<seq<byte>>
    requires M.IsFunction(c.f)
  {
    match Pack(Header(c.deviceId, c.f, c.start, c.end), |c.values|)
    case Err => Err
    case Ok(header) => Ok(header + c.values)
  }

  function BuildSingle(c: Single): Result<seq<byte>>
    requires M.IsFunction(c.f)
  {
    Pack(Header(c.deviceId, c.f, c.register, c.value), 0)
  }

  /** The header and the length without trailer, or None for a malformed command. */
  function Unpack(buffer: seq<byte>): (r: Option<(Header, nat)>)
    ensures r.Some? ==> COMMAND_SIZE <= r.value.1 <= |buffer|
  {
    if |buffer| < COMMAND_SIZE || GetU16(buffer, 0) != 1 || GetU16(buffer, 2) != 7 then None
    else if buffer[6] != 1 || !M.IsFunction(buffer[7]) then None
    else
      var core := GetU16(buffer, 4) + 6;
      if core < COMMAND_SIZE || (|buffer| != core && |buffer| != core + M.TRAILER_SIZE) then None
      else Some((Header(ReadBothStripped(buffer[8..38]), buffer[7], GetU16(buffer, 38), GetU16(buffer, 40)), core))
  }

  function ParseMultiple(buffer: seq<byte>): Option<Multiple> {
    match Unpack(buffer)
    case None => None
    case Some((h, core)) =>
      if h.second < h.first || (h.f == PRESET_MULTIPLE && core - COMMAND_SIZE != (h.second - h.first + 1) * 2) then None
      else Some(Multiple(h.deviceId, h.f, h.first, h.second, buffer[COMMAND_SIZE..core]))
  }

  function ParseSingle(buffer: seq<byte>): Option<Single> {
    match Unpack(buffer)
    case None => None
    case Some((h, core)) => if core != COMMAND_SIZE then None else Some(Single(h.deviceId, h.f, h.first, h.second))
  }

  lemma PackLayout(h: Header, extra: nat)
    requires M.IsFunction(h.f) && Pack(h, extra).Ok?
    ensures var packed := Pack(h, extra).value;
      && GetU16(packed, 0) == 1 && GetU16(packed, 2) == 7 && GetU16(packed, 4) == 36 + extra
      && packed[6] == 1 && packed[7] == h.f && packed[8..38] == IdField(h.deviceId, M.ID_WIDTH).value
      && GetU16(packed, 38) == h.first && GetU16(packed, 40) == h.second
  {
    var packed := Pack(h, extra).value;
    assert packed[4..6] == PutU16(36 + extra) && packed[38..40] == PutU16(h.first)
      && packed[40..42] == PutU16(h.second);
    GetPutU16(packed, 4, 36 + extra);
    GetPutU16(packed, 38, h.first);
    GetPutU16(packed, 40, h.second);
  }

  /** With or without a trailer, a packed header is recognised and measured correctly. */
  lemma HeaderRoundTrip(h: Header, values: seq<byte>, trailer: seq<byte>)
    requires M.IsFunction(h.f) && Pack(h, |values|).Ok? && |trailer| in {0, M.TRAILER_SIZE}
    ensures Unpack(Pack(h, |values|).value + values + trailer) ==
      Some((h.(deviceId := Strip(h.deviceId, '\0')), COMMAND_SIZE + |values|))
  {
    var packed := Pack(h, |values|).value;
    var buffer := packed + values + trailer;
    PackLayout(h, |values|);
    assert forall i :: 0 <= i < COMMAND_SIZE ==> buffer[i] == packed[i];
    assert buffer[8..38] == packed[8..38];
    IdFieldReadBackBoth(h.deviceId, M.ID_WIDTH);
  }

  /** What the receiver of a command for several registers insists on. */
  predicate WellRanged(c: Multiple) {
    c.start <= c.end && (c.f == PRESET_MULTIPLE ==> |c.values| == (c.end - c.start + 1) * 2)
  }

  /** A built command comes back, up to NULs around the identity, exactly when its range fits its values; otherwise it
      is refused. */
  lemma MultipleRoundTrip(c: Multiple, trailer: seq<byte>)
    requires M.IsFunction(c.f) && BuildMultiple(c).Ok? && |trailer| in {0, M.TRAILER_SIZE}
    ensures ParseMultiple(BuildMultiple(c).value + trailer) ==
      if WellRanged(c) then Some(c.(deviceId := Strip(c.deviceId, '\0'))) else None
  {
    HeaderRoundTrip(Header(c.deviceId, c.f, c.start, c.end), c.values, trailer);
    assert (BuildMultiple(c).value + trailer)[COMMAND_SIZE..COMMAND_SIZE + |c.values|] == c.values;
  }

  lemma SingleRoundTrip(c: Single, trailer: seq<byte>)
    requires M.IsFunction(c.f) && BuildSingle(c).Ok? && |trailer| in {0, M.TRAILER_SIZE}
    ensures ParseSingle(BuildSingle(c).value + trailer) == Some(c.(deviceId := Strip(c.deviceId, '\0')))
  {
    HeaderRoundTrip(Header(c.deviceId, c.f, c.register, c.value), [], trailer);
    assert BuildSingle(c).value + [] + trailer == BuildSingle(c).value + trailer;
  }

  /** The two kinds of command are told apart by their length alone: one register's parser takes the other kind for
      its own exactly when that carries no values. */
  lemma SingleReadsMultipleIff(c: Multiple, trailer: seq<byte>)
    requires M.IsFunction(c.f) && BuildMultiple(c).Ok? && |trailer| in {0, M.TRAILER_SIZE}
    ensures ParseSingle(BuildMultiple(c).value + trailer) ==
      if c.values == [] then Some(Single(Strip(c.deviceId, '\0'), c.f, c.start, c.end)) else None
  {
    HeaderRoundTrip(Header(c.deviceId, c.f, c.start, c.end), c.values, trailer);
  }

  /** A NUL-padded ASCII text, empty or beginning with something else than NUL. */
  predicate IsIdField(field: seq<byte>) {
    && (forall i :: 0 <= i < |field| ==> field[i] < 128)
    && (field == [] || field[0] != NUL || forall i :: 0 <= i < |field| ==> field[i] == NUL)
  }

  /** The text of an ASCII field, NULs included. */
  function FieldText(field: seq<byte>): (r: string)
    requires forall i :: 0 <= i < |field| ==> field[i] < 128
    ensures IsAscii(r) && AsciiBytes(r) == field
  {
    seq(|field|, i requires 0 <= i < |field| => field[i] as char)
  }

  /** An ASCII field that does not begin with NUL is its text without the trailing NULs, padded again. */
  lemma {:induction false} PaddedAgain(text: string)
    requires IsAscii(text)
    ensures text == RStrip(text, '\0') + Repeat('\0', |text| - |RStrip(text, '\0')|)
  {
    if text != [] && text[|text| - 1] == '\0' {
      var init := text[..|text| - 1];
      PaddedAgain(init);
      assert text == init + ['\0'];
      assert Repeat('\0', |init| - |RStrip(init, '\0')|) + ['\0'] == Repeat('\0', |text| - |RStrip(text, '\0')|);
    }
  }

  lemma AsciiBytesConcat(a: string, b: string)
    requires IsAscii(a) && IsAscii(b)
    ensures IsAscii(a + b) && AsciiBytes(a + b) == AsciiBytes(a) + AsciiBytes(b)
  {}

  lemma {:induction false} RStripNuls(n: nat)
    ensures RStrip(Repeat('\0', n), '\0') == []
  {
    if n > 0 {
      assert Repeat('\0', n)[..n - 1] == Repeat('\0', n - 1);
      RStripNuls(n - 1);
    }
  }

  lemma LStripOfClear(s: string, z: char)
    requires s == [] || s[0] != z
    ensures LStrip(s, z) == s
  {}

  /** A field is what its own reading is written as if and only if it is a padded text. */
  lemma {:induction false} FieldReencodesIff(field: seq<byte>)
    ensures IdField(ReadBothStripped(field), |field|) == Ok(field) <==> IsIdField(field)
  {
    if IsIdField(field) {
      IdFieldReencodes(field);
    }
    if IdField(ReadBothStripped(field), |field|) == Ok(field) {
      LStripFacts(RStrip(DecodeIgnore(field), '\0'), '\0');
    }
  }

  /** Reading an ASCII field that is empty, begins with a character, or is all NULs strips its right end only. */
  lemma {:induction false} ReadsAsText(text: string)
    requires IsAscii(text) && (text == "" || text[0] != '\0' || text == Repeat('\0', |text|))
    ensures ReadBothStripped(AsciiBytes(text)) == RStrip(text, '\0')
  {
    DecodeEncoded(text);
    if text == Repeat('\0', |text|) {
      RStripNuls(|text|);
    }
    LStripOfClear(RStrip(text, '\0'), '\0');
  }

  /** Padding the right-stripped text again gives the text's bytes. */
  lemma {:induction false} PaddedBytes(text: string)
    requires IsAscii(text)
    ensures var id := RStrip(text, '\0');
      IsAscii(id) && AsciiBytes(id) + Repeat(NUL, |text| - |id|) == AsciiBytes(text)
  {
    var id := RStrip(text, '\0');
    var n := |text| - |id|;
    PaddedAgain(text);
    AsciiBytesConcat(id, Repeat('\0', n));
    assert AsciiBytes(Repeat('\0', n)) == Repeat(NUL, n);
  }

  lemma AllNulText(field: seq<byte>)
    requires IsIdField(field)
    ensures var text := FieldText(field); text == "" || text[0] != '\0' || text == Repeat('\0', |text|)
  {
    var text := FieldText(field);
    if field != [] && field[0] == NUL {
      assert forall i :: 0 <= i < |field| ==> text[i] == '\0';
    }
  }

  lemma {:induction false} TextReencodes(text: string)
    requires IsAscii(text) && (text == "" || text[0] != '\0' || text == Repeat('\0', |text|))
    ensures IdField(ReadBothStripped(AsciiBytes(text)), |text|) == Ok(AsciiBytes(text))
  {
    ReadsAsText(text);
    PaddedBytes(text);
  }

  lemma {:induction false} IdFieldReencodes(field: seq<byte>)
    requires IsIdField(field)
    ensures IdField(ReadBothStripped(field), |field|) == Ok(field)
  {
    AllNulText(field);
    TextReencodes(FieldText(field));
  }

  /** Every accepted command is rebuilt to its own bytes before the trailer exactly when its identity field is a padded
      text. */
  lemma {:induction false} AcceptedRebuildsIff(buffer: seq<byte>)
    requires ParseMultiple(buffer).Some?
    ensures var c := ParseMultiple(buffer).value;
      M.IsFunction(c.f) && (BuildMultiple(c) == Ok(buffer[..COMMAND_SIZE + |c.values|]) <==> IsIdField(buffer[8..38]))
  {
    var c := ParseMultiple(buffer).value;
    var h := Header(c.deviceId, c.f, c.start, c.end);
    var core := COMMAND_SIZE + |c.values|;
    FieldReencodesIff(buffer[8..38]);
    if IsIdField(buffer[8..38]) {
      CanonicalPacks(buffer, h, |c.values|);
      assert buffer[..core] == buffer[..COMMAND_SIZE] + c.values;
    }
    if BuildMultiple(c) == Ok(buffer[..core]) {
      PackLayout(h, |c.values|);
      assert buffer[8..38] == buffer[..core][8..38] == Pack(h, |c.values|).value[8..38];
    }
  }

  lemma CanonicalPacks(buffer: seq<byte>, h: Header, extra: nat)
    requires M.IsFunction(h.f) && Unpack(buffer) == Some((h, COMMAND_SIZE + extra))
    requires IdField(h.deviceId, M.ID_WIDTH) == Ok(buffer[8..38])
    ensures Pack(h, extra) == Ok(buffer[..COMMAND_SIZE])
  {
    PutGotU16(buffer, 0);
    PutGotU16(buffer, 2);
    PutGotU16(buffer, 4);
    PutGotU16(buffer, 38);
    PutGotU16(buffer, 40);
    assert buffer[..COMMAND_SIZE] ==
      buffer[0..2] + buffer[2..4] + buffer[4..6] + [buffer[6], buffer[7]] + buffer[8..38] + buffer[38..40] +
        buffer[40..42];
  }
}
