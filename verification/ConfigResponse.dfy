/** 0x0119 config-read responses: a fixed header, repeated TLVs and a two-byte trailer. */
module ConfigResponse {
  import opened Wire

  const HEADER_SIZE := 41
  const LEGACY_SIZE := 45
  const TRAILER_SIZE := 2

  datatype Entry = Entry(registerNo: int, value: string)

  datatype Response = Response(
    header: seq<byte>, messageLength: int, messageType: int, deviceId: string, configType: int, entries: seq<Entry>)

  datatype Tlv = Tlv(registerNo: int, raw: seq<byte>) {
    ghost predicate Encodable() { IsU16(registerNo) && 0 < |raw| <= 0xFFFF }
  }

  function Decoded(t: Tlv): Entry { Entry(t.registerNo, Strip(DecodeReplace(t.raw), '\0')) }

  function EncodeTlv(t: Tlv): seq<byte>
    requires t.Encodable()
  {
    PutU16(t.registerNo) + PutU16(|t.raw|) + t.raw
  }

  ghost predicate AllEncodable(list: seq<Tlv>) { forall i :: 0 <= i < |list| ==> list[i].Encodable() }

  function EncodeTlvs(list: seq<Tlv>): (r: seq<byte>)
    requires AllEncodable(list)
    ensures list != [] ==> |r| > 4
  {
    if list == [] then [] else EncodeTlv(list[0]) + EncodeTlvs(list[1..])
  }

  function DecodedAll(list: seq<Tlv>): seq<Entry> { seq(|list|, i requires 0 <= i < |list| => Decoded(list[i])) }

  /** The TLVs readable at the front of body, stopping at the first one that is empty or cut short. */
  function Scan(body: seq<byte>): seq<Tlv> {
    if |body| < 4 then [] else
    var length := GetU16(body, 2);
    if length <= 0 || 4 + length > |body| then []
    else [Tlv(GetU16(body, 0), body[4..4 + length])] + Scan(body[4 + length..])
  }

  /** The historic layout: register, two reserved bytes, value up to the trailer. */
  function LegacyEntry(data: seq<byte>): Entry
    requires |data| >= LEGACY_SIZE + TRAILER_SIZE
  {
    Decoded(Tlv(GetU16(data, HEADER_SIZE), data[LEGACY_SIZE..|data| - TRAILER_SIZE]))
  }

  function EntriesOf(data: seq<byte>): seq<Entry>
    requires |data| >= HEADER_SIZE + 4 + TRAILER_SIZE
  {
    var found := Scan(data[HEADER_SIZE..|data| - TRAILER_SIZE]);
    if found == [] then [LegacyEntry(data)] else DecodedAll(found)
  }

  /** The TLVs before pos have been found, the rest is still to be scanned. */
  ghost predicate ScannedTo(data: seq<byte>, pos: nat, end: nat, found: seq<Tlv>) {
    HEADER_SIZE <= pos <= end <= |data| && Scan(data[HEADER_SIZE..end]) == found + Scan(data[pos..end])
  }

  lemma ScanBegins(data: seq<byte>, end: nat)
    requires HEADER_SIZE <= end <= |data|
    ensures ScannedTo(data, HEADER_SIZE, end, []) && DecodedAll([]) == []
  {
    assert [] + Scan(data[HEADER_SIZE..end]) == Scan(data[HEADER_SIZE..end]);
  }

  /** The parsing loop: a moving position over repeated register, length and value fields. */
  method ReadEntries(data: seq<byte>) returns (entries: seq<Entry>)
    requires |data| >= HEADER_SIZE + TRAILER_SIZE
    ensures entries == DecodedAll(Scan(data[HEADER_SIZE..|data| - TRAILER_SIZE]))
  {
    var pos, end := HEADER_SIZE, |data| - TRAILER_SIZE;
    entries := [];
    ghost var found: seq<Tlv> := [];
    ScanBegins(data, end);
    while pos + 4 <= end
      invariant ScannedTo(data, pos, end, found) && entries == DecodedAll(found)
      decreases end - pos
    {
      var registerNo, length := GetU16(data, pos), GetU16(data, pos + 2);
      if length <= 0 || pos + 4 + length > end {
        ScanStops(data, pos, end, found);
        return;
      }
      ScanAdvances(data, pos, end, found, length);
      var tlv := Tlv(registerNo, data[pos + 4..pos + 4 + length]);
      pos := pos + 4 + length;
      DecodedAllAppend(found, tlv);
      entries, found := entries + [Decoded(tlv)], found + [tlv];
    }
    ScanStops(data, pos, end, found);
  }

  lemma DecodedAllAppend(list: seq<Tlv>, t: Tlv)
    ensures DecodedAll(list + [t]) == DecodedAll(list) + [Decoded(t)]
  {}

  /** The head of the part from pos, in the packet's own positions. */
  lemma ScanHead(data: seq<byte>, pos: nat, end: nat)
    requires pos + 4 <= end <= |data|
    ensures GetU16(data[pos..end], 0) == GetU16(data, pos) && GetU16(data[pos..end], 2) == GetU16(data, pos + 2)
  {}

  lemma ScanStops(data: seq<byte>, pos: nat, end: nat, found: seq<Tlv>)
    requires ScannedTo(data, pos, end, found)
    requires pos + 4 > end || GetU16(data, pos + 2) == 0 || pos + 4 + GetU16(data, pos + 2) > end
    ensures Scan(data[HEADER_SIZE..end]) == found
  {
    if pos + 4 <= end {
      ScanHead(data, pos, end);
    }
    assert found + [] == found;
  }

  lemma ScanPart(data: seq<byte>, pos: nat, end: nat, length: nat)
    requires pos + 4 <= end <= |data| && length == GetU16(data, pos + 2) > 0 && pos + 4 + length <= end
    ensures Scan(data[pos..end]) ==
      [Tlv(GetU16(data, pos), data[pos + 4..pos + 4 + length])] + Scan(data[pos + 4 + length..end])
  {
    ScanHead(data, pos, end);
    SliceOfSlice(data, pos, end, 4, 4 + length);
    SliceOfSlice(data, pos, end, 4 + length, end - pos);
  }

  lemma ScanAdvances(data: seq<byte>, pos: nat, end: nat, found: seq<Tlv>, length: nat)
    requires ScannedTo(data, pos, end, found)
    requires pos + 4 <= end && length == GetU16(data, pos + 2) > 0 && pos + 4 + length <= end
    ensures ScannedTo(data, pos + 4 + length, end, found + [Tlv(GetU16(data, pos), data[pos + 4..pos + 4 + length])])
  {
    ScanPart(data, pos, end, length);
    var next := Tlv(GetU16(data, pos), data[pos + 4..pos + 4 + length]);
    ConcatAssociates(found, [next], Scan(data[pos + 4 + length..end]));
  }

  method ParseConfigMessage(data: seq<byte>) returns (r: Result<Response>)
    ensures r.Err? <==> |data| < HEADER_SIZE + 4 + TRAILER_SIZE
    ensures r.Ok? ==> r.value == Response(
      data[..4], GetU16(data, 4), GetU16(data, 6), ReadRightPadded(data[8..24]), GetU16(data, 38), EntriesOf(data))
  {
    if |data| < HEADER_SIZE + 4 + TRAILER_SIZE {
      return Err;
    }
    var entries := ReadEntries(data);
    if entries == [] {
      if |data| < LEGACY_SIZE + TRAILER_SIZE {
        return Err;
      }
      entries := [LegacyEntry(data)];
    }
    return Ok(Response(
      data[..4], GetU16(data, 4), GetU16(data, 6), ReadRightPadded(data[8..24]), GetU16(data, 38), entries));
  }

  lemma ScanStep(t: Tlv, rest: seq<byte>)
    requires t.Encodable()
    ensures Scan(EncodeTlv(t) + rest) == [t] + Scan(rest)
  {
    var body := EncodeTlv(t) + rest;
    assert body[0..2] == PutU16(t.registerNo) && body[2..4] == PutU16(|t.raw|);
    GetPutU16(body, 0, t.registerNo);
    GetPutU16(body, 2, |t.raw|);
    assert body[4..4 + |t.raw|] == t.raw && body[4 + |t.raw|..] == rest;
  }

  /** A TLV of which any part is missing contributes nothing. */
  lemma ScanStopsAtPartial(cut: seq<byte>, t: Tlv)
    requires t.Encodable() && cut < EncodeTlv(t)
    ensures Scan(cut) == []
  {
    if |cut| >= 4 {
      assert cut[2] == EncodeTlv(t)[2] && cut[3] == EncodeTlv(t)[3];
      assert cut[2..4] == PutU16(|t.raw|);
      GetPutU16(cut, 2, |t.raw|);
    }
  }

  lemma {:induction false} ScanFindsAll(list: seq<Tlv>, cut: seq<byte>)
    requires AllEncodable(list) && Scan(cut) == []
    ensures Scan(EncodeTlvs(list) + cut) == list
  {
    if list == [] {
      assert EncodeTlvs(list) + cut == cut;
    } else {
      assert EncodeTlvs(list) + cut == EncodeTlv(list[0]) + (EncodeTlvs(list[1..]) + cut);
      ScanStep(list[0], EncodeTlvs(list[1..]) + cut);
      ScanFindsAll(list[1..], cut);
    }
  }

  /** A response made of complete TLVs, then at most the beginning of one more, yields exactly the complete ones. */
  lemma {:induction false} ResponseRoundTrip(
      header: seq<byte>, list: seq<Tlv>, cut: seq<byte>, last: Tlv, trailer: seq<byte>)
    requires |header| == HEADER_SIZE && |trailer| == TRAILER_SIZE
    requires AllEncodable(list) && list != [] && last.Encodable() && cut < EncodeTlv(last)
    ensures |header + EncodeTlvs(list) + cut + trailer| >= HEADER_SIZE + 4 + TRAILER_SIZE
    ensures EntriesOf(header + EncodeTlvs(list) + cut + trailer) == DecodedAll(list)
  {
    var body := EncodeTlvs(list) + cut;
    var data := header + EncodeTlvs(list) + cut + trailer;
    assert data == header + body + trailer;
    assert data[HEADER_SIZE..|data| - TRAILER_SIZE] == body;
    ScanStopsAtPartial(cut, last);
    ScanFindsAll(list, cut);
  }

  /** The header that a device writes: its length and type, its identity, fourteen reserved bytes, the config type, a
      separator. */
  function EncodeHeader(
      start: seq<byte>, messageLength: int, messageType: int, deviceId: string, configType: int,
      separator: byte): seq<byte>
    requires IsU16(messageLength) && IsU16(messageType) && IsU16(configType) && IdField(deviceId, 16).Ok?
  {
    start + PutU16(messageLength) + PutU16(messageType) + IdField(deviceId, 16).value + Repeat(NUL, 14) +
      PutU16(configType) + [separator]
  }

  /** Whatever follows it, the header's fields are read back, the identity without trailing NULs. */
  lemma {:induction false} HeaderReadsBack(
    start: seq<byte>, messageLength: int, messageType: int, deviceId: string, configType: int, separator: byte,
    rest: seq<byte>)
    requires |start| == 4 && IsU16(messageLength) && IsU16(messageType) && IsU16(configType)
    requires IdField(deviceId, 16).Ok?
    ensures var data := EncodeHeader(start, messageLength, messageType, deviceId, configType, separator) + rest;
      && |data| == HEADER_SIZE + |rest|
      && data[..4] == start && GetU16(data, 4) == messageLength && GetU16(data, 6) == messageType
      && ReadRightPadded(data[8..24]) == RStrip(deviceId, '\0') && GetU16(data, 38) == configType
  {
    var header := EncodeHeader(start, messageLength, messageType, deviceId, configType, separator);
    var data := header + rest;
    HeaderLayout(start, messageLength, messageType, deviceId, configType, separator);
    PrefixSlice(header, rest, 0, 4);
    PrefixSlice(header, rest, 4, 6);
    PrefixSlice(header, rest, 6, 8);
    PrefixSlice(header, rest, 8, 24);
    PrefixSlice(header, rest, 38, 40);
    GetPutU16(data, 4, messageLength);
    GetPutU16(data, 6, messageType);
    GetPutU16(data, 38, configType);
    IdFieldReadBack(deviceId, 16);
  }

  lemma HeaderLayout(
    start: seq<byte>, messageLength: int, messageType: int, deviceId: string, configType: int, separator: byte)
    requires |start| == 4 && IsU16(messageLength) && IsU16(messageType) && IsU16(configType)
    requires IdField(deviceId, 16).Ok?
    ensures var header := EncodeHeader(start, messageLength, messageType, deviceId, configType, separator);
      && |header| == HEADER_SIZE && header[0..4] == start && header[4..6] == PutU16(messageLength)
      && header[6..8] == PutU16(messageType) && header[8..24] == IdField(deviceId, 16).value
      && header[38..40] == PutU16(configType)
  {
    var id := IdField(deviceId, 16).value;
    var front, back :=
      start + PutU16(messageLength) + PutU16(messageType), Repeat(NUL, 14) + PutU16(configType) + [separator];
    assert |front| == 8 && |id| == 16 && |back| == 17;
    assert EncodeHeader(start, messageLength, messageType, deviceId, configType, separator) == front + id + back;
  }

  function TextTlv(registerNo: int, value: string): Tlv
    requires IsAscii(value)
  {
    Tlv(registerNo, AsciiBytes(value))
  }

  /** An ASCII value comes back unchanged exactly when it has no NUL at either end. */
  lemma TextSurvivesIff(registerNo: int, value: string)
    requires IsAscii(value)
    ensures Decoded(TextTlv(registerNo, value)) == Entry(registerNo, value) <==> BothEndsClear(value, '\0')
  {
    DecodeEncoded(value);
    StripUnchangedIff(value, '\0');
  }

  /** Text values as a device writes them. */
  ghost predicate AllTexts(texts: seq<(int, string)>) {
    forall i :: 0 <= i < |texts| ==> IsU16(texts[i].0) && IsAscii(texts[i].1) && 0 < |texts[i].1| <= 0xFFFF
  }

  function TextTlvs(texts: seq<(int, string)>): (r: seq<Tlv>)
    requires AllTexts(texts)
    ensures |r| == |texts| && AllEncodable(r)
  {
    seq(|texts|, i requires 0 <= i < |texts| => TextTlv(texts[i].0, texts[i].1))
  }

  function TextEntries(texts: seq<(int, string)>): seq<Entry> {
    seq(|texts|, i requires 0 <= i < |texts| => Entry(texts[i].0, texts[i].1))
  }

  lemma TextsDecodeIff(texts: seq<(int, string)>)
    requires AllTexts(texts)
    ensures DecodedAll(TextTlvs(texts)) == TextEntries(texts) <==>
      forall i :: 0 <= i < |texts| ==> BothEndsClear(texts[i].1, '\0')
  {
    var decoded, entries := DecodedAll(TextTlvs(texts)), TextEntries(texts);
    forall i | 0 <= i < |texts|
      ensures decoded[i] == entries[i] <==> BothEndsClear(texts[i].1, '\0')
    {
      TextSurvivesIff(texts[i].0, texts[i].1);
    }
  }

  /** A response of text values, whatever part of one more follows, gives back exactly these registers and texts, in
      order, if and only if no text has a NUL at either end. */
  lemma TextResponseIff(header: seq<byte>, texts: seq<(int, string)>, cut: seq<byte>, last: Tlv, trailer: seq<byte>)
    requires |header| == HEADER_SIZE && |trailer| == TRAILER_SIZE
    requires AllTexts(texts) && texts != [] && last.Encodable() && cut < EncodeTlv(last)
    ensures |header + EncodeTlvs(TextTlvs(texts)) + cut + trailer| >= HEADER_SIZE + 4 + TRAILER_SIZE
    ensures EntriesOf(header + EncodeTlvs(TextTlvs(texts)) + cut + trailer) == TextEntries(texts) <==>
      forall i :: 0 <= i < |texts| ==> BothEndsClear(texts[i].1, '\0')
  {
    ResponseRoundTrip(header, TextTlvs(texts), cut, last, trailer);
    TextsDecodeIff(texts);
  }
}
