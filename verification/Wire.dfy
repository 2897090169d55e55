/** Bytes, big-endian words and the text conversions that every packet format shares. */
module Wire {

  type byte = b: int | 0 <= b < 256

  datatype Option<+T> = None | Some(value: T)

  datatype Result<+T> = Ok(value: T) | Err

  function Lookup<K, V>(m: map<K, V>, key: K): Option<V> { if key in m then Some(m[key]) else None }

  const NUL: byte := 0

  predicate IsU16(n: int) { 0 <= n < 0x1_0000 }

  /** struct.pack(">H", n) */
  function PutU16(n: int): seq<byte>
    requires IsU16(n)
  {
    [n / 256, n % 256]
  }

  /** struct.unpack_from(">H", s, at) */
  function GetU16(s: seq<byte>, at: nat): (n: int)
    requires at + 2 <= |s|
    ensures IsU16(n)
  {
    s[at] as int * 256 + s[at + 1] as int
  }

  lemma GetPutU16(s: seq<byte>, at: nat, n: int)
    requires IsU16(n) && at + 2 <= |s| && s[at..at + 2] == PutU16(n)
    ensures GetU16(s, at) == n
  {
    assert s[at] == s[at..at + 2][0] && s[at + 1] == s[at..at + 2][1];
  }

  lemma PutGotU16(s: seq<byte>, at: nat)
    requires at + 2 <= |s|
    ensures PutU16(GetU16(s, at)) == s[at..at + 2]
  {}

  lemma TakeMore<T>(s: seq<T>, i: nat)
    requires i < |s|
    ensures s[..i + 1] == s[..i] + [s[i]]
  {}

  lemma TakeEnds<T>(s: seq<T>)
    ensures s[..0] == [] && s[..|s|] == s
  {}

  lemma ConcatAssociates<T>(a: seq<T>, b: seq<T>, c: seq<T>)
    ensures a + (b + c) == a + b + c
  {}

  lemma SliceOfSlice<T>(s: seq<T>, a: nat, b: nat, i: nat, j: nat)
    requires a <= b <= |s| && i <= j <= b - a
    ensures s[a..b][i..j] == s[a + i..a + j]
  {
    var inner, direct := s[a..b][i..j], s[a + i..a + j];
    forall k | 0 <= k < j - i
      ensures inner[k] == direct[k]
    {
      assert s[a..b][i + k] == s[a + i + k];
    }
  }

  lemma PrefixSlice<T>(first: seq<T>, rest: seq<T>, i: nat, j: nat)
    requires i <= j <= |first|
    ensures (first + rest)[i..j] == first[i..j]
  {}

  /** A slice that is a concatenation splits where its first part ends. */
  lemma SplitSlice<T>(s: seq<T>, a: nat, b: nat, c: nat, first: seq<T>, rest: seq<T>)
    requires a <= b <= c <= |s| && |first| == b - a && s[a..c] == first + rest
    ensures s[a..b] == first && s[b..c] == rest
  {
    SliceOfSlice(s, a, c, 0, b - a);
    SliceOfSlice(s, a, c, b - a, c - a);
  }

  function Repeat<T>(x: T, n: nat): seq<T> { seq(n, i => x) }

  /** bytes.rstrip / str.rstrip for one character */
  function RStrip<T(==)>(s: seq<T>, z: T): (r: seq<T>)
    ensures r <= s && EndsClear(r, z)
  {
    if s != [] && s[|s| - 1] == z then RStrip(s[..|s| - 1], z) else s
  }

  function LStrip<T(==)>(s: seq<T>, z: T): seq<T> {
    if s != [] && s[0] == z then LStrip(s[1..], z) else s
  }

  /** str.strip for one character: both ends */
  function Strip<T(==)>(s: seq<T>, z: T): seq<T> { LStrip(RStrip(s, z), z) }

  predicate EndsClear<T(==)>(s: seq<T>, z: T) { s == [] || s[|s| - 1] != z }

  predicate BothEndsClear<T(==)>(s: seq<T>, z: T) { s == [] || (s[0] != z && s[|s| - 1] != z) }

  /** Padding on the right is exactly what stripping the right removes. */
  lemma {:induction false} RStripPadded<T>(s: seq<T>, z: T, n: nat)
    ensures RStrip(s + Repeat(z, n), z) == RStrip(s, z)
    decreases n
  {
    var padded := s + Repeat(z, n);
    if n == 0 {
      assert padded == s;
    } else {
      assert padded[..|padded| - 1] == s + Repeat(z, n - 1);
      RStripPadded(s, z, n - 1);
    }
  }

  lemma LStripFacts<T>(s: seq<T>, z: T)
    ensures |LStrip(s, z)| <= |s|
    ensures LStrip(s, z) == [] || LStrip(s, z)[0] != z
  {}

  lemma StripUnchangedIff<T>(s: seq<T>, z: T)
    ensures RStrip(s, z) == s <==> EndsClear(s, z)
    ensures Strip(s, z) == s <==> BothEndsClear(s, z)
  {
    LStripFacts(RStrip(s, z), z);
  }

  predicate IsAscii(s: string) { forall i :: 0 <= i < |s| ==> s[i] as int < 128 }

  /** str.encode("ascii"), which raises on anything else */
  function EncodeAscii(s: string): Result<seq<byte>> {
    if IsAscii(s) then Ok(AsciiBytes(s)) else Err
  }

  function AsciiBytes(s: string): (r: seq<byte>)
    requires IsAscii(s)
    ensures |r| == |s|
  {
    seq(|s|, i requires 0 <= i < |s| => s[i] as int)
  }

  /** bytes.decode("ascii", errors="replace") */
  function DecodeReplace(s: seq<byte>): (r: string)
    ensures |r| == |s|
  {
    seq(|s|, i requires 0 <= i < |s| => if s[i] < 128 then s[i] as char else '\U{FFFD}')
  }

  /** bytes.decode("ascii", errors="ignore") */
  function DecodeIgnore(s: seq<byte>): string {
    if s == [] then []
    else (if s[0] < 128 then [s[0] as char] else []) + DecodeIgnore(s[1..])
  }

  lemma DecodeEncoded(s: string)
    requires IsAscii(s)
    ensures DecodeReplace(AsciiBytes(s)) == s
    ensures DecodeIgnore(AsciiBytes(s)) == s
  {
    if s != [] {
      DecodeEncoded(s[1..]);
      assert AsciiBytes(s)[1..] == AsciiBytes(s[1..]);
    }
  }

  lemma {:induction false} DecodeIgnoreConcat(a: seq<byte>, b: seq<byte>)
    ensures DecodeIgnore(a + b) == DecodeIgnore(a) + DecodeIgnore(b)
  {
    if a == [] {
      assert a + b == b;
    } else {
      DecodeIgnoreConcat(a[1..], b);
      assert (a + b)[0] == a[0] && (a + b)[1..] == a[1..] + b;
      ConcatAssociates(if a[0] < 128 then [a[0] as char] else [], DecodeIgnore(a[1..]), DecodeIgnore(b));
    }
  }

  lemma {:induction false} DecodeIgnoreNuls(n: nat)
    ensures DecodeIgnore(Repeat(NUL, n)) == Repeat('\0', n)
  {
    if n > 0 {
      DecodeIgnoreNuls(n - 1);
      assert Repeat(NUL, n)[1..] == Repeat(NUL, n - 1);
    }
  }

  /** A fixed-width identity field: ASCII, right-padded with NULs, refused when too long. */
  function IdField(id: string, width: nat): (r: Result<seq<byte>>)
    ensures r.Ok? <==> IsAscii(id) && |id| <= width
    ensures r.Ok? ==> |r.value| == width
  {
    if IsAscii(id) && |id| <= width then Ok(AsciiBytes(id) + Repeat(NUL, width - |id|)) else Err
  }

  /** data[...].rstrip(NUL).decode("ascii", errors="replace") */
  function ReadRightPadded(field: seq<byte>): string { DecodeReplace(RStrip(field, NUL)) }

  /** data[...].decode("ascii", errors="ignore").strip(NUL) */
  function ReadBothStripped(field: seq<byte>): string { Strip(DecodeIgnore(field), '\0') }

  lemma {:induction false} RStripAscii(s: string)
    requires IsAscii(s)
    ensures RStrip(AsciiBytes(s), NUL) == AsciiBytes(RStrip(s, '\0'))
  {
    if s != [] && s[|s| - 1] == '\0' {
      RStripAscii(s[..|s| - 1]);
      assert AsciiBytes(s)[..|s| - 1] == AsciiBytes(s[..|s| - 1]);
    }
  }

  /** What a reader gets back from a padded identity field, for every identity that fits. */
  lemma {:induction false} IdFieldReadBack(id: string, width: nat)
    requires IsAscii(id) && |id| <= width
    ensures ReadRightPadded(IdField(id, width).value) == RStrip(id, '\0')
  {
    RStripPadded(AsciiBytes(id), NUL, width - |id|);
    RStripAscii(id);
    DecodeEncoded(RStrip(id, '\0'));
  }

  lemma IdFieldReadBackBoth(id: string, width: nat)
    requires IsAscii(id) && |id| <= width
    ensures ReadBothStripped(IdField(id, width).value) == Strip(id, '\0')
  {
    var n := width - |id|;
    DecodeIgnoreConcat(AsciiBytes(id), Repeat(NUL, n));
    DecodeEncoded(id);
    DecodeIgnoreNuls(n);
    RStripPadded(id, '\0', n);
  }
}
