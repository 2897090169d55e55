/** The repeating XOR mask that Growatt lays over every packet after its 8-byte header. */
module Scramble {
  import opened Wire

  /** "Growatt" */
  const MASK: seq<byte> := [71, 114, 111, 119, 97, 116, 116]
  const CLEAR_HEADER := 8

  /** Bitwise exclusive or, least significant bit first. */
  function Xor(a: nat, b: nat): nat {
    if a == 0 && b == 0 then 0 else 2 * Xor(a / 2, b / 2) + (a + b) % 2
  }

  lemma {:induction false} XorFits(a: nat, b: nat, bits: nat, limit: nat)
    requires a < limit && b < limit && limit == Pow2(bits)
    ensures Xor(a, b) < limit
    decreases bits
  {
    if bits > 0 {
      XorFits(a / 2, b / 2, bits - 1, Pow2(bits - 1));
    }
  }

  function Pow2(n: nat): nat { if n == 0 then 1 else 2 * Pow2(n - 1) }

  lemma {:induction false} XorUndoes(a: nat, m: nat)
    ensures Xor(Xor(a, m), m) == a
    decreases a + m
  {
    if a != 0 || m != 0 {
      var half, bit := Xor(a / 2, m / 2), (a + m) % 2;
      assert Xor(a, m) == 2 * half + bit;
      XorUndoes(a / 2, m / 2);
      XorStep(half, bit, m);
      ParityUndoes(a, m);
    }
  }

  lemma ParityUndoes(a: nat, m: nat)
    ensures ((a + m) % 2 + m) % 2 == a % 2
  {
    ParityOfSum(a, m);
  }

  lemma LowestBit(half: nat, bit: nat, m: nat)
    requires bit < 2
    ensures (2 * half + bit) / 2 == half && (2 * half + bit + m) % 2 == (bit + m) % 2
  {
    assert 2 * half + bit + m == (bit + m) + 2 * half;
  }

  /** One unfolding of Xor on a number given by its lowest bit and the rest. */
  lemma XorStep(half: nat, bit: nat, m: nat)
    requires bit < 2
    ensures Xor(2 * half + bit, m) == 2 * Xor(half, m / 2) + (bit + m) % 2
  {
    LowestBit(half, bit, m);
  }

  function XorByte(a: byte, b: byte): byte {
    assert Xor(a, b) < 256 by {
      assert Pow2(8) == 256 by { assert Pow2(4) == 16; }
      XorFits(a, b, 8, 256);
    }
    Xor(a, b)
  }

  /** Bit k of a number, counted from the lowest. */
  function Bit(n: nat, k: nat): nat { if k == 0 then n % 2 else Bit(n / 2, k - 1) }

  lemma {:induction false} XorBits(a: nat, b: nat, k: nat)
    ensures Bit(Xor(a, b), k) == (Bit(a, k) + Bit(b, k)) % 2
    decreases k
  {
    XorHalves(a, b);
    if k > 0 {
      XorBits(a / 2, b / 2, k - 1);
    }
  }

  /** The lowest bit of the exclusive or, and the rest of it. */
  lemma XorHalves(a: nat, b: nat)
    ensures Xor(a, b) / 2 == Xor(a / 2, b / 2) && Xor(a, b) % 2 == (a % 2 + b % 2) % 2
  {
    if a != 0 || b != 0 {
      LowestBit(Xor(a / 2, b / 2), (a + b) % 2, 0);
      ParityOfSum(a, b);
    }
  }

  lemma ParityOfSum(a: nat, b: nat)
    ensures (a + b) % 2 == (a % 2 + b % 2) % 2
  {
    LowestBit(a / 2 + b / 2, a % 2, b % 2);
    assert a + b == 2 * (a / 2 + b / 2) + a % 2 + b % 2;
  }

  /** The byte at one position depends on that position alone. */
  function ScrambledAt(pkt: seq<byte>, i: nat): byte
    requires i < |pkt|
  {
    if i < CLEAR_HEADER then pkt[i] else XorByte(pkt[i], MASK[(i - CLEAR_HEADER) % |MASK|])
  }

  function Scrambled(pkt: seq<byte>): (r: seq<byte>)
    ensures |r| == |pkt|
  {
    seq(|pkt|, i requires 0 <= i < |pkt| => ScrambledAt(pkt, i))
  }

  /** The source's loop: XOR in place while a mask index wraps by comparison. */
  method ScrambleInPlace(out: array<byte>)
    modifies out
    ensures out[..] == Scrambled(old(out[..]))
  {
    var maskIndex := 0;
    for index := CLEAR_HEADER to if out.Length < CLEAR_HEADER then CLEAR_HEADER else out.Length
      invariant 0 <= maskIndex < |MASK|
      invariant maskIndex == (index - CLEAR_HEADER) % |MASK|
      invariant forall j :: 0 <= j < index && j < out.Length ==> out[j] == ScrambledAt(old(out[..]), j)
      invariant forall j :: index <= j < out.Length ==> out[j] == old(out[j])
    {
      out[index] := XorByte(out[index], MASK[maskIndex]);
      maskIndex := maskIndex + 1;
      if maskIndex == |MASK| {
        maskIndex := 0;
      }
    }
  }

  /** The mask is a word in letters. From position 8 on every bit of the word, repeated, flips the packet's bit where it
      is set; before that nothing changes. */
  lemma EveryBitIsMasked(pkt: seq<byte>, i: nat, k: nat)
    requires i < |pkt|
    ensures i < 8 ==> Scrambled(pkt)[i] == pkt[i]
    ensures i >= 8 ==>
      Bit(Scrambled(pkt)[i], k) == (Bit(pkt[i], k) + Bit("Growatt"[(i - 8) % 7] as int, k)) % 2
  {
    if i >= 8 {
      MaskIsWord((i - 8) % 7);
      XorBits(pkt[i], MASK[(i - 8) % 7], k);
    }
  }

  lemma MaskIsWord(j: nat)
    requires j < 7
    ensures |MASK| == |"Growatt"| == 7 && IsAscii("Growatt") && MASK == AsciiBytes("Growatt")
    ensures MASK[j] == "Growatt"[j] as int
  {
    var letters := "Growatt";
    assert letters[0] == 'G' && letters[1] == 'r' && letters[2] == 'o' && letters[3] == 'w' && letters[4] == 'a';
    assert letters[5] == 't' && letters[6] == 't';
  }

  /** Scrambling twice restores every packet, so one routine serves both directions. */
  lemma ScrambleIsInvolution(pkt: seq<byte>)
    ensures Scrambled(Scrambled(pkt)) == pkt
  {
    forall i | 0 <= i < |pkt|
      ensures Scrambled(Scrambled(pkt))[i] == pkt[i]
    {
      if i >= CLEAR_HEADER {
        XorUndoes(pkt[i], MASK[(i - CLEAR_HEADER) % |MASK|]);
      }
    }
  }

  /** Scrambling commutes with taking prefixes: what is appended later cannot change earlier bytes. */
  lemma ScramblePrefix(pkt: seq<byte>, tail: seq<byte>)
    ensures Scrambled(pkt + tail)[..|pkt|] == Scrambled(pkt)
  {}

  /** A receiver that unscrambles a packet with an unscrambled trailer recovers the plain packet. */
  lemma {:induction false} UnscrambleWithTrailer(pkt: seq<byte>, trailer: seq<byte>)
    ensures Scrambled(Scrambled(pkt) + trailer)[..|pkt|] == pkt
  {
    ScramblePrefix(Scrambled(pkt), trailer);
    ScrambleIsInvolution(pkt);
  }
}
