/** Bytes, little-endian numbers and bit strings. */
module Bytes {
  newtype byte = x: int | 0 <= x < 256

  /** Text as the program stores it. */
  type Utf8 = seq<byte>

  function Pow2(n: nat): (r: nat)
    ensures r > 0
  {
    if n == 0 then 1 else 2 * Pow2(n - 1)
  }

  function Pow256(n: nat): (r: nat)
    ensures r > 0
  {
    if n == 0 then 1 else 256 * Pow256(n - 1)
  }

  // ----- little-endian numbers -----

  function LittleEndian(value: nat, width: nat): (r: seq<byte>)
    ensures |r| == width
  {
    if width == 0 then [] else [(value % 256) as byte] + LittleEndian(value / 256, width - 1)
  }

  function FromLittleEndian(bytes: seq<byte>): nat {
    if bytes == [] then 0 else bytes[0] as nat + 256 * FromLittleEndian(bytes[1..])
  }

  lemma {:induction false} LittleEndianRoundTrip(value: nat, width: nat)
    requires value < Pow256(width)
    ensures FromLittleEndian(LittleEndian(value, width)) == value
  {
    if width > 0 {
      LittleEndianRoundTrip(value / 256, width - 1);
      var bytes := LittleEndian(value, width);
      assert bytes[1..] == LittleEndian(value / 256, width - 1);
    }
  }

  // ----- bit strings, most significant bit first -----

  function Bit(b: bool): nat {
    if b then 1 else 0
  }

  function BitValue(bits: seq<bool>): nat {
    if bits == [] then 0 else 2 * BitValue(bits[..|bits| - 1]) + Bit(bits[|bits| - 1])
  }

  function Repeat(b: bool, n: nat): (r: seq<bool>)
    ensures |r| == n && forall i :: 0 <= i < n ==> r[i] == b
  {
    seq(n, _ => b)
  }

  lemma {:induction false} BitValueBound(bits: seq<bool>)
    ensures BitValue(bits) < Pow2(|bits|)
  {
    if bits != [] {
      BitValueBound(bits[..|bits| - 1]);
    }
  }

  /** `word >> shift`. */
  function ShiftRight(word: nat, shift: nat): nat {
    if shift == 0 then word else ShiftRight(word / 2, shift - 1)
  }

  /** Bit `shift` of a word, counted from the least significant: `word & 1 << shift != 0`. */
  predicate BitSet(word: nat, shift: nat) {
    ShiftRight(word, shift) % 2 == 1
  }

  lemma {:induction false} BitValueHalves(bits: seq<bool>)
    requires bits != []
    ensures BitValue(bits) / 2 == BitValue(bits[..|bits| - 1])
    ensures BitValue(bits) % 2 == Bit(bits[|bits| - 1])
  {
  }

  lemma {:induction false} ShiftDropsBits(bits: seq<bool>, shift: nat)
    requires shift <= |bits|
    ensures ShiftRight(BitValue(bits), shift) == BitValue(bits[..|bits| - shift])
  {
    if shift == 0 {
      assert bits[..|bits|] == bits;
    } else {
      var init := bits[..|bits| - 1];
      BitValueHalves(bits);
      ShiftDropsBits(init, shift - 1);
      assert init[..|init| - (shift - 1)] == bits[..|bits| - shift];
    }
  }

  /** The bits of a word of `width` bits, most significant first. */
  function WordBits(word: nat, width: nat): (r: seq<bool>)
    ensures |r| == width
  {
    seq(width, i requires 0 <= i < width => BitSet(word, width - 1 - i))
  }

  /** A word keeps every bit it was built from. */
  lemma {:induction false} WordBitsOfValue(bits: seq<bool>)
    ensures WordBits(BitValue(bits), |bits|) == bits
  {
    forall i | 0 <= i < |bits|
      ensures WordBits(BitValue(bits), |bits|)[i] == bits[i]
    {
      var high := bits[..i + 1];
      assert high == bits[..|bits| - (|bits| - 1 - i)];
      ShiftDropsBits(bits, |bits| - 1 - i);
      BitValueHalves(high);
    }
  }

  lemma {:induction false} ZerosHaveNoValue(n: nat)
    ensures BitValue(Repeat(false, n)) == 0
  {
    if n > 0 {
      assert Repeat(false, n)[..n - 1] == Repeat(false, n - 1);
      ZerosHaveNoValue(n - 1);
    }
  }

  /** `word | 1 << shift`. */
  function OrBit(word: nat, shift: nat): nat {
    if BitSet(word, shift) then word else word + Pow2(shift)
  }

  lemma {:induction false} TrailingZeros(high: seq<bool>, low: nat)
    ensures BitValue(high + [true] + Repeat(false, low)) == BitValue(high + Repeat(false, low + 1)) + Pow2(low)
  {
    var a, b := high + [true] + Repeat(false, low), high + Repeat(false, low + 1);
    assert b[..|b| - 1] == high + Repeat(false, low);
    if low == 0 {
      assert a == high + [true];
      assert a[..|a| - 1] == high == b[..|b| - 1];
    } else {
      assert a[..|a| - 1] == high + [true] + Repeat(false, low - 1);
      TrailingZeros(high, low - 1);
    }
  }

  /** Setting the next bit of a word whose lower bits are still clear. */
  lemma {:induction false} OrNextBit(high: seq<bool>, low: nat)
    ensures OrBit(BitValue(high + Repeat(false, low + 1)), low) == BitValue(high + [true] + Repeat(false, low))
  {
    var bits := high + Repeat(false, low + 1);
    ShiftDropsBits(bits, low);
    TrailingZeros(high, low);
    assert bits[..|bits| - low] == high + [false];
    BitValueHalves(high + [false]);
  }

  lemma {:induction false} SixtyFourBits()
    ensures Pow2(64) == Pow256(8) == 0x1_0000_0000_0000_0000
  {
    assert Pow2(8) == 256;
    assert Pow2(16) == 0x1_0000;
    assert Pow2(24) == 0x100_0000;
    assert Pow2(32) == 0x1_0000_0000;
    assert Pow2(40) == 0x100_0000_0000;
    assert Pow2(48) == 0x1_0000_0000_0000;
    assert Pow2(56) == 0x100_0000_0000_0000;
    assert Pow256(2) == 0x1_0000;
    assert Pow256(4) == 0x1_0000_0000;
    assert Pow256(6) == 0x1_0000_0000_0000;
  }
}
