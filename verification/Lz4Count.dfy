/** Counting equal bytes a 32-bit word at a time (`LZ4_NbCommonBytes` and `LZ4_count` on a
    little-endian machine with 32-bit registers). */
module Lz4Count {
  import opened Lz4Format

  // ---------------------------------------------------------------- one word

  /** A word as `LZ4_read_ARCH` reads it: the byte at the lowest address is the lowest. */
  function Word(b0: bv8, b1: bv8, b2: bv8, b3: bv8): bv32 {
    (b0 as bv32) | ((b1 as bv32) << 8) | ((b2 as bv32) << 16) | ((b3 as bv32) << 24)
  }

  /** Number of zero bits below the lowest one bit. */
  function TrailingZeros(v: bv32): nat
    requires v != 0
    decreases v
  {
    if v & 1 == 1 then 0 else Halved(v); 1 + TrailingZeros(v >> 1)
  }

  lemma Halved(v: bv32)
    requires v != 0 && v & 1 == 0
    ensures v >> 1 != 0 && v >> 1 < v
  {
  }

  /** `LZ4_NbCommonBytes` by counting trailing zero bits. */
  function NbCommonBytes(diff: bv32): nat
    requires diff != 0
  {
    TrailingZeros(diff) / 8
  }

  /** `LZ4_NbCommonBytes` without that instruction: a multiplication moves the answer into
      the top byte. */
  function NbCommonBytesMultiplied(diff: bv32): bv32 {
    ((((diff - 1) ^ diff) & 0x0101_0100) * 0x0101_0101) >> 24
  }

  /** Number of leading bytes in which two words agree. */
  function Agreeing(a0: bv8, a1: bv8, a2: bv8, b0: bv8, b1: bv8, b2: bv8): nat {
    if a0 != b0 then 0 else if a1 != b1 then 1 else if a2 != b2 then 2 else 3
  }

  lemma MultipliedByLowByte(d: bv32)
    requires d != 0
    ensures NbCommonBytesMultiplied(d) ==
            if d & 0xff != 0 then 0 else if d & 0xffff != 0 then 1 else if d & 0xff_ffff != 0 then 2 else 3
  {
    var x := (d - 1) ^ d;
    if d & 0xff != 0 {
      assert x & 0x0101_0100 == 0;
    } else if d & 0xffff != 0 {
      assert x & 0x0101_0100 == 0x0000_0100;
    } else if d & 0xff_ffff != 0 {
      assert x & 0x0101_0100 == 0x0001_0100;
    } else {
      assert x & 0x0101_0100 == 0x0101_0100;
    }
  }

  /** Eight zero bits count as eight. */
  lemma ZeroByte(v: bv32)
    requires v != 0
    ensures if v & 0xff == 0 then v >> 8 != 0 && TrailingZeros(v) == 8 + TrailingZeros(v >> 8)
            else TrailingZeros(v) < 8
  {
    ZeroNibble(v);
    if v & 0xf == 0 {
      ZeroNibble(v >> 4);
      assert (v >> 4) >> 4 == v >> 8;
      assert v & 0xff == 0 <==> (v >> 4) & 0xf == 0;
    } else {
      assert v & 0xff != 0;
    }
  }

  lemma ZeroNibble(v: bv32)
    requires v != 0
    ensures if v & 0xf == 0 then v >> 4 != 0 && TrailingZeros(v) == 4 + TrailingZeros(v >> 4)
            else TrailingZeros(v) < 4
  {
    ZeroPair(v);
    if v & 3 == 0 {
      ZeroPair(v >> 2);
      assert (v >> 2) >> 2 == v >> 4;
      assert v & 0xf == 0 <==> (v >> 2) & 3 == 0;
    } else {
      assert v & 0xf != 0;
    }
  }

  lemma ZeroPair(v: bv32)
    requires v != 0
    ensures if v & 3 == 0 then v >> 2 != 0 && TrailingZeros(v) == 2 + TrailingZeros(v >> 2)
            else TrailingZeros(v) < 2
  {
    if v & 1 == 0 {
      Halved(v);
      var w := v >> 1;
      assert TrailingZeros(v) == 1 + TrailingZeros(w);
      assert w >> 1 == v >> 2;
      assert v & 3 == 0 <==> w & 1 == 0;
      if w & 1 == 0 {
        Halved(w);
      }
    } else {
      assert v & 3 != 0;
    }
  }

  lemma CountedByLowByte(d: bv32)
    requires d != 0
    ensures NbCommonBytes(d) ==
            if d & 0xff != 0 then 0 else if d & 0xffff != 0 then 1 else if d & 0xff_ffff != 0 then 2 else 3
  {
    ZeroByte(d);
    if d & 0xff == 0 {
      var e := d >> 8;
      ZeroByte(e);
      assert d & 0xffff == 0 <==> e & 0xff == 0;
      if e & 0xff == 0 {
        var f := e >> 8;
        ZeroByte(f);
        assert d & 0xff_ffff == 0 <==> f & 0xff == 0;
        if f & 0xff == 0 {
          var g := f >> 8;
          assert g == d >> 24;
          ZeroByte(g);
          assert g & 0xff != 0;
        }
      }
    }
  }

  lemma XorOfWords(a0: bv8, a1: bv8, a2: bv8, a3: bv8, b0: bv8, b1: bv8, b2: bv8, b3: bv8)
    ensures Word(a0, a1, a2, a3) ^ Word(b0, b1, b2, b3) == Word(a0 ^ b0, a1 ^ b1, a2 ^ b2, a3 ^ b3)
  {
  }

  lemma LowBytesOfWord(b0: bv8, b1: bv8, b2: bv8, b3: bv8)
    ensures var w := Word(b0, b1, b2, b3);
            && (w & 0xff == 0 <==> b0 == 0)
            && (w & 0xffff == 0 <==> b0 == 0 && b1 == 0)
            && (w & 0xff_ffff == 0 <==> b0 == 0 && b1 == 0 && b2 == 0)
            && (w == 0 <==> b0 == 0 && b1 == 0 && b2 == 0 && b3 == 0)
  {
    Widened(b0);
    Widened(b1);
    Widened(b2);
    Widened(b3);
    LowBytes(Word(b0, b1, b2, b3), b0 as bv32, b1 as bv32, b2 as bv32, b3 as bv32);
  }

  lemma Widened(b: bv8)
    ensures b as bv32 < 256 && (b as bv32 == 0 <==> b == 0)
  {
  }

  lemma LowBytes(w: bv32, c0: bv32, c1: bv32, c2: bv32, c3: bv32)
    requires c0 < 256 && c1 < 256 && c2 < 256 && c3 < 256
    requires w == c0 | (c1 << 8) | (c2 << 16) | (c3 << 24)
    ensures && (w & 0xff == 0 <==> c0 == 0)
            && (w & 0xffff == 0 <==> c0 == 0 && c1 == 0)
            && (w & 0xff_ffff == 0 <==> c0 == 0 && c1 == 0 && c2 == 0)
            && (w == 0 <==> c0 == 0 && c1 == 0 && c2 == 0 && c3 == 0)
  {
  }

  lemma XorIsZero(a: bv8, b: bv8)
    ensures a ^ b == 0 <==> a == b
  {
  }

  /** The difference of two words is zero exactly for equal words, and otherwise both ways of
      counting give the number of leading bytes that agree. */
  lemma CommonBytesOfDifference(a0: bv8, a1: bv8, a2: bv8, a3: bv8, b0: bv8, b1: bv8, b2: bv8, b3: bv8)
    ensures var d := Word(a0, a1, a2, a3) ^ Word(b0, b1, b2, b3);
            && (d == 0 <==> a0 == b0 && a1 == b1 && a2 == b2 && a3 == b3)
            && (d != 0 ==>
                  && NbCommonBytes(d) == Agreeing(a0, a1, a2, b0, b1, b2)
                  && NbCommonBytesMultiplied(d) as nat == NbCommonBytes(d))
  {
    hide Word, NbCommonBytes, NbCommonBytesMultiplied;
    var d := Word(a0, a1, a2, a3) ^ Word(b0, b1, b2, b3);
    XorOfWords(a0, a1, a2, a3, b0, b1, b2, b3);
    LowBytesOfWord(a0 ^ b0, a1 ^ b1, a2 ^ b2, a3 ^ b3);
    XorIsZero(a0, b0);
    XorIsZero(a1, b1);
    XorIsZero(a2, b2);
    XorIsZero(a3, b3);
    if d != 0 {
      CountedByLowByte(d);
      MultipliedByLowByte(d);
    }
  }

  // ---------------------------------------------------------------- a whole match

  function Bits(b: byte): bv8 {
    b as bv8
  }

  /** `LZ4_read_ARCH`. */
  function WordAt(src: seq<byte>, p: nat): bv32
    requires p + 4 <= |src|
  {
    Word(Bits(src[p]), Bits(src[p + 1]), Bits(src[p + 2]), Bits(src[p + 3]))
  }

  /** In how many leading bytes the words at `p` and `q` agree. */
  function EqualBytes(src: seq<byte>, p: nat, q: nat): (n: nat)
    requires p + 4 <= |src| && q + 4 <= |src|
  {
    if src[p] != src[q] then 0
    else if src[p + 1] != src[q + 1] then 1
    else if src[p + 2] != src[q + 2] then 2
    else if src[p + 3] != src[q + 3] then 3
    else 4
  }

  /** Counting up to a byte in both kinds of numbers. */
  function CountedUp(b: byte): (r: bv8)
    ensures r as int == b
  {
    if b == 0 then 0 else NextNumber(CountedUp(b - 1)); CountedUp(b - 1) + 1
  }

  lemma NextNumber(v: bv8)
    ensures v < 255 ==> (v + 1) as int == v as int + 1
  {
  }

  lemma {:induction false} BitsAreCounted(b: byte)
    ensures b as bv8 == CountedUp(b)
  {
    if b > 0 { BitsAreCounted(b - 1); }
  }

  lemma ValueOfBits(b: byte)
    ensures Bits(b) as int == b
  {
    BitsAreCounted(b);
  }

  lemma SameBits(a: byte, b: byte)
    ensures Bits(a) == Bits(b) <==> a == b
  {
    hide Bits;
    ValueOfBits(a);
    ValueOfBits(b);
  }

  /** The difference of two words of the input is zero exactly when they agree, and otherwise
      counts the leading bytes in which they do. */
  lemma EqualBytesOfDifference(src: seq<byte>, p: nat, q: nat)
    requires p + 4 <= |src| && q + 4 <= |src|
    ensures var d := WordAt(src, p) ^ WordAt(src, q);
            (d == 0 <==> EqualBytes(src, p, q) == 4) && (d != 0 ==> EqualBytes(src, p, q) == NbCommonBytes(d))
  {
    hide Word, NbCommonBytes, NbCommonBytesMultiplied, Bits;
    SameBits(src[p], src[q]);
    SameBits(src[p + 1], src[q + 1]);
    SameBits(src[p + 2], src[q + 2]);
    SameBits(src[p + 3], src[q + 3]);
    CommonBytesOfDifference(Bits(src[p]), Bits(src[p + 1]), Bits(src[p + 2]), Bits(src[p + 3]),
                            Bits(src[q]), Bits(src[q + 1]), Bits(src[q + 2]), Bits(src[q + 3]));
  }

  /** `n` is how far the bytes from `p` on repeat those `offset` before them, cut off at `limit`. */
  ghost predicate CommonPrefix(src: seq<byte>, p: nat, offset: nat, limit: nat, n: nat) {
    && 0 < offset <= p && p + n <= limit <= |src|
    && (forall k :: p <= k < p + n ==> src[k] == src[k - offset])
    && (p + n < limit ==> src[p + n] != src[p + n - offset])
  }

  /** `LZ4_count`. */
  method Count(src: seq<byte>, pStart: nat, matchStart: nat, limit: nat) returns (n: nat)
    requires matchStart < pStart <= limit <= |src|
    ensures CommonPrefix(src, pStart, pStart - matchStart, limit, n)
  {
    hide WordAt, NbCommonBytes;
    var pIn, pMatch := pStart, matchStart;
    while pIn + 3 < limit
      invariant pStart <= pIn <= limit && pIn - pMatch == pStart - matchStart
      invariant forall k :: pStart <= k < pIn ==> src[k] == src[k - (pStart - matchStart)]
    {
      EqualBytesOfDifference(src, pMatch, pIn);
      var diff := WordAt(src, pMatch) ^ WordAt(src, pIn);
      ghost var common := EqualBytes(src, pMatch, pIn);
      if diff != 0 {
        assert common < 4 && NbCommonBytes(diff) == common;
        n := pIn + NbCommonBytes(diff) - pStart;
        return;
      }
      pIn, pMatch := pIn + 4, pMatch + 4;
    }
    if pIn + 1 < limit && src[pMatch] == src[pIn] && src[pMatch + 1] == src[pIn + 1] {
      pIn, pMatch := pIn + 2, pMatch + 2;
    }
    if pIn < limit && src[pMatch] == src[pIn] {
      pIn := pIn + 1;
    }
    n := pIn - pStart;
  }
}
