/** The copy helpers of the LZ4 decoder, on one byte array. They write in strides of 8 or 32
    bytes and so past the end they are given; each contract says how far, and what the bytes
    up to that end are. */
module Lz4Copy {
  import opened Lz4Format

  /** Every byte of [a, e) repeats the byte `offset` before it; a zero offset repeats zero. */
  ghost predicate Repeating(mem: array<byte>, a: nat, e: int, offset: nat)
    requires offset <= a && e <= mem.Length
    reads mem
  {
    forall k :: a <= k < e ==> mem[k] == if offset == 0 then 0 else mem[k - offset]
  }

  /** Nothing outside [a, e) has changed. */
  twostate predicate Outside(mem: array<byte>, a: int, e: int)
    reads mem
  {
    forall k :: 0 <= k < mem.Length && (k < a || e <= k) ==> mem[k] == old(mem[k])
  }

  /** `memcpy` inside one buffer: the regions must not overlap. */
  method Copy(mem: array<byte>, d: nat, s: nat, n: nat)
    requires d + n <= mem.Length && s + n <= mem.Length
    requires s + n <= d || d + n <= s
    modifies mem
    ensures forall k :: d <= k < d + n ==> mem[k] == old(mem[k - d + s])
    ensures Outside(mem, d, d + n)
  {
    for i := 0 to n
      invariant forall k :: d <= k < d + i ==> mem[k] == old(mem[k - d + s])
      invariant Outside(mem, d, d + i)
    {
      mem[d + i] := mem[s + i];
    }
  }

  /** `memcpy` or `memmove` from another buffer. */
  method CopyIn(mem: array<byte>, d: nat, src: seq<byte>, s: nat, n: nat)
    requires d + n <= mem.Length && s + n <= |src|
    modifies mem
    ensures forall k :: d <= k < d + n ==> mem[k] == src[k - d + s]
    ensures Outside(mem, d, d + n)
  {
    for i := 0 to n
      invariant forall k :: d <= k < d + i ==> mem[k] == src[k - d + s]
      invariant Outside(mem, d, d + i)
    {
      mem[d + i] := src[s + i];
    }
  }

  /** Where copying [d, e) in whole strides ends, at the latest. */
  function StrideEnd(d: nat, e: nat, stride: nat): int {
    if d < e then e + stride - 1 else d + stride
  }

  method WildCopy8(mem: array<byte>, d: nat, s: nat, e: nat)
    requires s + 8 <= d && StrideEnd(d, e, 8) <= mem.Length
    modifies mem
    ensures Repeating(mem, d, e, d - s) && Repeating(mem, d, d + 8, d - s)
    ensures Outside(mem, d, StrideEnd(d, e, 8))
  {
    var d', s' := d, s;
    while true
      invariant d <= d' && d' - s' == d - s
      invariant d' == d || d' < e
      invariant Repeating(mem, d, d', d - s) && (d' == d || d + 8 <= d')
      invariant Outside(mem, d, d')
      decreases e - d'
    {
      Copy(mem, d', s', 8);
      d', s' := d' + 8, s' + 8;
      if d' >= e { break; }
    }
  }

  method WildCopy8In(mem: array<byte>, d: nat, src: seq<byte>, s: nat, e: nat)
    requires d <= e && StrideEnd(d, e, 8) <= mem.Length && s + (e - d) + 8 <= |src|
    modifies mem
    ensures forall k :: d <= k < e ==> mem[k] == src[k - d + s]
    ensures Outside(mem, d, StrideEnd(d, e, 8))
  {
    var d', s' := d, s;
    while true
      invariant d <= d' && d' - s' == d - s
      invariant d' == d || d' < e
      invariant forall k :: d <= k < d' ==> mem[k] == src[k - d + s]
      invariant Outside(mem, d, d')
      decreases e - d'
    {
      CopyIn(mem, d', src, s', 8);
      d', s' := d' + 8, s' + 8;
      if d' >= e { break; }
    }
  }

  method WildCopy32(mem: array<byte>, d: nat, s: nat, e: nat)
    requires s + 16 <= d && StrideEnd(d, e, 32) <= mem.Length
    modifies mem
    ensures Repeating(mem, d, e, d - s)
    ensures Outside(mem, d, StrideEnd(d, e, 32))
  {
    var d', s' := d, s;
    while true
      invariant d <= d' && d' - s' == d - s
      invariant d' == d || d' < e
      invariant Repeating(mem, d, d', d - s)
      invariant Outside(mem, d, d')
      decreases e - d'
    {
      Copy(mem, d', s', 16);
      Copy(mem, d' + 16, s' + 16, 16);
      d', s' := d' + 32, s' + 32;
      if d' >= e { break; }
    }
  }

  method WildCopy32In(mem: array<byte>, d: nat, src: seq<byte>, s: nat, e: nat)
    requires d < e && e + 31 <= mem.Length && s + (e - d) + 31 <= |src|
    modifies mem
    ensures forall k :: d <= k < e ==> mem[k] == src[k - d + s]
    ensures Outside(mem, d, e + 31)
  {
    var d', s' := d, s;
    while true
      invariant d <= d' < e && d' - s' == d - s
      invariant forall k :: d <= k < d' ==> mem[k] == src[k - d + s]
      invariant Outside(mem, d, d')
      decreases e - d'
    {
      CopyIn(mem, d', src, s', 16);
      CopyIn(mem, d' + 16, src, s' + 16, 16);
      d', s' := d' + 32, s' + 32;
      if d' >= e { break; }
    }
  }

  /** One byte at a time, overlap allowed: `while (op < end) *op++ = *from++`. */
  method SlowCopy(mem: array<byte>, d: nat, s: nat, e: nat)
    requires s < d <= e <= mem.Length
    modifies mem
    ensures Repeating(mem, d, e, d - s)
    ensures Outside(mem, d, e)
  {
    for k := d to e
      invariant Repeating(mem, d, k, d - s)
      invariant Outside(mem, d, k)
    {
      mem[k] := mem[k - d + s];
    }
  }

  // ---------------------------------------------------------------- overlapping matches

  const INC_32_TABLE: seq<int> := [0, 1, 2, 1, 0, 4, 4, 4]
  const DEC_64_TABLE: seq<int> := [0, 0, 0, -1, -4, 1, 2, 3]

  /** How far back the source lies after the prologue. */
  function Spread(offset: nat): (r: int)
    requires offset < 8
  {
    8 + offset - INC_32_TABLE[offset] + DEC_64_TABLE[offset]
  }

  /** The tables turn an offset below 8 into a multiple of it that is at least 8, which a
      stride of 8 can then use without overlap. */
  lemma SpreadIsMultiple(offset: nat)
    requires offset < 8
    ensures 8 <= Spread(offset) <= 8 + offset
    ensures if offset == 0 then Spread(offset) == 8 else Spread(offset) % offset == 0
  {
    assert Spread(0) == 8 && Spread(1) == 8 && Spread(2) == 8 && Spread(3) == 9;
    assert Spread(4) == 8 && Spread(5) == 10 && Spread(6) == 12 && Spread(7) == 14;
  }

  /** Repetition at a distance is also repetition at every multiple of it. */
  lemma {:induction false} RepeatsBack(m: seq<byte>, a: int, e: int, offset: nat, k: int, times: nat)
    requires 0 < offset <= a && e <= |m|
    requires forall i :: a <= i < e ==> m[i] == m[i - offset]
    requires k < e && a <= k - (times - 1) * offset
    ensures 0 <= k - times * offset && m[k] == m[k - times * offset]
    decreases times
  {
    if times > 0 {
      assert (times - 1) * offset == times * offset - offset;
      if times > 1 {
        assert a <= k - (times - 2) * offset by { assert (times - 2) * offset == (times - 1) * offset - offset; }
        RepeatsBack(m, a, e, offset, k, times - 1);
      }
    }
  }

  /** Eight bytes that repeat at `offset`, continued at the spread distance, repeat at `offset`. */
  lemma {:induction false} SpreadRepeats(m: seq<byte>, a: nat, e: int, offset: nat)
    requires offset < 8 && offset <= a && a + 8 <= e <= |m|
    requires forall k :: a <= k < a + 8 ==> m[k] == if offset == 0 then 0 else m[k - offset]
    requires forall k :: a + 8 <= k < e ==> m[k] == m[k - Spread(offset)]
    ensures forall k :: a <= k < e ==> m[k] == if offset == 0 then 0 else m[k - offset]
    decreases e
  {
    if e > a + 8 {
      SpreadRepeats(m, a, e - 1, offset);
      SpreadIsMultiple(offset);
      var k := e - 1;
      if offset > 0 {
        var times := Spread(offset) / offset;
        assert times * offset == Spread(offset);
        RepeatsBack(m, a, e - 1, offset, k - offset, times - 1);
      } else {
        assert m[k - 8] == 0;
      }
    }
  }

  /** Bytes four to seven of such a match, taken from where the first table points. */
  lemma SecondFour(m: seq<byte>, a: nat, offset: nat)
    requires offset < 8 && offset <= a && a + 8 <= |m|
    requires forall k :: a <= k < a + 4 ==> m[k] == if offset == 0 then 0 else m[k - offset]
    requires forall k :: a + 4 <= k < a + 8 ==> m[k] == m[k - 4 - offset + INC_32_TABLE[offset]]
    ensures forall k :: a + 4 <= k < a + 8 ==> m[k] == if offset == 0 then 0 else m[k - offset]
  {
    assert m[a + 4] == m[a - offset + INC_32_TABLE[offset]];
    assert m[a + 5] == m[a + 1 - offset + INC_32_TABLE[offset]];
    assert m[a + 6] == m[a + 2 - offset + INC_32_TABLE[offset]];
    assert m[a + 7] == m[a + 3 - offset + INC_32_TABLE[offset]];
  }

  /** Clears four bytes, then copies the first four bytes of the match singly. */
  method FirstFour(mem: array<byte>, op: nat, offset: nat)
    requires offset < 8 && offset <= op && op + 4 <= mem.Length
    modifies mem
    ensures Repeating(mem, op, op + 4, offset)
    ensures Outside(mem, op, op + 4)
  {
    for i := 0 to 4
      invariant forall k :: op <= k < op + i ==> mem[k] == 0
      invariant Outside(mem, op, op + i)
    {
      mem[op + i] := 0;
    }
    for i := 0 to 4
      invariant forall k :: op + i <= k < op + 4 ==> mem[k] == 0
      invariant Repeating(mem, op, op + i, offset)
      invariant Outside(mem, op, op + 4)
    {
      mem[op + i] := mem[op - offset + i];
    }
  }

  /** The first eight bytes of a match closer than eight bytes; `next` is where the source
      goes on. */
  method Prologue(mem: array<byte>, op: nat, offset: nat) returns (next: nat)
    requires offset < 8 && offset <= op && op + 8 <= mem.Length
    modifies mem
    ensures Repeating(mem, op, op + 8, offset)
    ensures next == op + 8 - Spread(offset)
    ensures Outside(mem, op, op + 8)
  {
    FirstFour(mem, op, offset);
    assert INC_32_TABLE[offset] <= offset;
    next := op - offset + INC_32_TABLE[offset];
    ghost var before := mem[..];
    assert forall k :: op <= k < op + 4 ==> before[k] == if offset == 0 then 0 else before[k - offset];
    Copy(mem, op + 4, next, 4);
    ghost var after := mem[..];
    assert forall k :: 0 <= k < op + 4 ==> after[k] == before[k];
    SecondFour(after, op, offset);
    assert forall k :: op <= k < op + 8 ==> mem[k] == after[k];
    next := next - DEC_64_TABLE[offset];
  }

  /** `LZ4_memcpy_using_offset_base`. */
  method CopyUsingOffsetBase(mem: array<byte>, op: nat, offset: nat, e: nat)
    requires offset <= op && op + 4 <= e && e + 12 <= mem.Length
    modifies mem
    ensures Repeating(mem, op, e, offset)
    ensures Outside(mem, op, e + 12)
  {
    var from;
    if offset < 8 {
      from := Prologue(mem, op, offset);
      SpreadIsMultiple(offset);
      WildCopy8(mem, op + 8, from, e);
      if e >= op + 8 {
        SpreadRepeats(mem[..], op, e, offset);
        assert forall k :: op <= k < e ==> mem[k] == mem[..][k];
      }
    } else {
      Copy(mem, op, op - offset, 8);
      WildCopy8(mem, op + 8, op - offset + 8, e);
    }
  }

  /** Eight bytes that can be stored again and again in place of a match at `offset`. */
  predicate IsPattern(v: seq<byte>, offset: nat) {
    |v| == 8 && offset in {1, 2, 4}
    && (forall i :: offset <= i < 8 ==> v[i] == v[i - offset])
    && (forall i :: 0 <= i < offset ==> v[i] == v[8 - offset + i])
  }

  method MakePattern(mem: array<byte>, s: nat, offset: nat) returns (v: seq<byte>)
    requires offset in {1, 2, 4} && s + offset <= mem.Length
    ensures IsPattern(v, offset) && forall i :: 0 <= i < offset ==> v[i] == mem[s + i]
  {
    if offset == 1 {
      var b := mem[s];
      v := [b, b, b, b, b, b, b, b];
    } else if offset == 2 {
      v := mem[s..s + 2] + mem[s..s + 2];
      v := v + v[..4];
    } else {
      v := mem[s..s + 4] + mem[s..s + 4];
    }
  }

  /** `LZ4_memcpy_using_offset`: offsets 1, 2 and 4 store a pattern, others take the base
      variant. */
  method CopyUsingOffset(mem: array<byte>, op: nat, offset: nat, e: nat)
    requires offset < 16 && offset <= op && op + 4 <= e && e + 12 <= mem.Length
    modifies mem
    ensures Repeating(mem, op, e, offset)
    ensures Outside(mem, op, e + 12)
  {
    if offset != 1 && offset != 2 && offset != 4 {
      CopyUsingOffsetBase(mem, op, offset, e);
      return;
    }
    var v := MakePattern(mem, op - offset, offset);
    StorePatterns(mem, op, v, offset, e);
  }

  method StorePatterns(mem: array<byte>, op: nat, v: seq<byte>, offset: nat, e: nat)
    requires IsPattern(v, offset) && offset <= op && op + 4 <= e && e + 12 <= mem.Length
    requires forall i :: 0 <= i < offset ==> mem[op - offset + i] == v[i]
    modifies mem
    ensures Repeating(mem, op, e, offset)
    ensures Outside(mem, op, e + 12)
  {
    hide IsPattern;
    PatternSize(v, offset);
    StorePattern(mem, op, v, offset);
    var d := op + 8;
    while d < e
      invariant op + 8 <= d < e + 8
      invariant Repeating(mem, op, d, offset)
      invariant forall i :: 0 <= i < 8 ==> mem[d - 8 + i] == v[i]
      invariant Outside(mem, op, d)
    {
      forall i | 0 <= i < offset
        ensures mem[d - offset + i] == v[i]
      {
        PatternWraps(v, offset, i);
        assert mem[d - 8 + (8 - offset + i)] == v[8 - offset + i];
      }
      StorePattern(mem, d, v, offset);
      d := d + 8;
    }
  }

  lemma PatternSize(v: seq<byte>, offset: nat)
    requires IsPattern(v, offset)
    ensures |v| == 8 && 0 < offset < 8
  {
  }

  lemma PatternWraps(v: seq<byte>, offset: nat, i: nat)
    requires IsPattern(v, offset) && i < offset
    ensures v[i] == v[8 - offset + i]
  {
  }

  /** Storing the pattern once continues the repetition. */
  method StorePattern(mem: array<byte>, d: nat, v: seq<byte>, offset: nat)
    requires IsPattern(v, offset) && offset <= d && d + 8 <= mem.Length
    requires forall i :: 0 <= i < offset ==> mem[d - offset + i] == v[i]
    modifies mem
    ensures Repeating(mem, d, d + 8, offset)
    ensures forall i :: 0 <= i < 8 ==> mem[d + i] == v[i]
    ensures Outside(mem, d, d + 8)
  {
    CopyIn(mem, d, v, 0, 8);
    assert forall i :: 0 <= i < 8 ==> mem[d + i] == v[i];
    forall k | d <= k < d + 8
      ensures mem[k] == mem[k - offset]
    {
      if k < d + offset {
        assert mem[k - offset] == v[k - d];
      } else {
        assert mem[k] == v[k - d] == v[k - d - offset];
      }
    }
  }
}
