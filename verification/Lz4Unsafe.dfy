/** The byte-at-a-time LZ4 decoder (`LZ4_decompress_unsafe_generic`), which trusts its input and
    is told the size of the output, and its agreement with the optimised one. */
module Lz4Unsafe {
  import opened Lz4Format
  import opened Lz4Theory
  import opened Lz4Copy
  import opened Lz4Decode

  /** `read_long_length_no_check`. */
  method ReadLongLength(src: seq<byte>, start: nat) returns (l: nat, ip: nat)
    requires ReadExtra(src, start).Some?
    ensures ReadExtra(src, start) == Some((l, ip))
  {
    l, ip := 0, start;
    var b := 255;
    while b == 255
      invariant start <= ip <= |src|
      invariant if b == 255 then ReadExtra(src, ip).Some? && Plus(l, ReadExtra(src, ip)) == ReadExtra(src, start)
                else ReadExtra(src, start) == Some((l, ip))
      decreases |src| - ip, b
    {
      b := src[ip];
      ip := ip + 1;
      l := l + b;
    }
  }

  /** What a well-formed block says about the sequence at `t`, whatever its end looks like. */
  lemma SequenceAhead(c: Call, history: nat, t: nat, done: seq<Sequence>, b: Block)
    requires Upto(c, history, t, done) && Parse(c.src) == Some(b)
    ensures var r := ParseStep(c.src, t);
            && !r.Bad?
            && (r.Final? ==> b == Block(done, r.literals))
            && (r.Next? ==>
                  var s := r.sequence;
                  && Size(done) + |s.literals| + s.length <= BlockSize(b)
                  && |done| < |b.sequences| && b.sequences[..|done|] == done && b.sequences[|done|] == s
                     && r.ip < |c.src| && s.length >= MINMATCH)
  {
    hide ParseStep, InHistory, Size;
    var r := ParseStep(c.src, t);
    if r.Next? {
      var s, k := r.sequence, |done|;
      assert ParseFrom(c.src, r.ip, done + [s]) == Some(b);
      assert b.sequences[..k + 1] == done + [s];
      assert b.sequences[..k] == done && b.sequences[k] == s;
      SizeNext(b.sequences, k);
      SizePrefix(b.sequences, k + 1);
    }
  }

  /** The lengths of the sequence at `t`. */
  lemma LengthsAhead(src: seq<byte>, t: nat)
    requires t < |src| && !ParseStep(src, t).Bad?
    ensures var r := ReadLength(src, t + 1, src[t] / 16);
            && r.Some? && r.value.1 + r.value.0 <= |src|
            && (ParseStep(src, t).Final? ==>
                  r.value.1 + r.value.0 == |src| && ParseStep(src, t).literals == src[r.value.1..])
            && (ParseStep(src, t).Next? ==>
                  var p := r.value.1 + r.value.0;
                  var m := ReadLength(src, p + 2, src[t] % 16);
                  && p + 2 <= |src| && m.Some? && ParseStep(src, t).ip == m.value.1
                  && ParseStep(src, t).sequence ==
                     Sequence(src[r.value.1..p], Word16(src[p], src[p + 1]), m.value.0 + MINMATCH))
  {
  }

  /** A length as this decoder reads it: its nibble, and more bytes if that is 15. */
  method ReadWhole(src: seq<byte>, start: nat, nibble: nat) returns (l: nat, ip: nat)
    requires start <= |src| && ReadLength(src, start, nibble).Some?
    ensures ReadLength(src, start, nibble) == Some((l, ip))
  {
    l, ip := nibble, start;
    if l == 15 {
      var more;
      more, ip := ReadLongLength(src, start);
      l := l + more;
    }
  }

  /** The match of a sequence, from the external dictionary as far as it reaches back there, and
      then byte by byte. */
  method CopyBytewise(mem: array<byte>, c: Call, op0: nat, offset: nat, length: nat)
    requires c.low <= op0 && op0 + length <= mem.Length && 0 < offset <= op0 - c.low + |c.dictionary|
    modifies mem
    ensures Matched(mem[..], c, op0, offset, length)
    ensures Outside(mem, op0, op0 + length)
  {
    var op, ml, match_ := op0, length, op0 - offset;
    if offset > op - c.low {
      var extml := offset - (op - c.low);
      if extml > ml {
        CopyIn(mem, op, c.dictionary, |c.dictionary| - extml, ml);
        op, ml := op + ml, 0;
      } else {
        CopyIn(mem, op, c.dictionary, |c.dictionary| - extml, extml);
        op, ml := op + extml, ml - extml;
      }
      match_ := c.low;
    }
    var u := 0;
    while u < ml
      invariant 0 <= u <= ml && op + ml == op0 + length && op >= op0
      invariant ml > 0 ==> match_ == op - offset >= c.low
      invariant forall k :: op0 <= k < op + u ==> mem[k] == Source(mem[..], c, k, offset)
      invariant Outside(mem, op0, op0 + length)
    {
      mem[op + u] := mem[match_ + u];
      u := u + 1;
    }
  }

  /** The last match done so far ended five bytes or more before the end of the output, and
      started twelve bytes or more before it. */
  ghost predicate EndsKept(done: seq<Sequence>, room: int) {
    done == [] || (room >= LASTLITERALS && done[|done| - 1].length + room >= MFLIMIT)
  }

  ghost predicate Trusted(c: Call, size: nat) {
    && c.low <= c.dst <= c.oend <= size
    && Parse(c.src).Some? && NonZeroOffsets(Parse(c.src).value.sequences)
    && c.oend - c.dst <= BlockSize(Parse(c.src).value)
  }

  /** The sequence at `t` breaks the conditions at the end of a block, does not fit, or reaches
      outside the history. */
  ghost predicate Broken(c: Call, history: nat, done: seq<Sequence>, step: Step) {
    var op := c.dst + Size(done);
    if step.Next? then
      var s := step.sequence;
      || op + |s.literals| + MFLIMIT > c.oend || op + |s.literals| + s.length + LASTLITERALS > c.oend
      || s.offset > history + Size(done) + |s.literals|
    else
      step.Final? && op + |step.literals| > c.oend
  }

  lemma Reject(c: Call, history: nat, t: nat, done: seq<Sequence>)
    requires Upto(c, history, t, done) && Broken(c, history, done, ParseStep(c.src, t))
    ensures !Acceptable(c, history)
  {
    hide Acceptable, ParseStep;
    if Acceptable(c, history) { AcceptableNext(c, history, t, done); }
  }

  /** The state of the decoder at a token. */
  ghost predicate Reached(m: seq<byte>, c: Call, h: seq<byte>, t: int, op: int, done: seq<Sequence>) {
    && Trusted(c, |m|) && |h| == |c.dictionary| + c.dst - c.low
    && AtToken(m, c, h, t, op, done) && EndsKept(done, c.oend - op)
    && 0 <= t < |c.src| && c.dst <= op <= c.oend
  }

  /** What a result means: a negative one, that the block is not acceptable, if the size of the
      output is exact; otherwise the output is what the block expands to, or the beginning of it
      if the block expands to more. */
  ghost predicate Right(m: seq<byte>, c: Call, h: seq<byte>, r: int)
    requires Trusted(c, |m|)
  {
    var b := Parse(c.src).value;
    && (BlockSize(b) == c.oend - c.dst ==>
          if r < 0 then !Acceptable(c, |h|)
          else r == |c.src| && EndRules(b) && InHistory(|h|, b.sequences) && m[c.dst..c.oend] == Expand(h, b))
    && (r >= 0 && InHistory(|h|, b.sequences) ==> m[c.dst..c.oend] == Expand(h, b)[..c.oend - c.dst])
  }

  /** The output of the first sequences begins that of all. */
  lemma {:induction false} RunBegins(h: seq<byte>, ss: seq<Sequence>, k: nat)
    requires InHistory(|h|, ss) && k < |ss|
    ensures InHistory(|h|, ss[..k]) && Run(h, ss[..k]) + ss[k].literals <= Run(h, ss)
    decreases |ss|
  {
    var last := |ss| - 1;
    if k < last {
      RunBegins(h, ss[..last], k);
      assert ss[..last][..k] == ss[..k];
    }
    var before := Run(h, ss[..last]) + ss[last].literals;
    assert before <= CopyMatch(before, ss[last].offset, ss[last].length);
  }

  /** The decoder has stopped before a match, at the end of the output. */
  lemma StoppedEarly(m: seq<byte>, c: Call, h: seq<byte>, done: seq<Sequence>, s: Sequence, b: Block)
    requires InHistory(|h|, done) && InHistory(|h|, b.sequences)
    requires |done| < |b.sequences| && b.sequences[..|done|] == done && b.sequences[|done|] == s
    requires |h| == |c.dictionary| + c.dst - c.low && c.low <= c.dst <= c.oend <= |m|
    requires Holds(m, c, c.oend, Run(h, done) + s.literals) && c.oend - c.dst <= BlockSize(b)
    ensures m[c.dst..c.oend] == Expand(h, b)[..c.oend - c.dst]
  {
    hide Run, InHistory, BlockSize, Holds;
    RunBegins(h, b.sequences, |done|);
    var g := Run(h, done) + s.literals;
    assert g <= Run(h, b.sequences) + b.last;
    HeldBytes(m, c, c.oend, g, |h|);
    TailOfPrefix(g, Run(h, b.sequences) + b.last, |h|);
  }

  lemma HeldBytes(m: seq<byte>, c: Call, op: nat, g: seq<byte>, n: nat)
    requires Holds(m, c, op, g) && n == |c.dictionary| + c.dst - c.low && c.low <= c.dst <= op
    ensures n <= |g| && |g| - n == op - c.dst && m[c.dst..op] == g[n..]
  {
    var held, tail := m[c.dst..op], g[n..];
    forall i | 0 <= i < op - c.dst
      ensures held[i] == tail[i]
    {
      assert m[c.dst + i] == g[|c.dictionary| + (c.dst + i) - c.low];
    }
  }

  lemma TailOfPrefix(g: seq<byte>, full: seq<byte>, n: nat)
    requires g <= full && n <= |g|
    ensures g[n..] == full[n..][..|g| - n]
  {
  }

  /** The literals of a sequence reach the end of the output: when the size is exact they are the
      last ones. */
  lemma Finished(m: seq<byte>, c: Call, h: seq<byte>, t: nat, op: nat, done: seq<Sequence>, ll: nat, ip: nat)
    requires Reached(m, c, h, t, op, done) && ReadLength(c.src, t + 1, c.src[t] / 16) == Some((ll, ip))
    requires ip + ll <= |c.src| && op + ll == c.oend
    requires forall k :: op <= k < op + ll ==> m[k] == c.src[k - op + ip]
    ensures Right(m, c, h, ip + ll)
  {
    hide ParseStep, Expand, InHistory, Size;
    var b := Parse(c.src).value;
    SequenceAhead(c, |h|, t, done, b);
    LengthsAhead(c.src, t);
    if ParseStep(c.src, t).Final? {
      LastOnes(m, c, h, t, op, done, ip);
    } else {
      var s := ParseStep(c.src, t).sequence;
      HoldsLiterals(m, c, op, Run(h, done), s.literals);
      if InHistory(|h|, b.sequences) { StoppedEarly(m, c, h, done, s, b); }
    }
  }

  lemma LastOnes(m: seq<byte>, c: Call, h: seq<byte>, t: nat, op: nat, done: seq<Sequence>, ip: nat)
    requires Reached(m, c, h, t, op, done) && ParseStep(c.src, t).Final? && ip <= |c.src|
    requires ParseStep(c.src, t).literals == c.src[ip..] && op + |c.src| - ip == c.oend
    requires forall k :: op <= k < c.oend ==> m[k] == c.src[k - op + ip]
    ensures Right(m, c, h, |c.src|)
  {
    hide ParseStep, Expand, InHistory, Size, Run;
    var literals := ParseStep(c.src, t).literals;
    HoldsLiterals(m, c, op, Run(h, done), literals);
    BlockDone(m, c, h, t, done, literals, c.oend);
  }

  /** Token and literals. */
  method UnsafeLiterals(mem: array<byte>, c: Call, ghost h: seq<byte>, t: nat, op0: nat, ghost done: seq<Sequence>)
    returns (at: Outcome, ip: nat, op: nat)
    requires Reached(mem[..], c, h, t, op0, done)
    modifies mem
    ensures at == Failed || at == Ended || at == OffsetNext
    ensures Outside(mem, op0, c.oend) && op0 <= op <= c.oend
    ensures at == Failed ==> Right(mem[..], c, h, -1)
    ensures at == Ended ==> Right(mem[..], c, h, ip)
    ensures at == OffsetNext ==>
              && AtOffset(mem[..], c, h, t, done, ip, op) && ParseStep(c.src, t).Next? && op + MFLIMIT <= c.oend
              && ReadLength(c.src, ip + 2, c.src[t] % 16).Some?
  {
    hide ParseStep, Expand, Acceptable, ReadLength, Holds, InHistory;
    ghost var b := Parse(c.src).value;
    SequenceAhead(c, |h|, t, done, b);
    LengthsAhead(c.src, t);
    op := op0;
    var ll;
    ll, ip := ReadWhole(c.src, t + 1, c.src[t] / 16);
    if c.oend - op < ll {
      Reject(c, |h|, t, done);
      return Failed, ip, op;
    }
    ghost var before := mem[..];
    CopyIn(mem, op, c.src, ip, ll);
    TokenKept(before, mem[..], c, h, t, op0, done);
    op := op + ll;
    if c.oend - op < MFLIMIT && op == c.oend {
      Finished(mem[..], c, h, t, op0, done, ll, ip);
      return Ended, ip + ll, op;
    }
    if c.oend - op < MFLIMIT {
      Reject(c, |h|, t, done);
      return Failed, ip, op;
    }
    LiteralsDone(mem[..], c, h, t, op0, done, ll, ip);
    at, ip := OffsetNext, ip + ll;
  }

  /** Offset, length and copy of a match. */
  method UnsafeMatch(mem: array<byte>, c: Call, ghost h: seq<byte>, t: nat, ghost done: seq<Sequence>, ip0: nat,
      op0: nat)
    returns (ok: bool, ip: nat, op: nat)
    requires Trusted(c, mem.Length) && |h| == |c.dictionary| + c.dst - c.low
    requires AtOffset(mem[..], c, h, t, done, ip0, op0) && ParseStep(c.src, t).Next? && op0 + MFLIMIT <= c.oend
    requires ReadLength(c.src, ip0 + 2, c.src[t] % 16).Some? && c.dst <= op0
    modifies mem
    ensures Outside(mem, op0, c.oend)
    ensures if ok then Reached(mem[..], c, h, ip, op, done + [ParseStep(c.src, t).sequence]) && ip > t
            else Right(mem[..], c, h, -1)
  {
    hide ParseStep, Expand, Acceptable, ReadLength, Holds, InHistory;
    ghost var b := Parse(c.src).value;
    SequenceAhead(c, |h|, t, done, b);
    LengthsAhead(c.src, t);
    op := op0;
    var offset := Word16(c.src[ip0], c.src[ip0 + 1]);
    var ml;
    ml, ip := ReadWhole(c.src, ip0 + 2, c.src[t] % 16);
    ml := ml + MINMATCH;
    MatchKnown(mem[..], c, h, t, done, ip0, op0, ml - MINMATCH, ip);
    if c.oend - op < ml || offset > op - c.low + |c.dictionary| {
      Reject(c, |h|, t, done);
      return false, ip, op;
    }
    ghost var before := mem[..];
    CopyBytewise(mem, c, op, offset, ml);
    MatchKept(before, mem[..], c, h, t, done, ip, op0, offset, ml);
    op := op + ml;
    if c.oend - op < LASTLITERALS {
      Reject(c, |h|, t, done);
      return false, ip, op;
    }
    SequenceDone(mem[..], c, h, t, done, ip, op0, offset, ml);
    ok := true;
  }

  /** `LZ4_decompress_unsafe_generic`, for a well-formed block that expands to no less than the
      given size. When the size is exact, the result is the size of the input if the block
      meets the end-of-block conditions and stays in the history, and the output is what the
      block expands to; otherwise it is negative. When the block expands to more, the output of a
      successful call is the beginning of that. */
  method DecompressUnsafe(mem: array<byte>, c: Call) returns (r: int)
    requires Trusted(c, mem.Length)
    modifies mem
    ensures Outside(mem, c.dst, c.oend)
    ensures Right(mem[..], c, c.dictionary + old(mem[c.low..c.dst]), r)
  {
    hide AtToken, AtOffset, ParseStep, Right;
    ghost var h := c.dictionary + mem[c.low..c.dst];
    var ip, op := 0, c.dst;
    ghost var done: seq<Sequence> := [];
    StartedUnsafe(mem[..], c, h);
    while true
      invariant Reached(mem[..], c, h, ip, op, done) && Outside(mem, c.dst, c.oend)
      decreases |c.src| - ip
    {
      var t := ip;
      var at;
      at, ip, op := UnsafeLiterals(mem, c, h, ip, op, done);
      if at == Failed { return -1; }
      if at == Ended { return ip; }
      var ok;
      ok, ip, op := UnsafeMatch(mem, c, h, t, done, ip, op);
      if !ok { return -1; }
      done := done + [ParseStep(c.src, t).sequence];
    }
  }

  lemma StartedUnsafe(m: seq<byte>, c: Call, h: seq<byte>)
    requires Trusted(c, |m|) && h == c.dictionary + m[c.low..c.dst]
    ensures Reached(m, c, h, 0, c.dst, []) && |c.src| > 0
  {
  }

  /** The optimised decoder refines the byte-at-a-time one: on a well-formed block of the exact
      size, whenever both succeed they write the same bytes, and on an acceptable block both
      do. */
  method BothDecoders(mem1: array<byte>, mem2: array<byte>, c: Call) returns (r1: int, r2: int)
    requires mem1 != mem2 && ValidCall(c, mem1.Length) && Trusted(c, mem2.Length)
    requires mem1[c.low..c.dst] == mem2[c.low..c.dst] && BlockSize(Parse(c.src).value) == c.oend - c.dst
    modifies mem1, mem2
    ensures r1 >= 0 && r2 >= 0 ==> mem1[c.dst..c.oend] == mem2[c.dst..c.oend]
    ensures Acceptable(c, |c.dictionary| + c.dst - c.low) ==> r1 == c.oend - c.dst && r2 == |c.src|
    ensures r2 >= 0 ==> c.oend > c.dst ==> r1 >= 0
  {
    hide Expand, Parse, InHistory, NonZeroOffsets;
    r1 := DecompressGeneric(mem1, c);
    r2 := DecompressUnsafe(mem2, c);
  }
}
