/** The LZ4 decoder for a full block (`LZ4_decompress_generic`, 32-bit build with the fast
    loop), with an optional prefix before the output and an optional external dictionary.
    It is proved against the byte-at-a-time meaning in Lz4Format. */
module Lz4Decode {
  import opened Lz4Format
  import opened Lz4Theory
  import opened Lz4Copy

  const FASTLOOP_SAFE_DISTANCE := 64
  const MATCH_SAFEGUARD_DISTANCE := 12
  const INT_MAX := 0x7fff_ffff

  datatype DictMode = NoDict | WithPrefix64k | UsingExtDict

  /** The arguments of a call: compressed bytes, external dictionary, and three positions in
      the output memory: start of the prefix, start and end of the output buffer. */
  datatype Call = Call(src: seq<byte>, mode: DictMode, dictionary: seq<byte>, low: nat, dst: nat, oend: nat)

  ghost predicate ValidCall(c: Call, size: nat) {
    && c.low <= c.dst <= c.oend <= size
    && c.oend - c.dst <= INT_MAX && |c.src| <= INT_MAX
    && (c.mode != UsingExtDict ==> c.dictionary == [])
    && (c.mode == WithPrefix64k ==> c.dst - c.low >= 65536)
  }

  /** The bytes a match can reach when `op` is the next position to write: first the
      dictionary, then the memory from the start of the prefix. */
  ghost predicate Holds(m: seq<byte>, c: Call, op: int, h: seq<byte>)
  {
    && c.low <= op <= |m|
    && |h| == |c.dictionary| + op - c.low
    && h[..|c.dictionary|] == c.dictionary
    && forall k :: c.low <= k < op ==> m[k] == h[|c.dictionary| + k - c.low]
  }

  /** The sequences before `ip` have been read. */
  ghost predicate Upto(c: Call, history: nat, ip: int, done: seq<Sequence>) {
    && 0 <= ip < |c.src|
    && AllWellFormed(done) && InHistory(history, done)
    && Parse(c.src) == ParseFrom(c.src, ip, done)
  }

  /** At a token: everything before it has been expanded. */
  ghost predicate AtToken(m: seq<byte>, c: Call, h: seq<byte>, ip: int, op: int, done: seq<Sequence>)
  {
    && Upto(c, |h|, ip, done)
    && op == c.dst + Size(done) <= c.oend
    && Holds(m, c, op, Run(h, done))
  }

  /** The literals of the sequence whose token is at `t` have been copied; its offset is at `ip`. */
  ghost predicate AtOffset(m: seq<byte>, c: Call, h: seq<byte>, t: int, done: seq<Sequence>, ip: int, op: int)
  {
    && Upto(c, |h|, t, done)
    && var r := ReadLength(c.src, t + 1, c.src[t] / 16);
    && r.Some? && ip == r.value.1 + r.value.0 && ip + 2 < |c.src|
    && op == c.dst + Size(done) + r.value.0 <= c.oend
    && Holds(m, c, op, Run(h, done) + c.src[r.value.1..ip])
  }

  /** The match of the sequence at `t` is known but not copied. */
  ghost predicate AtMatch(m: seq<byte>, c: Call, h: seq<byte>, t: int, done: seq<Sequence>,
                          ip: int, op: int, offset: nat, length: nat)
  {
    && Upto(c, |h|, t, done)
    && var r := ParseStep(c.src, t);
    && r.Next? && r.ip == ip < |c.src|
    && r.sequence.offset == offset && r.sequence.length == length
    && op == c.dst + Size(done) + |r.sequence.literals| <= c.oend
    && Holds(m, c, op, Run(h, done) + r.sequence.literals)
  }

  /** What the format demands of a block for this call. */
  ghost predicate Acceptable(c: Call, history: nat) {
    var p := Parse(c.src);
    && p.Some?
    && InHistory(history, p.value.sequences)
    && EndRules(p.value)
    && c.dst + BlockSize(p.value) <= c.oend
    // with no room at all only the block as it is written is taken, unused nibble included
    && (c.dst == c.oend ==> c.src == Encode(p.value))
  }

  // ---------------------------------------------------------------- sizes of the rest of a block

  lemma {:induction false} SizePrefix(ss: seq<Sequence>, k: nat)
    requires k <= |ss|
    ensures Size(ss[..k]) <= Size(ss)
    decreases |ss|
  {
    if k == |ss| {
      assert ss[..k] == ss;
    } else {
      SizePrefix(ss[..|ss| - 1], k);
      assert ss[..|ss| - 1][..k] == ss[..k];
    }
  }

  lemma SizeNext(ss: seq<Sequence>, k: nat)
    requires k < |ss|
    ensures Size(ss[..k + 1]) == Size(ss[..k]) + |ss[k].literals| + ss[k].length
  {
    assert ss[..k + 1][..k] == ss[..k];
  }

  lemma {:induction false} InHistoryPrefix(history: nat, ss: seq<Sequence>, k: nat)
    requires InHistory(history, ss) && k <= |ss|
    ensures InHistory(history, ss[..k])
    decreases |ss|
  {
    if k == |ss| {
      assert ss[..k] == ss;
    } else {
      InHistoryPrefix(history, ss[..|ss| - 1], k);
      assert ss[..|ss| - 1][..k] == ss[..k];
    }
  }

  /** The end rules leave room after every match. */
  lemma RoomAfter(b: Block, k: nat)
    requires EndRules(b) && k < |b.sequences|
    ensures Size(b.sequences[..k]) + |b.sequences[k].literals| + MFLIMIT <= BlockSize(b)
    ensures Size(b.sequences[..k + 1]) + LASTLITERALS <= BlockSize(b)
  {
    var ss := b.sequences;
    SizeNext(ss, k);
    SizePrefix(ss, k + 1);
    if k == |ss| - 1 {
      assert ss[..k + 1] == ss;
    } else {
      SizeNext(ss, |ss| - 1);
      assert ss[..|ss|] == ss;
      SizePrefix(ss[..|ss| - 1], k + 1);
      assert ss[..|ss| - 1][..k + 1] == ss[..k + 1];
    }
  }

  /** After a match at least six bytes of input are left. */
  lemma {:induction false} InputAfter(src: seq<byte>, ip: nat, done: seq<Sequence>)
    requires AllWellFormed(done) && done != [] && ParseFrom(src, ip, done).Some?
    requires EndRules(ParseFrom(src, ip, done).value)
    ensures ip + 1 + LASTLITERALS <= |src|
    decreases |src| - ip
  {
    match ParseStep(src, ip)
    case Bad =>
    case Final(literals) =>
    case Next(s, j) => InputAfter(src, j, done + [s]);
  }

  // ---------------------------------------------------------------- reading lengths

  function Plus(n: nat, r: Option<(nat, nat)>): Option<(nat, nat)> {
    if r.None? then None else Some((n + r.value.0, r.value.1))
  }

  /** `read_variable_length`: a negative result is the error value. Positions past `ilimit`
      and sums past half the 32-bit range are errors. */
  method ReadVariableLength(src: seq<byte>, start: nat, ilimit: int, initialCheck: bool) returns (length: int, ip: nat)
    requires ilimit < |src| && (initialCheck || start < |src|)
    ensures length >= 0 ==> ReadExtra(src, start) == Some((length, ip)) && start < ip <= ilimit && length <= INT_MAX
    ensures length < 0 ==>
              var r := ReadExtra(src, start);
              r.None? || r.value.1 > ilimit || r.value.0 > INT_MAX
  {
    ip := start;
    if initialCheck && ip >= ilimit { return -1, ip; }
    var s := src[ip];
    ip := ip + 1;
    length := s;
    if ip > ilimit { return -1, ip; }
    if length > INT_MAX { return -1, ip; }
    while s == 255
      invariant start < ip <= ilimit && 0 <= length <= INT_MAX
      invariant ReadExtra(src, start) == if s == 255 then Plus(length, ReadExtra(src, ip)) else Some((length, ip))
      decreases s == 255, |src| - ip
    {
      s := src[ip];
      ip := ip + 1;
      length := length + s;
      if ip > ilimit { return -1, ip; }
      if length > INT_MAX { return -1, ip; }
    }
  }

  // ---------------------------------------------------------------- why an error is right

  /** What an acceptable block says about the sequence at `t`. */
  lemma AcceptableNext(c: Call, history: nat, t: nat, done: seq<Sequence>)
    requires Upto(c, history, t, done) && Acceptable(c, history)
    ensures var r := ParseStep(c.src, t);
            match r
            case Bad => false
            case Final(literals) => c.dst + Size(done) + |literals| <= c.oend
            case Next(s, j) =>
              var op := c.dst + Size(done) + |s.literals|;
              && op + MFLIMIT <= c.oend && op + s.length + LASTLITERALS <= c.oend
              && s.offset <= history + Size(done) + |s.literals|
              && j + 1 + LASTLITERALS <= |c.src|
  {
    hide ParseStep, InHistory, EndRules, Size;
    var b := Parse(c.src).value;
    match ParseStep(c.src, t)
    case Bad =>
    case Final(literals) =>
    case Next(s, j) =>
      NextInBlock(c, history, t, done, s, j, b);
  }

  lemma NextInBlock(c: Call, history: nat, t: nat, done: seq<Sequence>, s: Sequence, j: nat, b: Block)
    requires Upto(c, history, t, done) && ParseStep(c.src, t) == Next(s, j)
    requires Parse(c.src) == Some(b) && InHistory(history, b.sequences) && EndRules(b)
    ensures Size(done) + |s.literals| + MFLIMIT <= BlockSize(b)
    ensures Size(done) + |s.literals| + s.length + LASTLITERALS <= BlockSize(b)
    ensures s.offset <= history + Size(done) + |s.literals|
    ensures j + 1 + LASTLITERALS <= |c.src|
  {
    var k := |done|;
    assert ParseFrom(c.src, j, done + [s]) == Some(b);
    InputAfter(c.src, j, done + [s]);
    hide ParseFrom, ParseStep, Size, InHistory, EndRules;
    assert b.sequences[..k + 1] == done + [s];
    Prefixes(b.sequences, done, s);
    RoomAfter(b, k);
    SizeNext(b.sequences, k);
    InHistoryPrefix(history, b.sequences, k + 1);
    LastInHistory(history, done, s);
  }

  lemma Prefixes(ss: seq<Sequence>, done: seq<Sequence>, s: Sequence)
    requires |done| < |ss| && ss[..|done| + 1] == done + [s]
    ensures ss[..|done|] == done && ss[|done|] == s
  {
    assert ss[..|done|] == ss[..|done| + 1][..|done|];
    assert ss[|done|] == ss[..|done| + 1][|done|];
  }

  lemma LastInHistory(history: nat, done: seq<Sequence>, s: Sequence)
    requires InHistory(history, done + [s])
    ensures s.offset <= history + Size(done) + |s.literals|
  {
    assert (done + [s])[..|done|] == done;
  }

  lemma RejectLiteralLength(c: Call, history: nat, t: nat, done: seq<Sequence>)
    requires Upto(c, history, t, done) && |c.src| <= INT_MAX && c.src[t] / 16 == 15
    requires var r := ReadExtra(c.src, t + 1);
             r.None? || r.value.1 > |c.src| - 15 || r.value.0 > INT_MAX
    ensures !Acceptable(c, history)
  {
    assert ParseStep(c.src, t).Bad?;
  }

  lemma RejectLiterals(c: Call, history: nat, t: nat, done: seq<Sequence>, n: nat, ip: nat)
    requires Upto(c, history, t, done) && ReadLength(c.src, t + 1, c.src[t] / 16) == Some((n, ip))
    requires c.dst + Size(done) + n > c.oend - MFLIMIT || ip + n > |c.src| - 8
    requires ip + n != |c.src| || c.dst + Size(done) + n > c.oend
    ensures !Acceptable(c, history)
  {
    hide Acceptable;
    if Acceptable(c, history) {
      AcceptableNext(c, history, t, done);
    }
  }

  lemma RejectMatchLength(c: Call, history: nat, t: nat, done: seq<Sequence>, n: nat, ip: nat)
    requires Upto(c, history, t, done) && c.oend - c.dst <= INT_MAX
    requires ReadLength(c.src, t + 1, c.src[t] / 16) == Some((n, ip)) && ip + n + 2 <= |c.src|
    requires c.src[t] % 16 == 15
    requires var r := ReadExtra(c.src, ip + n + 2);
             r.None? || r.value.1 > |c.src| - LASTLITERALS + 1 || r.value.0 > INT_MAX
    ensures !Acceptable(c, history)
  {
    hide Acceptable;
    if Acceptable(c, history) {
      AcceptableNext(c, history, t, done);
      MatchLengthOf(c.src, t, n, ip);
    }
  }

  lemma MatchLengthOf(src: seq<byte>, t: nat, n: nat, ip: nat)
    requires t < |src| && ReadLength(src, t + 1, src[t] / 16) == Some((n, ip)) && ip + n + 2 <= |src|
    requires src[t] % 16 == 15
    ensures match ReadExtra(src, ip + n + 2)
            case None => ParseStep(src, t).Bad?
            case Some((m, j)) =>
              ParseStep(src, t).Next? && ParseStep(src, t).ip == j && ParseStep(src, t).sequence.length == m + 19
  {
  }

  lemma RejectMatch(c: Call, history: nat, t: nat, done: seq<Sequence>)
    requires Upto(c, history, t, done) && ParseStep(c.src, t).Next?
    requires var s := ParseStep(c.src, t).sequence;
             var n := Size(done) + |s.literals|;
             s.offset > history + n || c.dst + n + s.length > c.oend - LASTLITERALS
    ensures !Acceptable(c, history)
  {
    hide Acceptable;
    if Acceptable(c, history) {
      AcceptableNext(c, history, t, done);
    }
  }

  // ---------------------------------------------------------------- what a copy achieves

  /** Copied literals extend what can be reached. */
  lemma HoldsLiterals(m: seq<byte>, c: Call, op: nat, h: seq<byte>, literals: seq<byte>)
    requires Holds(m, c, op, h) && op + |literals| <= |m|
    requires forall k :: op <= k < op + |literals| ==> m[k] == literals[k - op]
    ensures Holds(m, c, op + |literals|, h + literals)
  {
  }

  /** The byte that position `k` of a match at `op` repeats. */
  ghost function Source(m: seq<byte>, c: Call, k: nat, offset: nat): byte
    requires k < |m| && c.low <= k && offset <= k - c.low + |c.dictionary|
  {
    if offset == 0 then 0
    else if k - offset < c.low then c.dictionary[|c.dictionary| + k - offset - c.low]
    else m[k - offset]
  }

  /** A copied match extends what can be reached by what the format says. */
  lemma HoldsMatch(m: seq<byte>, c: Call, op: nat, h: seq<byte>, offset: nat, length: nat)
    requires Holds(m, c, op, h) && op + length <= |m| && offset <= |h|
    requires forall k :: op <= k < op + length ==> m[k] == Source(m, c, k, offset)
    ensures Holds(m, c, op + length, CopyMatch(h, offset, length))
  {
    hide Source, Holds;
    var out := m[op..op + length];
    forall i | 0 <= i < |out|
      ensures out[i] == if offset == 0 then 0 else (h + out)[|h| + i - offset]
    {
      assert out[i] == m[op + i];
      SourceInHistory(m, c, op, h, out, offset, i);
    }
    CopyMatchUnique(h, out, offset);
    HoldsLiterals(m, c, op, h, out);
  }

  lemma SourceInHistory(m: seq<byte>, c: Call, op: nat, h: seq<byte>, out: seq<byte>, offset: nat, i: nat)
    requires Holds(m, c, op, h) && i < |out| && op + |out| <= |m| && offset <= |h|
    requires out == m[op..op + |out|]
    ensures Source(m, c, op + i, offset) == if offset == 0 then 0 else (h + out)[|h| + i - offset]
  {
    var k := op + i;
    if offset > 0 {
      if k - offset < c.low {
        var d := |c.dictionary| + k - offset - c.low;
        assert h[d] == h[..|c.dictionary|][d];
      } else if k - offset >= op {
        assert out[i - offset] == m[k - offset];
      }
    }
  }

  /** After its match the sequence at `t` is done. */
  lemma SequenceDone(m: seq<byte>, c: Call, h: seq<byte>, t: nat, done: seq<Sequence>,
                     ip: nat, op: nat, offset: nat, length: nat)
    requires AtMatch(m, c, h, t, done, ip, op, offset, length)
    requires op + length <= c.oend <= |m| && |h| == |c.dictionary| + c.dst - c.low
    requires c.low <= c.dst && offset <= op - c.low + |c.dictionary|
    requires forall k :: op <= k < op + length ==> m[k] == Source(m, c, k, offset)
    ensures AtToken(m, c, h, ip, op + length, done + [ParseStep(c.src, t).sequence])
  {
    hide ParseStep, Holds, Source, CopyMatch, ParseFrom, Parse, Upto, InHistory;
    var s := ParseStep(c.src, t).sequence;
    assert s.offset == offset && s.length == length;
    UptoNext(c, |h|, t, done);
    RunNext(h, done, s);
    HoldsMatch(m, c, op, Run(h, done) + s.literals, offset, length);
  }

  /** One more sequence has been read. */
  lemma UptoNext(c: Call, history: nat, t: nat, done: seq<Sequence>)
    requires Upto(c, history, t, done) && ParseStep(c.src, t).Next? && ParseStep(c.src, t).ip < |c.src|
    requires var s := ParseStep(c.src, t).sequence; s.offset <= history + Size(done) + |s.literals|
    ensures Upto(c, history, ParseStep(c.src, t).ip, done + [ParseStep(c.src, t).sequence])
    ensures InHistory(history, done)
  {
    hide ParseStep, Parse;
    var s := ParseStep(c.src, t).sequence;
    assert (done + [s])[..|done|] == done;
    assert Parse(c.src) == ParseFrom(c.src, t, done) == ParseFrom(c.src, ParseStep(c.src, t).ip, done + [s]);
  }

  lemma RunNext(h: seq<byte>, done: seq<Sequence>, s: Sequence)
    requires InHistory(|h|, done) && InHistory(|h|, done + [s]) && s.offset <= |h| + Size(done) + |s.literals|
    ensures Run(h, done + [s]) == CopyMatch(Run(h, done) + s.literals, s.offset, s.length)
    ensures Size(done + [s]) == Size(done) + |s.literals| + s.length
  {
    assert (done + [s])[..|done|] == done;
  }

  /** Once its length bytes are read the match of the sequence at `t` is known. */
  lemma MatchKnown(m: seq<byte>, c: Call, h: seq<byte>, t: nat, done: seq<Sequence>, ip: nat, op: nat, n: nat, j: nat)
    requires AtOffset(m, c, h, t, done, ip, op)
    requires ReadLength(c.src, ip + 2, c.src[t] % 16) == Some((n, j)) && j < |c.src|
    ensures AtMatch(m, c, h, t, done, j, op, Word16(c.src[ip], c.src[ip + 1]), n + MINMATCH)
  {
    hide Holds, ReadLength;
    var r := ReadLength(c.src, t + 1, c.src[t] / 16).value;
    assert ParseStep(c.src, t) == ReadMatch(c.src, ip, c.src[t] % 16, c.src[r.1..ip]);
  }

  /** Writing past `op` does not disturb what has been expanded. */
  lemma TokenKept(m: seq<byte>, m': seq<byte>, c: Call, h: seq<byte>, t: nat, op: nat, done: seq<Sequence>)
    requires AtToken(m, c, h, t, op, done) && op <= |m'| && forall k :: 0 <= k < op ==> m'[k] == m[k]
    ensures AtToken(m', c, h, t, op, done)
  {
  }

  lemma MatchKept(m: seq<byte>, m': seq<byte>, c: Call, h: seq<byte>, t: nat, done: seq<Sequence>,
                  ip: nat, op: nat, offset: nat, length: nat)
    requires AtMatch(m, c, h, t, done, ip, op, offset, length)
    requires op <= |m'| && forall k :: 0 <= k < op ==> m'[k] == m[k]
    ensures AtMatch(m', c, h, t, done, ip, op, offset, length)
  {
  }

  /** The literals of the sequence at `t` are in place. */
  lemma LiteralsDone(m: seq<byte>, c: Call, h: seq<byte>, t: nat, op: nat, done: seq<Sequence>, n: nat, ip: nat)
    requires AtToken(m, c, h, t, op, done)
    requires ReadLength(c.src, t + 1, c.src[t] / 16) == Some((n, ip)) && ip + n + 2 < |c.src|
    requires op + n <= c.oend <= |m|
    requires forall k :: op <= k < op + n ==> m[k] == c.src[k - op + ip]
    ensures AtOffset(m, c, h, t, done, ip + n, op + n)
  {
    hide ReadLength;
    HoldsLiterals(m, c, op, Run(h, done), c.src[ip..ip + n]);
  }

  // ---------------------------------------------------------------- the fast loop

  datatype Outcome = Proceed | LiteralCopy | OffsetNext | MatchCopy | Failed | Ended

  /** Token and literals in the fast loop; `LiteralCopy` leaves the literals to the safe loop. */
  method FastLiterals(mem: array<byte>, c: Call, ghost h: seq<byte>, t: nat, op0: nat, ghost done: seq<Sequence>)
    returns (out: Outcome, ip: nat, op: nat, length: nat)
    requires ValidCall(c, mem.Length) && AtToken(mem[..], c, h, t, op0, done)
    requires c.oend - op0 >= FASTLOOP_SAFE_DISTANCE
    modifies mem
    ensures Outside(mem, op0, c.oend)
    ensures out in {Proceed, LiteralCopy, Failed}
    ensures out == Failed ==> !Acceptable(c, |h|)
    ensures out == Proceed ==> AtOffset(mem[..], c, h, t, done, ip, op) && op0 <= op <= c.oend - 32
    ensures out == LiteralCopy ==>
              op == op0 && mem[..] == old(mem[..])
              && ReadLength(c.src, t + 1, c.src[t] / 16) == Some((length, ip))
  {
    hide Holds, Run, Acceptable, AtOffset, ParseFrom, Parse, InHistory, AllWellFormed, ReadExtra, Size;
    var src, iend := c.src, |c.src|;
    ip, op := t + 1, op0;
    length := src[t] / 16;
    if length == 15 {
      var addl;
      addl, ip := ReadVariableLength(src, ip, iend - 15, true);
      if addl < 0 {
        RejectLiteralLength(c, |h|, t, done);
        return Failed, ip, op, length;
      }
      length := length + addl;
      if op + length > c.oend - 32 || ip + length > iend - 32 {
        return LiteralCopy, ip, op, length;
      }
      WildCopy32In(mem, op, src, ip, op + length);
    } else if ip <= iend - 17 {
      CopyIn(mem, op, src, ip, 16);
    } else {
      return LiteralCopy, ip, op, length;
    }
    TokenKept(old(mem[..]), mem[..], c, h, t, op, done);
    LiteralsDone(mem[..], c, h, t, op, done, length, ip);
    ip, op := ip + length, op + length;
    out := Proceed;
  }

  // ---------------------------------------------------------------- copying a match

  /** The `length` bytes at `op` are the match at `offset`. */
  ghost predicate Matched(m: seq<byte>, c: Call, op: nat, offset: nat, length: nat) {
    && c.low <= op && op + length <= |m| && offset <= op - c.low + |c.dictionary|
    && forall k :: op <= k < op + length ==> m[k] == Source(m, c, k, offset)
  }

  lemma MatchedWithin(mem: array<byte>, c: Call, op: nat, offset: nat, length: nat)
    requires c.low <= op && op + length <= mem.Length && offset <= op - c.low
    requires Repeating(mem, op, op + length, offset)
    ensures Matched(mem[..], c, op, offset, length)
  {
  }

  /** A match that starts in the external dictionary, and may go on in the output. */
  method CopyFromDictionary(mem: array<byte>, c: Call, op: nat, offset: nat, length: nat)
    requires c.low <= op && op + length <= mem.Length
    requires op - c.low < offset <= op - c.low + |c.dictionary|
    modifies mem
    ensures Matched(mem[..], c, op, offset, length)
    ensures Outside(mem, op, op + length)
  {
    var copySize := offset - (op - c.low);
    if length <= copySize {
      CopyIn(mem, op, c.dictionary, |c.dictionary| - copySize, length);
    } else {
      var restSize := length - copySize;
      CopyIn(mem, op, c.dictionary, |c.dictionary| - copySize, copySize);
      var op' := op + copySize;
      if restSize > op' - c.low {
        SlowCopy(mem, op', c.low, op' + restSize);
      } else {
        Copy(mem, op', c.low, restSize);
      }
    }
  }

  /** A match inside the output, with at least 32 bytes of room behind it. */
  method CopyFastMatch(mem: array<byte>, c: Call, op: nat, offset: nat, length: nat)
    requires c.low <= op && offset <= op - c.low && MINMATCH <= length
    requires op + length + 32 <= mem.Length
    modifies mem
    ensures Matched(mem[..], c, op, offset, length)
    ensures Outside(mem, op, op + length + 32)
  {
    if offset < 16 {
      CopyUsingOffset(mem, op, offset, op + length);
    } else {
      WildCopy32(mem, op, op - offset, op + length);
    }
    MatchedWithin(mem, c, op, offset, length);
  }

  /** Eighteen bytes for a match of at most eighteen that does not overlap within eight. */
  method CopyShortMatch(mem: array<byte>, c: Call, op: nat, offset: nat, length: nat)
    requires c.low <= op && 8 <= offset <= op - c.low && length <= 18
    requires op + 18 <= mem.Length
    modifies mem
    ensures Matched(mem[..], c, op, offset, length)
    ensures Outside(mem, op, op + 18)
  {
    Copy(mem, op, op - offset, 8);
    Copy(mem, op + 8, op - offset + 8, 8);
    Copy(mem, op + 16, op - offset + 16, 2);
    assert Repeating(mem, op, op + 18, offset);
    MatchedWithin(mem, c, op, offset, length);
  }

  /** `match + dictSize < lowPrefix`, tested only when the dictionary is under 64 KB. */
  function OutsideBuffers(c: Call, op: nat, offset: nat): bool
  {
    |c.dictionary| < 65536 && op - offset + |c.dictionary| < c.low
  }

  /** The copy is in place, so the sequence is done. */
  lemma MatchDone(m: seq<byte>, m': seq<byte>, c: Call, h: seq<byte>, t: nat, done: seq<Sequence>,
                  ip: nat, op: nat, offset: nat, length: nat)
    requires AtMatch(m, c, h, t, done, ip, op, offset, length)
    requires op <= |m'| && forall k :: 0 <= k < op ==> m'[k] == m[k]
    requires op + length <= c.oend <= |m'| && |h| == |c.dictionary| + c.dst - c.low
    requires c.low <= c.dst && Matched(m', c, op, offset, length)
    ensures ParseStep(c.src, t).Next?
    ensures AtToken(m', c, h, ip, op + length, done + [ParseStep(c.src, t).sequence])
  {
    MatchKept(m, m', c, h, t, done, ip, op, offset, length);
    SequenceDone(m', c, h, t, done, ip, op, offset, length);
  }

  lemma RejectAtMatch(m: seq<byte>, c: Call, h: seq<byte>, t: nat, done: seq<Sequence>,
                      ip: nat, op: nat, offset: nat, length: nat)
    requires AtMatch(m, c, h, t, done, ip, op, offset, length)
    requires c.low <= c.dst && |h| == |c.dictionary| + c.dst - c.low
    requires offset > op - c.low + |c.dictionary| || op + length > c.oend - LASTLITERALS
    ensures !Acceptable(c, |h|)
  {
    hide Acceptable, ParseStep;
    RejectMatch(c, |h|, t, done);
  }

  /** Offset and match in the fast loop; `MatchCopy` leaves the copy to the safe loop. */
  method FastMatch(mem: array<byte>, c: Call, ghost h: seq<byte>, t: nat, ghost done: seq<Sequence>, ip0: nat, op0: nat)
    returns (out: Outcome, ip: nat, op: nat, offset: nat, length: nat)
    requires ValidCall(c, mem.Length) && |h| == |c.dictionary| + c.dst - c.low
    requires AtOffset(mem[..], c, h, t, done, ip0, op0) && op0 + 32 <= c.oend
    modifies mem
    ensures Outside(mem, op0, c.oend)
    ensures out in {Proceed, MatchCopy, Failed}
    ensures out == Failed ==> !Acceptable(c, |h|)
    ensures out == Proceed ==>
              && t < ip && op0 <= op <= c.oend - FASTLOOP_SAFE_DISTANCE && ParseStep(c.src, t).Next?
              && AtToken(mem[..], c, h, ip, op, done + [ParseStep(c.src, t).sequence])
    ensures out == MatchCopy ==> op == op0 && AtMatch(mem[..], c, h, t, done, ip, op, offset, length)
  {
    hide Holds, Run, Acceptable, AtMatch, ParseStep, Matched;
    var src, iend := c.src, |c.src|;
    op := op0;
    offset := Word16(src[ip0], src[ip0 + 1]);
    ip := ip0 + 2;
    length := src[t] % 16;
    var code := length;
    if code == 15 {
      var addl;
      addl, ip := ReadVariableLength(src, ip, iend - LASTLITERALS + 1, false);
      if addl < 0 {
        var r := ReadLength(src, t + 1, src[t] / 16).value;
        RejectMatchLength(c, |h|, t, done, r.0, r.1);
        return Failed, ip, op, offset, length;
      }
      length := length + addl;
    }
    MatchKnown(mem[..], c, h, t, done, ip0, op, length, ip);
    length := length + MINMATCH;
    if op + length >= c.oend - FASTLOOP_SAFE_DISTANCE {
      return MatchCopy, ip, op, offset, length;
    }
    if code != 15 && (c.mode == WithPrefix64k || op - offset >= c.low) && offset >= 8 {
      CopyShortMatch(mem, c, op, offset, length);
    } else if OutsideBuffers(c, op, offset) {
      RejectAtMatch(mem[..], c, h, t, done, ip, op, offset, length);
      return Failed, ip, op, offset, length;
    } else if c.mode == UsingExtDict && op - offset < c.low {
      CopyFromDictionary(mem, c, op, offset, length);
    } else {
      CopyFastMatch(mem, c, op, offset, length);
    }
    MatchDone(old(mem[..]), mem[..], c, h, t, done, ip, op, offset, length);
    op := op + length;
    out := Proceed;
  }

  // ---------------------------------------------------------------- the safe loop

  /** The shortcut: 16 bytes for literals whose length is in the token, then a short match. */
  method Shortcut(mem: array<byte>, c: Call, ghost h: seq<byte>, t: nat, op0: nat, ghost done: seq<Sequence>)
    returns (out: Outcome, ip: nat, op: nat)
    requires ValidCall(c, mem.Length) && |h| == |c.dictionary| + c.dst - c.low
    requires AtToken(mem[..], c, h, t, op0, done)
    requires c.src[t] / 16 != 15 && t + 1 < |c.src| - 16 && op0 <= c.oend - 32
    modifies mem
    ensures Outside(mem, op0, c.oend)
    ensures out in {Proceed, OffsetNext}
    ensures out == OffsetNext ==> AtOffset(mem[..], c, h, t, done, ip, op) && op0 <= op <= c.oend - MFLIMIT
    ensures out == Proceed ==>
              && t < ip && op0 <= op && ParseStep(c.src, t).Next?
              && AtToken(mem[..], c, h, ip, op, done + [ParseStep(c.src, t).sequence])
  {
    hide Holds, Run, AtOffset, ParseStep, Matched, Size, InHistory;
    var length := c.src[t] / 16;
    ip, op := t + 1, op0;
    CopyIn(mem, op, c.src, ip, 16);
    TokenKept(old(mem[..]), mem[..], c, h, t, op, done);
    LiteralsDone(mem[..], c, h, t, op, done, length, ip);
    hide AtToken;
    ip, op := ip + length, op + length;
    out := ShortMatch(mem, c, h, t, done, ip, op);
    if out == Proceed {
      op := op + c.src[t] % 16 + MINMATCH;
      ip := ip + 2;
    }
  }

  /** Token in the safe loop. The shortcut copies 16 bytes for the literals and, when the
      match is short and does not overlap, 18 bytes for the match. */
  method SafeToken(mem: array<byte>, c: Call, ghost h: seq<byte>, t: nat, op0: nat, ghost done: seq<Sequence>)
    returns (out: Outcome, ip: nat, op: nat, length: nat)
    requires ValidCall(c, mem.Length) && |h| == |c.dictionary| + c.dst - c.low
    requires AtToken(mem[..], c, h, t, op0, done)
    modifies mem
    ensures Outside(mem, op0, c.oend)
    ensures out in {Proceed, LiteralCopy, OffsetNext, Failed}
    ensures out == Failed ==> !Acceptable(c, |h|)
    ensures out == LiteralCopy ==>
              op == op0 && mem[..] == old(mem[..])
              && ReadLength(c.src, t + 1, c.src[t] / 16) == Some((length, ip))
    ensures out == OffsetNext ==> AtOffset(mem[..], c, h, t, done, ip, op) && op0 <= op <= c.oend - MFLIMIT
    ensures out == Proceed ==>
              && t < ip && op0 <= op && ParseStep(c.src, t).Next?
              && AtToken(mem[..], c, h, ip, op, done + [ParseStep(c.src, t).sequence])
  {
    hide Holds, Run, Acceptable, AtOffset, ParseStep, Matched, Size;
    var src, iend := c.src, |c.src|;
    ip, op := t + 1, op0;
    length := src[t] / 16;
    if length != 15 && ip < iend - 16 && op <= c.oend - 32 {
      out, ip, op := Shortcut(mem, c, h, t, op, done);
      return;
    }
    if length == 15 {
      var addl;
      addl, ip := ReadVariableLength(src, ip, iend - 15, true);
      if addl < 0 {
        RejectLiteralLength(c, |h|, t, done);
        return Failed, ip, op, length;
      }
      length := length + addl;
    }
    out := LiteralCopy;
  }

  /** The second stage of the shortcut; when it does not apply nothing is written. */
  method ShortMatch(mem: array<byte>, c: Call, ghost h: seq<byte>, t: nat, ghost done: seq<Sequence>, ip: nat, op: nat)
    returns (out: Outcome)
    requires ValidCall(c, mem.Length) && |h| == |c.dictionary| + c.dst - c.low
    requires AtOffset(mem[..], c, h, t, done, ip, op) && op + 18 <= c.oend
    modifies mem
    ensures Outside(mem, op, c.oend)
    ensures out in {Proceed, OffsetNext}
    ensures out == OffsetNext ==> mem[..] == old(mem[..])
    ensures out == Proceed ==>
              && ParseStep(c.src, t).Next?
              && AtToken(mem[..], c, h, ip + 2, op + c.src[t] % 16 + MINMATCH, done + [ParseStep(c.src, t).sequence])
  {
    hide Holds, Run, AtMatch, ParseStep, Matched, Size, Upto, AtToken;
    var length := c.src[t] % 16;
    var offset := Word16(c.src[ip], c.src[ip + 1]);
    if length != 15 && offset >= 8 && (c.mode == WithPrefix64k || op - offset >= c.low) {
      MatchKnown(mem[..], c, h, t, done, ip, op, length, ip + 2);
      CopyShortMatch(mem, c, op, offset, length + MINMATCH);
      MatchDone(old(mem[..]), mem[..], c, h, t, done, ip + 2, op, offset, length + MINMATCH);
      out := Proceed;
    } else {
      out := OffsetNext;
    }
  }

  /** The last literals, which end with the input. */
  method LastLiterals(mem: array<byte>, c: Call, ghost h: seq<byte>, t: nat, op: nat, ghost done: seq<Sequence>,
      length: nat, ip: nat)
    requires ValidCall(c, mem.Length) && AtToken(mem[..], c, h, t, op, done)
    requires ReadLength(c.src, t + 1, c.src[t] / 16) == Some((length, ip)) && ip + length == |c.src|
        && op + length <= c.oend
    modifies mem
    ensures Outside(mem, op, op + length)
    ensures ParseStep(c.src, t) == Final(c.src[ip..])
    ensures Holds(mem[..], c, op + length, Run(h, done) + c.src[ip..])
  {
    hide Run, Size, Holds, ReadLength;
    CopyIn(mem, op, c.src, ip, length);
    TokenKept(old(mem[..]), mem[..], c, h, t, op, done);
    HoldsLiterals(mem[..], c, op, Run(h, done), c.src[ip..]);
  }

  /** Literals in the safe loop: the last ones must reach the end of the input exactly. */
  method SafeLiterals(mem: array<byte>, c: Call, ghost h: seq<byte>, t: nat, op0: nat, ghost done: seq<Sequence>,
                      length: nat, ip0: nat)
    returns (out: Outcome, ip: nat, op: nat)
    requires ValidCall(c, mem.Length) && |h| == |c.dictionary| + c.dst - c.low
    requires AtToken(mem[..], c, h, t, op0, done)
    requires ReadLength(c.src, t + 1, c.src[t] / 16) == Some((length, ip0))
    modifies mem
    ensures Outside(mem, op0, c.oend)
    ensures out in {OffsetNext, Failed, Ended}
    ensures out == Failed ==> !Acceptable(c, |h|)
    ensures out == OffsetNext ==> AtOffset(mem[..], c, h, t, done, ip, op) && op0 <= op <= c.oend - MFLIMIT
    ensures out == Ended ==>
              && op0 <= op <= c.oend
              && ParseStep(c.src, t) == Final(c.src[ip0..])
              && Holds(mem[..], c, op, Run(h, done) + c.src[ip0..])
  {
    hide Run, Acceptable, AtOffset, Size, InHistory, Holds, ParseStep, ReadLength;
    var src, iend := c.src, |c.src|;
    ip, op := ip0, op0;
    var cpy := op + length;
    if cpy > c.oend - MFLIMIT || ip + length > iend - (2 + 1 + LASTLITERALS) {
      if ip + length != iend || cpy > c.oend {
        RejectLiterals(c, |h|, t, done, length, ip);
        return Failed, ip, op;
      }
      LastLiterals(mem, c, h, t, op, done, length, ip);
      ip, op := ip + length, cpy;
      out := Ended;
    } else {
      WildCopy8In(mem, op, src, ip, cpy);
      TokenKept(old(mem[..]), mem[..], c, h, t, op, done);
      LiteralsDone(mem[..], c, h, t, op, done, length, ip);
      ip, op := ip + length, cpy;
      out := OffsetNext;
    }
  }

  /** Offset and match length in the safe loop. */
  method SafeMatchLength(mem: array<byte>, c: Call, ghost h: seq<byte>, t: nat, ghost done: seq<Sequence>, ip0: nat,
      op: nat)
    returns (out: Outcome, ip: nat, offset: nat, length: nat)
    requires ValidCall(c, mem.Length)
    requires AtOffset(mem[..], c, h, t, done, ip0, op)
    ensures out in {MatchCopy, Failed}
    ensures out == Failed ==> !Acceptable(c, |h|)
    ensures out == MatchCopy ==> AtMatch(mem[..], c, h, t, done, ip, op, offset, length)
  {
    hide Holds, Run, Acceptable, AtMatch, ParseStep;
    var src, iend := c.src, |c.src|;
    offset := Word16(src[ip0], src[ip0 + 1]);
    ip := ip0 + 2;
    length := src[t] % 16;
    if length == 15 {
      var addl;
      addl, ip := ReadVariableLength(src, ip, iend - LASTLITERALS + 1, false);
      if addl < 0 {
        var r := ReadLength(src, t + 1, src[t] / 16).value;
        RejectMatchLength(c, |h|, t, done, r.0, r.1);
        return Failed, ip, offset, length;
      }
      length := length + addl;
    }
    MatchKnown(mem[..], c, h, t, done, ip0, op, length, ip);
    length := length + MINMATCH;
    out := MatchCopy;
  }

  /** The first eight bytes of a match; `from` is where its source goes on. */
  method FirstEight(mem: array<byte>, op: nat, offset: nat) returns (from: nat)
    requires offset <= op && op + 8 <= mem.Length
    modifies mem
    ensures Repeating(mem, op, op + 8, offset)
    ensures from == op + 8 - (if offset < 8 then Spread(offset) else offset)
    ensures Outside(mem, op, op + 8)
  {
    if offset < 8 {
      from := Prologue(mem, op, offset);
    } else {
      Copy(mem, op, op - offset, 8);
      from := op - offset + 8;
    }
  }

  /** The rest of a match that ends within twelve bytes of the end of the output. */
  method NearEnd(mem: array<byte>, op: nat, from: nat, cpy: nat, oend: nat)
    requires from + 8 <= op <= oend <= mem.Length && cpy + LASTLITERALS <= oend
    modifies mem
    ensures Repeating(mem, op, cpy, op - from)
    ensures Outside(mem, op, oend)
  {
    var oCopyLimit := oend - 7;
    var op', from' := op, from;
    if op < oCopyLimit {
      WildCopy8(mem, op, from, oCopyLimit);
      from' := from + (oCopyLimit - op);
      op' := oCopyLimit;
    }
    if op' < cpy {
      SlowCopy(mem, op', from', cpy);
    }
  }

  /** The rest of a match with twelve bytes of room behind it. */
  method FarFromEnd(mem: array<byte>, op: nat, from: nat, cpy: nat, length: nat)
    requires from + 8 <= op && MINMATCH <= length && cpy + 8 == op + length
        && cpy + MATCH_SAFEGUARD_DISTANCE <= mem.Length
    modifies mem
    ensures Repeating(mem, op, cpy, op - from)
    ensures Outside(mem, op, cpy + MATCH_SAFEGUARD_DISTANCE)
  {
    Copy(mem, op, from, 8);
    if length > 16 {
      WildCopy8(mem, op + 8, from + 8, cpy);
    }
  }

  /** Eight bytes and the continuation at their distance make up the match. */
  lemma MatchedInParts(mem: array<byte>, c: Call, op: nat, from: nat, offset: nat, length: nat)
    requires c.low <= op && offset <= op - c.low && op + 8 <= mem.Length && op + length <= mem.Length
    requires Repeating(mem, op, op + 8, offset) && from + 8 <= op + 8
    requires from == op + 8 - (if offset < 8 then Spread(offset) else offset)
    requires Repeating(mem, op + 8, op + length, op + 8 - from)
    ensures Matched(mem[..], c, op, offset, length)
  {
    if offset < 8 && length > 8 {
      SpreadIsMultiple(offset);
      SpreadRepeats(mem[..], op, op + length, offset);
      assert forall k :: op <= k < op + length ==> mem[k] == mem[..][k];
    }
    MatchedWithin(mem, c, op, offset, length);
  }

  /** The match in the safe loop. */
  method SafeMatch(mem: array<byte>, c: Call, ghost h: seq<byte>, t: nat, ghost done: seq<Sequence>,
                   ip: nat, op: nat, offset: nat, length: nat) returns (out: Outcome)
    requires ValidCall(c, mem.Length) && |h| == |c.dictionary| + c.dst - c.low
    requires AtMatch(mem[..], c, h, t, done, ip, op, offset, length) && op + MFLIMIT <= c.oend
    modifies mem
    ensures Outside(mem, op, c.oend)
    ensures out in {Proceed, Failed}
    ensures out == Failed ==> !Acceptable(c, |h|)
    ensures out == Proceed ==>
              && op + length <= c.oend && ParseStep(c.src, t).Next?
              && AtToken(mem[..], c, h, ip, op + length, done + [ParseStep(c.src, t).sequence])
  {
    hide Holds, Run, Acceptable, AtMatch, Matched, Spread;
    MatchBounds(mem[..], c, h, t, done, ip, op, offset, length);
    if OutsideBuffers(c, op, offset) {
      RejectAtMatch(mem[..], c, h, t, done, ip, op, offset, length);
      return Failed;
    }
    ghost var before := mem[..];
    var cpy := op + length;
    if c.mode == UsingExtDict && op - offset < c.low {
      if cpy > c.oend - LASTLITERALS {
        RejectAtMatch(mem[..], c, h, t, done, ip, op, offset, length);
        return Failed;
      }
      CopyFromDictionary(mem, c, op, offset, length);
    } else {
      var from := FirstEight(mem, op, offset);
      if offset < 8 { SpreadIsMultiple(offset); }
      if cpy > c.oend - MATCH_SAFEGUARD_DISTANCE {
        if cpy > c.oend - LASTLITERALS {
          RejectAtMatch(before, c, h, t, done, ip, op, offset, length);
          return Failed;
        }
        NearEnd(mem, op + 8, from, cpy, c.oend);
      } else {
        FarFromEnd(mem, op + 8, from, cpy, length);
      }
      MatchedInParts(mem, c, op, from, offset, length);
    }
    MatchDone(before, mem[..], c, h, t, done, ip, op, offset, length);
    out := Proceed;
  }

  lemma MatchBounds(m: seq<byte>, c: Call, h: seq<byte>, t: nat, done: seq<Sequence>,
                    ip: nat, op: nat, offset: nat, length: nat)
    requires AtMatch(m, c, h, t, done, ip, op, offset, length)
    ensures offset <= DISTANCE_MAX && length >= MINMATCH && c.dst <= op <= c.oend && t < ip < |c.src|
  {
  }

  // ---------------------------------------------------------------- the whole decoder

  /** The loop stands at a token, or has been left inside the sequence at `t` with its
      literals (`LiteralCopy`) or its match (`MatchCopy`) still to be copied. */
  ghost predicate Standing(m: seq<byte>, c: Call, h: seq<byte>, at: Outcome, t: nat, done: seq<Sequence>,
                           ip: nat, op: nat, offset: nat, length: nat)
  {
    match at
    case Proceed => AtToken(m, c, h, t, op, done)
    case LiteralCopy =>
      AtToken(m, c, h, t, op, done) && ReadLength(c.src, t + 1, c.src[t] / 16) == Some((length, ip))
    case MatchCopy => AtMatch(m, c, h, t, done, ip, op, offset, length) && op + MFLIMIT <= c.oend
    case _ => false
  }

  /** Decodes while at least 64 bytes of output are free; ends by failing or by handing a
      sequence over to the safe loop. */
  method FastLoop(mem: array<byte>, c: Call, ghost h: seq<byte>)
    returns (out: Outcome, t: nat, ghost done: seq<Sequence>, ip: nat, op: nat, offset: nat, length: nat)
    requires ValidCall(c, mem.Length) && |h| == |c.dictionary| + c.dst - c.low
    requires AtToken(mem[..], c, h, 0, c.dst, []) && c.oend - c.dst >= FASTLOOP_SAFE_DISTANCE
    modifies mem
    ensures Outside(mem, c.dst, c.oend)
    ensures out in {LiteralCopy, MatchCopy, Failed}
    ensures out == Failed ==> !Acceptable(c, |h|)
    ensures out != Failed ==> c.dst <= op && Standing(mem[..], c, h, out, t, done, ip, op, offset, length)
  {
    hide AtToken, AtMatch, AtOffset, Acceptable, ParseStep;
    t, done, ip, op, offset, length := 0, [], 0, c.dst, 0, 0;
    TokenBounds(mem[..], c, h, t, op, done);
    while true
      invariant AtToken(mem[..], c, h, t, op, done) && t < |c.src|
      invariant c.dst <= op <= c.oend - FASTLOOP_SAFE_DISTANCE
      invariant Outside(mem, c.dst, c.oend)
      decreases |c.src| - t
    {
      out, ip, op, length := FastLiterals(mem, c, h, t, op, done);
      if out != Proceed { return; }
      out, ip, op, offset, length := FastMatch(mem, c, h, t, done, ip, op);
      if out != Proceed { return; }
      TokenBounds(mem[..], c, h, ip, op, done + [ParseStep(c.src, t).sequence]);
      done := done + [ParseStep(c.src, t).sequence];
      t := ip;
    }
  }

  lemma TokenBounds(m: seq<byte>, c: Call, h: seq<byte>, t: nat, op: nat, done: seq<Sequence>)
    requires AtToken(m, c, h, t, op, done)
    ensures t < |c.src| && c.dst <= op <= c.oend && Upto(c, |h|, t, done)
  {
  }

  /** An error is reported as minus one minus the input position. */
  function Error(ip: int): (r: int)
    ensures ip >= 0 ==> r < 0
  {
    -ip - 1
  }

  /** Decodes to the end of the block from wherever the fast loop left off. */
  method SafeLoop(mem: array<byte>, c: Call, ghost h: seq<byte>, at0: Outcome, t0: nat, ghost done0: seq<Sequence>,
                  ip0: nat, op0: nat, offset0: nat, length0: nat)
    returns (r: int, ghost t: nat, ghost done: seq<Sequence>, ghost literals: seq<byte>)
    requires ValidCall(c, mem.Length) && |h| == |c.dictionary| + c.dst - c.low
    requires c.dst <= op0 && Standing(mem[..], c, h, at0, t0, done0, ip0, op0, offset0, length0)
    modifies mem
    ensures Outside(mem, c.dst, c.oend)
    ensures r < 0 ==> !Acceptable(c, |h|)
    ensures r >= 0 ==>
              && c.dst + r <= c.oend && Upto(c, |h|, t, done)
              && ParseStep(c.src, t) == Final(literals)
              && Holds(mem[..], c, c.dst + r, Run(h, done) + literals)
  {
    hide AtToken, AtMatch, AtOffset, Acceptable, ParseStep, Holds, Run;
    var at, token, ip, op, offset, length := at0, t0, ip0, op0, offset0, length0;
    t, done, literals := t0, done0, [];
    while true
      invariant t == token && c.dst <= op
      invariant Standing(mem[..], c, h, at, token, done, ip, op, offset, length)
      invariant Outside(mem, c.dst, c.oend)
      decreases |c.src| - token
    {
      if at == Proceed {
        TokenBounds(mem[..], c, h, token, op, done);
        at, ip, op, length := SafeToken(mem, c, h, token, op, done);
        if at == Failed { return Error(ip), t, done, literals; }
      }
      if at == LiteralCopy {
        TokenBounds(mem[..], c, h, token, op, done);
        ghost var from := ip;
        at, ip, op := SafeLiterals(mem, c, h, token, op, done, length, ip);
        if at == Failed { return Error(ip), t, done, literals; }
        if at == Ended {
          return op - c.dst, t, done, c.src[from..];
        }
      }
      if at == OffsetNext {
        at, ip, offset, length := SafeMatchLength(mem, c, h, token, done, ip, op);
        if at == Failed { return Error(ip), t, done, literals; }
      }
      if at == MatchCopy {
        MatchBounds(mem[..], c, h, token, done, ip, op, offset, length);
        at := SafeMatch(mem, c, h, token, done, ip, op, offset, length);
        if at == Failed { return Error(ip), t, done, literals; }
        op := op + length;
      }
      TokenBounds(mem[..], c, h, ip, op, done + [ParseStep(c.src, token).sequence]);
      done := done + [ParseStep(c.src, token).sequence];
      token := ip;
      t := ip;
    }
  }

  /** The final literals complete the block. */
  lemma BlockDone(m: seq<byte>, c: Call, h: seq<byte>, t: nat, done: seq<Sequence>, literals: seq<byte>, op: nat)
    requires Upto(c, |h|, t, done) && ParseStep(c.src, t) == Final(literals)
    requires |h| == |c.dictionary| + c.dst - c.low && c.low <= c.dst <= op
    requires Holds(m, c, op, Run(h, done) + literals)
    ensures Parse(c.src) == Some(Block(done, literals)) && InHistory(|h|, done)
    ensures BlockSize(Block(done, literals)) == op - c.dst
    ensures m[c.dst..op] == Expand(h, Block(done, literals))
  {
    hide ParseStep, Run, Size, InHistory;
    var g := Run(h, done) + literals;
    assert |g| == |c.dictionary| + op - c.low;
    forall i | 0 <= i < op - c.dst
      ensures m[c.dst..op][i] == g[|h|..][i]
    {
      assert m[c.dst + i] == g[|c.dictionary| + (c.dst + i) - c.low];
    }
  }

  /** `LZ4_decompress_generic` for a full block. A non-negative result is the number of bytes
      written, which are exactly what the block expands to; a negative one is returned only
      for input that is no block, or whose block reaches outside the history, breaks the
      end-of-block conditions, or does not fit. */
  method DecompressGeneric(mem: array<byte>, c: Call) returns (r: int)
    requires ValidCall(c, mem.Length)
    modifies mem
    ensures Outside(mem, c.dst, c.oend)
    ensures var h := c.dictionary + old(mem[c.low..c.dst]);
            && (r < 0 ==> !Acceptable(c, |h|))
            && (r >= 0 ==>
                  && Parse(c.src).Some? && c.dst + r <= c.oend
                  && var b := Parse(c.src).value;
                  && InHistory(|h|, b.sequences)
                  && r == BlockSize(b)
                  && mem[c.dst..c.dst + r] == Expand(h, b))
  {
    hide Standing, Acceptable, Expand, Run, Size, ParseStep, InHistory;
    ghost var h := c.dictionary + mem[c.low..c.dst];
    if c.oend == c.dst {
      EmptyOutput(c, h);
      return if c.src == [0] then 0 else -1;
    }
    if |c.src| == 0 {
      EmptyInput(c, |h|);
      return -1;
    }
    var at, t, ip, op, offset, length := Proceed, 0, 0, c.dst, 0, 0;
    ghost var done := [];
    Started(mem[..], c, h);
    if c.oend - c.dst >= FASTLOOP_SAFE_DISTANCE {
      at, t, done, ip, op, offset, length := FastLoop(mem, c, h);
      if at == Failed { return Error(ip); }
    }
    ghost var t', done', literals;
    r, t', done', literals := SafeLoop(mem, c, h, at, t, done, ip, op, offset, length);
    if r >= 0 {
      BlockDone(mem[..], c, h, t', done', literals, c.dst + r);
    }
  }

  lemma Started(m: seq<byte>, c: Call, h: seq<byte>)
    requires c.low <= c.dst <= c.oend <= |m| && |c.src| > 0 && h == c.dictionary + m[c.low..c.dst]
    ensures AtToken(m, c, h, 0, c.dst, []) && Standing(m, c, h, Proceed, 0, [], 0, c.dst, 0, 0)
  {
  }

  lemma EmptyInput(c: Call, history: nat)
    requires c.src == []
    ensures !Acceptable(c, history)
  {
  }

  /** Only the block of one zero byte fits an empty output. */
  lemma EmptyOutput(c: Call, h: seq<byte>)
    requires c.oend == c.dst
    ensures if c.src == [0] then
              Parse(c.src) == Some(Block([], [])) && InHistory(|h|, []) && BlockSize(Block([], [])) == 0
                  && Expand(h, Block([], [])) == []
            else !Acceptable(c, |h|)
  {
    assert Encode(Block([], [])) == [0];
    if Parse(c.src).Some? {
      NoBytes(Parse(c.src).value);
    }
  }

  lemma NoBytes(b: Block)
    requires AllWellFormed(b.sequences)
    ensures BlockSize(b) == 0 ==> b == Block([], [])
  {
    if b.sequences != [] {
      assert WellFormed(b.sequences[|b.sequences| - 1]);
    }
  }
}
