/** The LZ4 compressor without dictionary (`LZ4_compress_generic_validated`, 32-bit build),
    for every hash function and all three output directives. What it writes is always a block
    that expands to the input it reports as consumed. */
module Lz4Compress {
  import opened Lz4Format
  import opened Lz4Theory
  import opened Lz4Copy
  import opened Lz4Count
  import opened Lz4Write

  const MIN_LENGTH := 13
  const LIMIT_64K := 65536 + MFLIMIT - 1
  const SKIP_TRIGGER_STEP := 64
  const MAX_INPUT_SIZE := 0x7E00_0000

  datatype Directive = NotLimited | LimitedOutput | FillOutput
  datatype TableType = ByPtr | ByU32 | ByU16

  /** The arguments of a call. `base` is what a table entry holds for position 0: the address
      of the source for `ByPtr`, 0 for indexes. `olimit` is the size of the output budget. */
  datatype Job = Job(src: seq<byte>, directive: Directive, tableType: TableType, base: nat,
                     olimit: int, acceleration: nat)

  type HashFunction = seq<byte> -> nat

  function CompressBound(n: nat): int {
    if n > MAX_INPUT_SIZE then 0 else n + n / 255 + 16
  }

  /** Bytes of the output buffer that may be written. */
  function Capacity(j: Job): int {
    if j.directive == NotLimited then CompressBound(|j.src|) else j.olimit
  }

  ghost predicate ValidJob(j: Job, dst: array<byte>) {
    && 0 < |j.src| <= MAX_INPUT_SIZE && Capacity(j) <= dst.Length
    && (if j.tableType == ByPtr then j.base > DISTANCE_MAX else j.base == 0)
    && (j.tableType == ByU16 ==> |j.src| < LIMIT_64K)
    && j.acceleration >= 1
    && (j.directive == FillOutput ==> j.olimit >= 1)
  }

  // ---------------------------------------------------------------- the hash table

  /** Four bytes, as `LZ4_read32` reads them. */
  function Read32(src: seq<byte>, p: nat): seq<byte>
    requires p + 4 <= |src|
  {
    src[p..p + 4]
  }

  ghost predicate Hashes(hash: HashFunction, size: nat) {
    forall s :: hash(s) < size
  }

  /** Every entry is empty or stands for a position before `end`, in the slot of its hash. */
  ghost predicate TableOk(table: seq<int>, j: Job, hash: HashFunction, end: nat) {
    forall h :: 0 <= h < |table| ==>
      table[h] == 0 ||
      (j.base <= table[h] < j.base + end && table[h] - j.base + 4 <= |j.src|
       && hash(Read32(j.src, table[h] - j.base)) == h)
  }

  /** `LZ4_putIndexOnHash` and `LZ4_putPositionOnHash`; 16-bit entries are truncated. */
  method PutOnHash(table: array<int>, j: Job, h: nat, p: nat)
    requires h < table.Length && (j.tableType == ByU16 ==> p < 65536 && j.base == 0)
    modifies table
    ensures table[..] == old(table[..])[h := j.base + p]
  {
    table[h] := if j.tableType == ByU16 then (j.base + p) % 65536 else j.base + p;
    assert table[h] == j.base + p;
  }

  /** Whether the entry `v` may be a match for position `p`: near enough, and equal in its
      first four bytes. Only `ByU16` needs no distance test. */
  function IsMatch(j: Job, v: int, p: nat): (r: bool)
    requires p + 4 <= |j.src|
    requires v == 0 || j.base <= v < j.base + p
    requires if j.tableType == ByPtr then j.base > DISTANCE_MAX else j.base == 0 && p > 0
  {
    (j.tableType == ByU16 || v + DISTANCE_MAX >= j.base + p)
    && Read32(j.src, v - j.base) == Read32(j.src, p)
  }

  /** `match_` is where an earlier copy of the bytes at `p` starts, within the window. */
  ghost predicate Candidate(j: Job, p: int, match_: int) {
    && 0 <= match_ < p && p - match_ <= DISTANCE_MAX && p + MFLIMIT <= |j.src|
    && Read32(j.src, p) == Read32(j.src, match_)
  }

  /** Entering position `p` in the slot of its hash. */
  lemma TablePut(table: seq<int>, j: Job, hash: HashFunction, p: nat)
    requires p + 4 <= |j.src| && TableOk(table, j, hash, p) && hash(Read32(j.src, p)) < |table|
    ensures TableOk(table[hash(Read32(j.src, p)) := j.base + p], j, hash, p + 1)
  {
  }

  lemma TableGrows(table: seq<int>, j: Job, hash: HashFunction, end: nat, end': nat)
    requires TableOk(table, j, hash, end) && end <= end'
    ensures TableOk(table, j, hash, end')
  {
  }

  lemma TableGet(table: seq<int>, j: Job, hash: HashFunction, end: nat, h: nat)
    requires TableOk(table, j, hash, end) && h < |table|
    ensures table[h] == 0 || j.base <= table[h] < j.base + end
  {
  }

  lemma MatchIsCandidate(j: Job, v: int, p: nat)
    requires 0 < p && p + MFLIMIT <= |j.src| && (v == 0 || j.base <= v < j.base + p)
    requires if j.tableType == ByPtr then j.base > DISTANCE_MAX else j.base == 0
    requires j.tableType == ByU16 ==> |j.src| < LIMIT_64K
    requires IsMatch(j, v, p)
    ensures Candidate(j, p, v - j.base)
  {
  }

  /** The table has a match for position `p`. */
  ghost predicate Entered(j: Job, hash: HashFunction, table: seq<int>, p: nat)
    requires p + MFLIMIT <= |j.src| && 0 < p
    requires if j.tableType == ByPtr then j.base > DISTANCE_MAX else j.base == 0
  {
    var h := hash(Read32(j.src, p));
    h < |table| && (table[h] == 0 || j.base <= table[h] < j.base + p) && IsMatch(j, table[h], p)
  }

  /** The search for a match from `start` on, with growing steps; `filled` says up to where
      positions have been entered. */
  method Search(j: Job, table: array<int>, hash: HashFunction, start: nat)
    returns (found: bool, ip: nat, match_: nat)
    requires 0 < start <= |j.src| - MFLIMIT + 1 && |j.src| >= MIN_LENGTH
    requires Hashes(hash, table.Length) && TableOk(table[..], j, hash, start)
    requires if j.tableType == ByPtr then j.base > DISTANCE_MAX else j.base == 0
    requires j.tableType == ByU16 ==> |j.src| < LIMIT_64K
    requires j.acceleration >= 1
    modifies table
    ensures found ==> start <= ip && Candidate(j, ip, match_) && TableOk(table[..], j, hash, ip + 1)
    ensures start <= |j.src| - MFLIMIT && Entered(j, hash, old(table[..]), start) ==>
              found && ip == start && match_ == old(table[..])[hash(Read32(j.src, start))] - j.base
  {
    hide TableOk, IsMatch, Candidate, Read32;
    ghost var first := table[..];
    var mflimitPlusOne := |j.src| - MFLIMIT + 1;
    ip := start;
    match_ := 0;
    var forwardIp, step, searchMatchNb := start, 1, j.acceleration * SKIP_TRIGGER_STEP;
    var forwardH := hash(Read32(j.src, start));
    while true
      invariant start <= forwardIp <= mflimitPlusOne && step >= 1
      invariant searchMatchNb >= SKIP_TRIGGER_STEP
      invariant forwardH == hash(Read32(j.src, forwardIp))
      invariant TableOk(table[..], j, hash, forwardIp)
      invariant if forwardIp == start then table[..] == first && step == 1
                else start <= |j.src| - MFLIMIT ==> !Entered(j, hash, first, start)
      decreases mflimitPlusOne - forwardIp
    {
      var h := forwardH;
      ip := forwardIp;
      forwardIp := forwardIp + step;
      step := searchMatchNb / SKIP_TRIGGER_STEP;
      searchMatchNb := searchMatchNb + 1;
      if forwardIp > mflimitPlusOne { return false, ip, match_; }
      var v := table[h];
      TableGet(table[..], j, hash, ip, h);
      TablePut(table[..], j, hash, ip);
      forwardH := hash(Read32(j.src, forwardIp));
      PutOnHash(table, j, h, ip);
      TableGrows(table[..], j, hash, ip + 1, forwardIp);
      if IsMatch(j, v, ip) {
        MatchIsCandidate(j, v, ip);
        match_ := v - j.base;
        return true, ip, match_;
      }
    }
  }

  // ---------------------------------------------------------------- what has been written

  /** The budget is smaller than what any input of this size may need. */
  predicate TooSmall(j: Job) {
    j.directive == LimitedOutput && j.olimit < CompressBound(|j.src|)
  }

  /** Room left in the output at a token. The output has grown by at most one byte in 255; with
      a limit the last five literals still fit, and in fill mode enough of them for the
      end-of-block conditions. */
  ghost predicate Room(j: Job, op: int, anchor: nat, done: seq<Sequence>) {
    && 255 * op <= 256 * anchor
    && match j.directive
    case NotLimited => true
    case LimitedOutput => if done == [] then op == 0 else op + 1 + LASTLITERALS <= j.olimit
    case FillOutput =>
      if done == [] then op == 0
      else
        && op + 1 + LASTLITERALS <= j.olimit
        && (op + 1 + MFLIMIT - MINMATCH <= j.olimit || done[|done| - 1].length >= 18)
  }

  /** The sequences `done` stand for the input before `anchor` and keep the end conditions. */
  ghost predicate Covers(j: Job, anchor: nat, done: seq<Sequence>) {
    && anchor <= |j.src|
    && AllWellFormed(done) && NonZeroOffsets(done) && InHistory(0, done)
    && Run([], done) == j.src[..anchor]
    && (done != [] ==>
          anchor + LASTLITERALS <= |j.src| && anchor - done[|done| - 1].length + MFLIMIT <= |j.src|)
  }

  /** They have been written up to `op`. */
  ghost predicate Written(j: Job, d: seq<byte>, op: int, anchor: nat, done: seq<Sequence>) {
    Covers(j, anchor, done) && 0 <= op <= |d| && d[..op] == EncodeSequences(done)
  }

  /** Between literals and match: `op` is after the literals from `anchor` to `ip`. */
  ghost predicate AtMatch(j: Job, d: seq<byte>, token: nat, op: nat, anchor: nat, ip: nat, match_: int,
      done: seq<Sequence>) {
    && token < op <= |d| && anchor <= ip && Candidate(j, ip, match_)
    && Written(j, d, token, anchor, done)
    && d[..op] == EncodeSequences(done) + Head(j.src[anchor..ip])
  }

  /** Copying equal bytes reproduces the input. */
  lemma CopyOfInput(src: seq<byte>, ip: nat, offset: nat, length: nat)
    requires 0 < offset <= ip && ip + length <= |src|
    requires forall k :: ip <= k < ip + length ==> src[k] == src[k - offset]
    ensures CopyMatch(src[..ip], offset, length) == src[..ip + length]
  {
    var h, out, whole := src[..ip], src[ip..ip + length], src[..ip + length];
    forall i | 0 <= i < |out|
      ensures out[i] == whole[ip + i - offset]
    {
      var k := ip + i;
      assert src[k] == src[k - offset];
    }
    assert whole == h + out;
    CopyMatchUnique(h, out, offset);
  }

  /** The sequence of the literals from `anchor` to `ip` and a match of `length` bytes there. */
  function SequenceAt(src: seq<byte>, anchor: nat, ip: nat, match_: nat, length: nat): Sequence
    requires anchor <= ip <= |src| && match_ <= ip
  {
    Sequence(src[anchor..ip], ip - match_, length)
  }

  lemma SequenceCovers(j: Job, anchor: nat, ip: nat, match_: nat, length: nat, done: seq<Sequence>)
    requires Candidate(j, ip, match_) && anchor <= ip && Covers(j, anchor, done)
    requires MINMATCH <= length && ip + length + LASTLITERALS <= |j.src|
    requires forall k :: ip <= k < ip + length ==> j.src[k] == j.src[k - (ip - match_)]
    ensures Covers(j, ip + length, done + [SequenceAt(j.src, anchor, ip, match_, length)])
  {
    var s := SequenceAt(j.src, anchor, ip, match_, length);
    CopyOfInput(j.src, ip, ip - match_, length);
    assert (done + [s])[..|done|] == done;
    assert j.src[..anchor] + s.literals == j.src[..ip];
  }

  /** A whole sequence is in place. */
  lemma SequenceWritten(d: seq<byte>, op: nat, done: seq<Sequence>, s: Sequence)
    requires AllWellFormed(done) && WellFormed(s) && op <= |d|
    requires d[..op] == EncodeSequences(done) + EncodeSequence(s)
    ensures d[..op] == EncodeSequences(done + [s])
  {
    hide EncodeSequence;
    assert (done + [s])[..|done|] == done;
  }

  // ---------------------------------------------------------------- one match

  /** A sequence never costs more than one byte in 255 above what it stands for. */
  lemma SequenceCost(ll: nat, mc: nat)
    ensures 255 * (1 + LengthCost(ll) + ll + 2 + LengthCost(mc)) <= 256 * (ll + MINMATCH + mc)
  {
    CostBound(ll);
    CostBound(mc);
  }

  lemma CostBound(n: nat)
    ensures LengthCost(n) == (n + 240) / 255
    ensures 255 * LengthCost(n) <= n + 240
    ensures n < 15 ==> LengthCost(n) == 0
  {
  }

  /** Room for the match when the next byte to write is `op`. */
  ghost predicate RoomAtMatch(j: Job, token: nat, op: nat, anchor: nat, ip: nat, done: seq<Sequence>) {
    && Room(j, token, anchor, done)
    && anchor <= ip && op == token + 1 + LengthCost(ip - anchor) + (ip - anchor)
    && (j.directive != NotLimited ==> op <= j.olimit)
    && (j.directive == LimitedOutput ==> op + 2 <= j.olimit)
  }

  /** The length of a match of `mc + 4` bytes that can be written at `op`, or -1 if none can:
      in fill mode a match that is too long is shortened. */
  function FitMatch(j: Job, op: nat, mc: nat): (r: int)
    requires j.directive == FillOutput ==> op + 1 + MFLIMIT - MINMATCH <= j.olimit
    ensures j.directive == NotLimited ==> r == mc
    ensures j.directive == LimitedOutput ==> r == -1 || r == mc
    ensures r == -1 <==> j.directive == LimitedOutput && op + 1 + LASTLITERALS + LengthCost(mc) > j.olimit
    ensures j.directive == FillOutput ==> 0 <= r <= mc && (r == mc || r >= 14)
    ensures r >= 0 && j.directive != NotLimited ==> op + 1 + LASTLITERALS + LengthCost(r) <= j.olimit
    ensures r >= 0 && r != mc ==> op + 1 + LASTLITERALS + LengthCost(r) == j.olimit
  {
    CostBound(mc);
    if j.directive != NotLimited && op + (1 + LASTLITERALS) + (mc + 240) / 255 > j.olimit then
      if j.directive == FillOutput then
        var r := 15 - 1 + (j.olimit - op - 1 - LASTLITERALS) * 255;
        CostBound(r);
        r
      else -1
    else mc
  }

  /** The match that follows the longest common prefix reaches past everything entered. */
  lemma PastFilled(src: seq<byte>, ip: nat, offset: nat, mc: nat, filledIp: nat)
    requires filledIp + MFLIMIT <= |src| && ip + MFLIMIT <= |src|
    requires CommonPrefix(src, ip + MINMATCH, offset, |src| - LASTLITERALS, mc)
    requires offset <= ip && forall k :: ip <= k < filledIp + 4 ==> src[k] == src[k - offset]
    ensures filledIp < ip + MINMATCH + mc
  {
  }

  /** Takes the positions from `ip` to `filledIp` out of the table again. */
  method ClearHashes(j: Job, table: array<int>, hash: HashFunction, ip: nat, filledIp: nat)
    requires ip <= filledIp && filledIp + 4 <= |j.src|
    requires Hashes(hash, table.Length) && TableOk(table[..], j, hash, filledIp + 1)
    modifies table
    ensures TableOk(table[..], j, hash, ip)
  {
    var ptr := ip;
    while ptr <= filledIp
      invariant ip <= ptr <= filledIp + 1
      invariant TableOk(table[..], j, hash, filledIp + 1)
      invariant forall h :: 0 <= h < table.Length ==>
                  table[h] == 0 || table[h] - j.base < ip || ptr <= table[h] - j.base
    {
      table[hash(Read32(j.src, ptr))] := 0;
      ptr := ptr + 1;
    }
  }

  /** What the buffer holds once the match nibble and the match length bytes are in place. */
  lemma TokenCompleted(e: seq<byte>, s: Sequence, before: seq<byte>, after: seq<byte>)
    requires WellFormed(s)
    requires before == e + Head(s.literals) + [s.offset % 256, s.offset / 256]
    requires |e| < |before| <= |after|
    requires after == before[|e| := before[|e|] + Nibble(s.length - MINMATCH)] + LengthBytes(s.length - MINMATCH)
    ensures after == e + EncodeSequence(s)
  {
    hide LengthBytes, Nibble;
    var ll := |s.literals|;
    assert before == e + ([16 * Nibble(ll)] + LengthBytes(ll) + s.literals + [s.offset % 256, s.offset / 256]);
    assert before[|e|] == 16 * Nibble(ll);
  }

  /** Adds the match nibble to the token and writes the match length bytes. */
  method PutMatch(dst: array<byte>, token: nat, op0: nat, mc: nat) returns (op: nat)
    requires token < op0 && op0 + LengthCost(mc) + 3 <= dst.Length
    requires dst[token] % 16 == 0
    modifies dst
    ensures op == op0 + LengthCost(mc)
    ensures dst[..op] == old(dst[..op0][token := dst[token] + Nibble(mc)]) + LengthBytes(mc)
    ensures Outside(dst, token, op + 3)
  {
    dst[token] := dst[token] + Nibble(mc);
    op := op0;
    assert dst[..op0] == old(dst[..op0][token := dst[token] + Nibble(mc)]);
    if mc >= 15 {
      op := PutMatchLength(dst, op0, mc);
    }
  }

  datatype Outcome = Proceed | LastLiterals | GiveUp

  /** The room after a match that fits. */
  lemma RoomAfterMatch(j: Job, token: nat, op: nat, anchor: nat, ip: nat, match_: nat, mc: nat, done: seq<Sequence>)
    requires RoomAtMatch(j, token, op, anchor, ip, done)
    requires ip + MINMATCH + mc <= |j.src| && match_ <= ip
    requires j.directive != NotLimited ==> op + 2 + 1 + LASTLITERALS + LengthCost(mc) <= j.olimit
    requires j.directive == FillOutput ==> mc >= 14 || op + 2 + 1 + MFLIMIT - MINMATCH <= j.olimit
    ensures Room(j, op + 2 + LengthCost(mc), ip + MINMATCH + mc,
                 done + [SequenceAt(j.src, anchor, ip, match_, mc + MINMATCH)])
  {
    SequenceCost(ip - anchor, mc);
    CostBound(mc);
  }

  /** What is written up to a match, with the room for strided writes, stays inside the bound. */
  lemma NotLimitedRoom(j: Job, token: nat, anchor: nat, ip: nat, mc: nat)
    requires 255 * token <= 256 * anchor && anchor <= ip
        && ip + MINMATCH + mc + LASTLITERALS <= |j.src| <= MAX_INPUT_SIZE
    ensures token + 1 + LengthCost(ip - anchor) + (ip - anchor) + 2 + LengthCost(mc) + 12 <= CompressBound(|j.src|)
  {
    SequenceCost(ip - anchor, mc);
  }

  lemma CandidateBounds(j: Job, p: nat, match_: int)
    requires Candidate(j, p, match_)
    ensures 0 <= match_ < p && p - match_ <= DISTANCE_MAX && p + MFLIMIT <= |j.src|
    ensures forall k :: p <= k < p + MINMATCH ==> j.src[k] == j.src[k - (p - match_)]
  {
    forall k | p <= k < p + MINMATCH
      ensures j.src[k] == j.src[k - (p - match_)]
    {
      assert Read32(j.src, p)[k - p] == Read32(j.src, match_)[k - p];
    }
  }

  /** Offset and match length for a match of `mc + 4` bytes, all of which fits. */
  method PutSequence(j: Job, dst: array<byte>, token: nat, op0: nat, anchor: nat, ip0: nat, match_: nat, mc: nat,
                     ghost done: seq<Sequence>) returns (op: nat)
    requires 2 <= op0 <= dst.Length && AtMatch(j, dst[..], token, op0 - 2, anchor, ip0, match_, done)
    requires dst[..op0] == dst[..op0 - 2] + [(ip0 - match_) % 256, (ip0 - match_) / 256]
    requires op0 + LengthCost(mc) + 3 <= dst.Length
    modifies dst
    ensures op == op0 + LengthCost(mc)
    ensures dst[..op] == EncodeSequences(done + [SequenceAt(j.src, anchor, ip0, match_, mc + MINMATCH)])
    ensures Outside(dst, token, op + 3)
  {
    hide EncodeSequence, EncodeSequences, LengthCost, LengthBytes, InHistory, Run;
    CandidateBounds(j, ip0, match_);
    ghost var s := SequenceAt(j.src, anchor, ip0, match_, mc + MINMATCH);
    ghost var e := EncodeSequences(done);
    ghost var before := dst[..op0];
    assert |e| == token && before[token] == Head(s.literals)[0];
    op := PutMatch(dst, token, op0, mc);
    TokenCompleted(e, s, before, dst[..op]);
    SequenceWritten(dst[..], op, done, s);
  }

  /** The match at `ip0` cannot be longer than up to `ip`. */
  predicate Longest(src: seq<byte>, ip0: nat, match_: nat, ip: nat)
    requires match_ < ip0 <= ip <= |src|
  {
    ip + LASTLITERALS == |src| || (ip < |src| && src[ip] != src[ip - (ip0 - match_)])
  }

  /** Length of the match and the table afterwards; a shortened match may end before
      positions already entered, which are then taken out. -1 means the match does not fit. */
  method MeasureMatch(j: Job, table: array<int>, hash: HashFunction, op: nat, ip0: nat, match_: nat, filledIp: nat)
    returns (mc: int, ghost full: nat)
    requires Candidate(j, ip0, match_) && filledIp + MFLIMIT <= |j.src|
    requires Hashes(hash, table.Length)
    requires TableOk(table[..], j, hash, (if filledIp < ip0 then ip0 else filledIp) + 1)
    requires forall k :: ip0 <= k < filledIp + 4 ==> j.src[k] == j.src[k - (ip0 - match_)]
    requires j.directive == FillOutput ==> op + 1 + MFLIMIT - MINMATCH <= j.olimit
    modifies table
    ensures ip0 + MINMATCH + full + LASTLITERALS <= |j.src|
    ensures mc == -1 ==> j.directive == LimitedOutput && op + 1 + LASTLITERALS + LengthCost(full) > j.olimit
    ensures mc != -1 ==>
              && 0 <= mc && ip0 + MINMATCH + mc + LASTLITERALS <= |j.src|
              && (j.directive != NotLimited ==> op + 1 + LASTLITERALS + LengthCost(mc) <= j.olimit)
              && (j.directive == FillOutput ==> mc >= 14 || op + 1 + MFLIMIT - MINMATCH <= j.olimit)
              && (filledIp < ip0 + MINMATCH + mc
                  || (j.directive == FillOutput && op + 1 + LASTLITERALS + LengthCost(mc) == j.olimit))
              && (forall k :: ip0 <= k < ip0 + MINMATCH + mc ==> j.src[k] == j.src[k - (ip0 - match_)])
              && TableOk(table[..], j, hash, ip0 + MINMATCH + mc)
              && match_ < ip0 && (j.directive != FillOutput ==> Longest(j.src, ip0, match_, ip0 + MINMATCH + mc))
  {
    hide TableOk, Candidate, LengthCost, FitMatch;
    CandidateBounds(j, ip0, match_);
    var count := Count(j.src, ip0 + MINMATCH, match_ + MINMATCH, |j.src| - LASTLITERALS);
    full := count;
    mc := FitMatch(j, op, count);
    if mc < 0 { return; }
    PastFilled(j.src, ip0, ip0 - match_, count, filledIp);
    var ip := ip0 + MINMATCH + mc;
    if mc < count && ip <= filledIp {
      ClearHashes(j, table, hash, ip, filledIp);
    } else {
      TableGrows(table[..], j, hash, (if filledIp < ip0 then ip0 else filledIp) + 1, ip);
    }
  }

  /** In fill mode a match is not even started when the rest of the budget is too small. */
  predicate Rewinds(j: Job, op: nat) {
    j.directive == FillOutput && op + 2 + 1 + MFLIMIT - MINMATCH > j.olimit
  }

  /** From `_next_match` to the end of the match: offset, match length, token. Fill mode may
      rewind to the token (`LastLiterals`), limited output may give up. */
  method EmitMatch(j: Job, table: array<int>, hash: HashFunction, dst: array<byte>,
                   token: nat, op0: nat, anchor: nat, ip0: nat, match_: nat, filledIp: nat,
                   ghost done: seq<Sequence>)
    returns (out: Outcome, ip: nat, op: nat, ghost done': seq<Sequence>)
    requires ValidJob(j, dst) && table != dst as object
    requires Hashes(hash, table.Length)
    requires TableOk(table[..], j, hash, (if filledIp < ip0 then ip0 else filledIp) + 1)
    requires filledIp + MFLIMIT <= |j.src|
    requires AtMatch(j, dst[..], token, op0, anchor, ip0, match_, done)
    requires RoomAtMatch(j, token, op0, anchor, ip0, done)
    requires match_ < ip0
    requires Rewinds(j, op0) || forall k :: ip0 <= k < filledIp + 4 ==> j.src[k] == j.src[k - (ip0 - match_)]
    modifies table, dst
    ensures Outside(dst, token, Capacity(j))
    ensures out == GiveUp ==> TooSmall(j)
    ensures out == LastLiterals ==>
              j.directive == FillOutput && op == token && done' == done
              && dst[..token] == old(dst[..token])
    ensures out == Proceed ==>
              && ip0 < ip && token < op && done' != [] && TableOk(table[..], j, hash, ip)
              && (filledIp < ip || Rewinds(j, op + 1))
              && Written(j, dst[..], op, ip, done') && Room(j, op, ip, done')
              && ip0 + MINMATCH <= ip <= |j.src| - LASTLITERALS && anchor <= ip0
              && done' == done + [SequenceAt(j.src, anchor, ip0, match_, ip - ip0)]
              && (j.directive != FillOutput ==> Longest(j.src, ip0, match_, ip))
  {
    hide TableOk, Candidate, Covers, Head, EncodeSequence, EncodeSequences, LengthCost, LengthBytes, Room, InHistory;
    hide Longest;
    CandidateBounds(j, ip0, match_);
    ip, op, done' := ip0, op0, done;
    if Rewinds(j, op) {
      return LastLiterals, ip, token, done;
    }
    OffsetRoom(j, token, op0, anchor, ip0, done);
    ghost var before := dst[..];
    op := PutOffset(dst, op0, ip0 - match_);
    var mc;
    ghost var full;
    mc, full := MeasureMatch(j, table, hash, op, ip0, match_, filledIp);
    if mc < 0 {
      NotLimitedRoomAt(j, token, op0, anchor, ip0, full, done);
      return GiveUp, ip, op, done;
    }
    ip := ip0 + MINMATCH + mc;
    if j.directive == NotLimited {
      NotLimitedRoomAt(j, token, op0, anchor, ip0, mc, done);
    }
    AtMatchKept(j, before, dst[..], token, op0, anchor, ip0, match_, done);
    op := PutSequence(j, dst, token, op, anchor, ip0, match_, mc, done);
    done' := done + [SequenceAt(j.src, anchor, ip0, match_, mc + MINMATCH)];
    SequenceCovers(j, anchor, ip0, match_, mc + MINMATCH, done);
    RoomAfterMatch(j, token, op0, anchor, ip0, match_, mc, done);
    out := Proceed;
  }

  lemma AtMatchKept(j: Job, d: seq<byte>, d': seq<byte>, token: nat, op: nat, anchor: nat, ip: nat, match_: int,
      done: seq<Sequence>)
    requires AtMatch(j, d, token, op, anchor, ip, match_, done)
    requires op <= |d'| && d'[..op] == d[..op]
    ensures AtMatch(j, d', token, op, anchor, ip, match_, done)
  {
    assert d'[..token] == d'[..op][..token] == d[..op][..token] == d[..token];
  }

  lemma OffsetRoom(j: Job, token: nat, op: nat, anchor: nat, ip: nat, done: seq<Sequence>)
    requires RoomAtMatch(j, token, op, anchor, ip, done) && ip + MFLIMIT <= |j.src| <= MAX_INPUT_SIZE
    requires j.directive == FillOutput ==> op + 2 + 1 + MFLIMIT - MINMATCH <= j.olimit
    ensures op + 2 <= Capacity(j)
  {
    if j.directive == NotLimited {
      NotLimitedRoom(j, token, anchor, ip, 0);
    }
  }

  lemma NotLimitedRoomAt(j: Job, token: nat, op: nat, anchor: nat, ip: nat, mc: nat, done: seq<Sequence>)
    requires RoomAtMatch(j, token, op, anchor, ip, done)
    requires ip + MINMATCH + mc + LASTLITERALS <= |j.src| <= MAX_INPUT_SIZE
    ensures op + 2 + LengthCost(mc) + 12 <= CompressBound(|j.src|)
  {
    NotLimitedRoom(j, token, anchor, ip, mc);
  }

  // ---------------------------------------------------------------- around a match

  /** Moves a match back over equal bytes that are still literals. */
  method CatchUp(j: Job, anchor: nat, filledIp: nat, match0: nat) returns (ip: nat, match_: nat)
    requires Candidate(j, filledIp, match0) && anchor <= filledIp
    ensures anchor <= ip <= filledIp && Candidate(j, ip, match_) && ip - match_ == filledIp - match0
    ensures ip == anchor || match_ == 0 || j.src[ip - 1] != j.src[match_ - 1]
    ensures forall k :: ip <= k < filledIp + MINMATCH ==> j.src[k] == j.src[k - (ip - match_)]
  {
    CandidateBounds(j, filledIp, match0);
    ip, match_ := filledIp, match0;
    while ip > anchor && match_ > 0 && j.src[ip - 1] == j.src[match_ - 1]
      invariant anchor <= ip <= filledIp && ip - match_ == filledIp - match0
      invariant forall k :: ip <= k < filledIp + MINMATCH ==> j.src[k] == j.src[k - (filledIp - match0)]
    {
      ip, match_ := ip - 1, match_ - 1;
    }
    assert Read32(j.src, ip) == Read32(j.src, match_);
  }

  /** What the literals from `anchor` on need at most. */
  lemma LiteralsBound(j: Job, op: nat, anchor: nat, run: nat)
    requires 255 * op <= 256 * anchor && anchor + run <= |j.src| <= MAX_INPUT_SIZE
    ensures op + run + 1 + (run + 240) / 255 <= CompressBound(|j.src|)
    ensures anchor + run + MFLIMIT <= |j.src| ==>
              op + 1 + run + (2 + 1 + LASTLITERALS) + run / 255 <= CompressBound(|j.src|)
  {
  }

  /** Token and literals before a match, unless they do not fit. */
  method EmitLiterals(j: Job, dst: array<byte>, token: nat, anchor: nat, ip: nat, match_: nat,
      ghost done: seq<Sequence>)
    returns (out: Outcome, op: nat)
    requires ValidJob(j, dst) && Candidate(j, ip, match_) && anchor <= ip
    requires Written(j, dst[..], token, anchor, done) && Room(j, token, anchor, done)
    modifies dst
    ensures Outside(dst, token, Capacity(j))
    ensures out == GiveUp ==> TooSmall(j)
    ensures out == LastLiterals ==> j.directive == FillOutput && dst[..] == old(dst[..])
    ensures out == Proceed ==>
              AtMatch(j, dst[..], token, op, anchor, ip, match_, done) && RoomAtMatch(j, token, op, anchor, ip, done)
  {
    hide Covers, Head, EncodeSequences, LengthBytes, LengthCost, Candidate;
    CandidateBounds(j, ip, match_);
    var litLength := ip - anchor;
    op := token;
    CostBound(litLength);
    if j.directive == LimitedOutput && op + 1 + litLength + (2 + 1 + LASTLITERALS) + litLength / 255 > j.olimit {
      LiteralsBound(j, token, anchor, litLength);
      return GiveUp, op;
    }
    if j.directive == FillOutput
       && op + 1 + (litLength + 240) / 255 + litLength + 2 + 1 + MFLIMIT - MINMATCH > j.olimit {
      return LastLiterals, op;
    }
    if j.directive == NotLimited {
      NotLimitedRoom(j, token, anchor, ip, 0);
    }
    op := PutLiterals(dst, token, j.src, anchor, ip);
    assert dst[..token] == old(dst[..token]);
    out := Proceed;
  }

  /** Enters the position two before `ip` and then `ip` itself, and tells whether the entry
      found for `ip` is a match. */
  method TestNext(j: Job, table: array<int>, hash: HashFunction, ip: nat) returns (found: bool, match_: nat)
    requires 2 <= ip && ip + MFLIMIT <= |j.src|
    requires Hashes(hash, table.Length) && TableOk(table[..], j, hash, ip)
    requires if j.tableType == ByPtr then j.base > DISTANCE_MAX else j.base == 0
    requires j.tableType == ByU16 ==> |j.src| < LIMIT_64K
    modifies table
    ensures TableOk(table[..], j, hash, ip + 1)
    ensures found ==> Candidate(j, ip, match_)
    ensures var t := old(table[..])[hash(Read32(j.src, ip - 2)) := j.base + ip - 2];
            && (found <==> Entered(j, hash, t, ip))
            && (found ==> match_ == t[hash(Read32(j.src, ip))] - j.base)
  {
    hide TableOk, IsMatch, Candidate, Read32;
    var h := hash(Read32(j.src, ip - 2));
    TablePutBelow(table[..], j, hash, ip - 2, ip);
    PutOnHash(table, j, h, ip - 2);
    h := hash(Read32(j.src, ip));
    var v := table[h];
    TableGet(table[..], j, hash, ip, h);
    TablePut(table[..], j, hash, ip);
    PutOnHash(table, j, h, ip);
    found, match_ := IsMatch(j, v, ip), 0;
    if found {
      MatchIsCandidate(j, v, ip);
      CandidateBounds(j, ip, v - j.base);
      match_ := v - j.base;
    }
  }

  lemma TablePutBelow(table: seq<int>, j: Job, hash: HashFunction, p: nat, end: nat)
    requires p < end && p + 4 <= |j.src| && TableOk(table, j, hash, end) && hash(Read32(j.src, p)) < |table|
    ensures TableOk(table[hash(Read32(j.src, p)) := j.base + p], j, hash, end)
  {
  }

  /** A token for a match without literals. */
  lemma EmptyHead()
    ensures Head([]) == [0] && LengthCost(0) == 0
  {
  }

  /** Starts a sequence without literals at `op`. */
  method PutEmptyToken(j: Job, dst: array<byte>, op: nat, ip: nat, match_: nat, ghost done: seq<Sequence>)
    requires ValidJob(j, dst) && Candidate(j, ip, match_) && done != []
    requires Written(j, dst[..], op, ip, done) && Room(j, op, ip, done)
    modifies dst
    ensures op < Capacity(j)
    ensures Outside(dst, op, op + 1)
    ensures AtMatch(j, dst[..], op, op + 1, ip, ip, match_, done) && RoomAtMatch(j, op, op + 1, ip, ip, done)
  {
    hide Covers, EncodeSequences, LengthBytes, LengthCost, Candidate, Head;
    CandidateBounds(j, ip, match_);
    EmptyHead();
    if j.directive == NotLimited {
      NotLimitedRoom(j, op, ip, ip, 0);
    }
    dst[op] := 0;
    assert dst[..op] == old(dst[..op]);
    assert dst[..op + 1] == old(dst[..op]) + [0];
    assert j.src[ip..ip] == [];
  }

  // ---------------------------------------------------------------- the last literals

  /** `bytes` is a block in the sense of the format, written as the format says, and it stands
      for `data` without any history. */
  ghost predicate IsBlockFor(b: Block, bytes: seq<byte>, data: seq<byte>) {
    && AllWellFormed(b.sequences) && NonZeroOffsets(b.sequences)
    && InHistory(0, b.sequences) && EndRules(b)
    && bytes == Encode(b)
    && Expand([], b) == data
  }

  /** The number of literals that fill `room` bytes together with their length bytes. */
  function FillRun(room: nat): (r: nat)
    ensures r + LengthCost(r) <= room
    ensures 5 <= room ==> 5 <= r
    ensures 8 <= room ==> 8 <= r
  {
    var r := room - (room + 256 - 15) / 256;
    CostBound(r);
    r
  }

  lemma FillRunIsShorter(room: nat, run: nat)
    requires run + (run + 240) / 255 > room
    ensures FillRun(room) <= run
  {
    CostBound(FillRun(room));
  }

  lemma BlockCovers(j: Job, anchor: nat, done: seq<Sequence>, run: nat)
    requires Covers(j, anchor, done) && anchor + run <= |j.src|
    requires done != [] ==> LASTLITERALS <= run && done[|done| - 1].length + run >= MFLIMIT
    ensures var b := Block(done, j.src[anchor..anchor + run]);
            EndRules(b) && Expand([], b) == j.src[..anchor + run]
  {
    assert Run([], done) + j.src[anchor..anchor + run] == j.src[..anchor + run];
  }

  /** From `_last_literals` to the end; a result of 0 means the output budget is too small. */
  method PutLastLiterals(j: Job, dst: array<byte>, op: nat, anchor: nat, ghost done: seq<Sequence>)
    returns (r: nat, consumed: nat, ghost b: Block)
    requires ValidJob(j, dst)
    requires Written(j, dst[..], op, anchor, done) && Room(j, op, anchor, done)
    modifies dst
    ensures Outside(dst, op, Capacity(j))
    ensures r == 0 ==> TooSmall(j)
    ensures r > 0 ==>
              && r <= Capacity(j) && consumed <= |j.src|
              && (j.directive != FillOutput ==> consumed == |j.src|)
              && IsBlockFor(b, dst[..r], j.src[..consumed])
  {
    hide EncodeSequences, EncodeLast, FillRun, LengthCost, InHistory;
    var lastRun := |j.src| - anchor;
    CostBound(lastRun);
    b := Block(done, []);
    if j.directive != NotLimited && op + lastRun + 1 + (lastRun + 255 - 15) / 255 > j.olimit {
      if j.directive == FillOutput {
        FillRunIsShorter(j.olimit - op - 1, lastRun);
        lastRun := FillRun(j.olimit - op - 1);
      } else {
        LiteralsBound(j, op, anchor, lastRun);
        return 0, 0, b;
      }
    }
    ghost var before := dst[..op];
    r := PutLast(dst, op, j.src, anchor, lastRun);
    b := Block(done, j.src[anchor..anchor + lastRun]);
    consumed := anchor + lastRun;
    BlockCovers(j, anchor, done, lastRun);
  }

  // ---------------------------------------------------------------- the whole compressor

  /** All sequences: from the first byte to `_last_literals`. */
  method Sequences(j: Job, table: array<int>, hash: HashFunction, dst: array<byte>)
    returns (out: Outcome, op: nat, anchor: nat, ghost done: seq<Sequence>)
    requires ValidJob(j, dst) && table != dst as object && |j.src| >= MIN_LENGTH
    requires Hashes(hash, table.Length) && forall h :: 0 <= h < table.Length ==> table[h] == 0
    modifies table, dst
    ensures Outside(dst, 0, Capacity(j))
    ensures out in {GiveUp, LastLiterals}
    ensures out == GiveUp ==> TooSmall(j)
    ensures out == LastLiterals ==> Written(j, dst[..], op, anchor, done) && Room(j, op, anchor, done)
  {
    hide TableOk, Candidate, Read32, AtMatch, RoomAtMatch, Written, Room;
    Started(j, dst[..], table[..], hash);
    op, anchor, done := 0, 0, [];
    var mflimitPlusOne := |j.src| - MFLIMIT + 1;
    TablePut(table[..], j, hash, 0);
    PutOnHash(table, j, hash(Read32(j.src, 0)), 0);
    var start := 1;
    while true
      invariant anchor < start <= mflimitPlusOne
      invariant TableOk(table[..], j, hash, start)
      invariant Written(j, dst[..], op, anchor, done) && Room(j, op, anchor, done)
      invariant Outside(dst, 0, Capacity(j))
      decreases |j.src| - anchor
    {
      var found, filledIp, match0 := Search(j, table, hash, start);
      if !found { return LastLiterals, op, anchor, done; }
      CandidateBounds(j, filledIp, match0);
      var ip, match_ := CatchUp(j, anchor, filledIp, match0);
      out, op, anchor, done := Matches(j, table, hash, dst, op, anchor, ip, match_, filledIp, done);
      if out != Proceed { return; }
      start := anchor + 1;
    }
  }

  /** Going back to the token leaves what was written before it. */
  lemma Rewound(j: Job, d: seq<byte>, d': seq<byte>, token: nat, op: nat, anchor: nat, ip: nat, match_: nat,
      done: seq<Sequence>)
    requires AtMatch(j, d, token, op, anchor, ip, match_, done) && RoomAtMatch(j, token, op, anchor, ip, done)
    requires |d'| == |d| && d'[..token] == d[..token]
    ensures Written(j, d', token, anchor, done) && Room(j, token, anchor, done)
  {
  }

  /** The literals and the match found at `ip0`, then matches that follow each other without
      literals. `Proceed` means the search goes on after `ip`. */
  method Matches(j: Job, table: array<int>, hash: HashFunction, dst: array<byte>,
                 op0: nat, anchor0: nat, ip0: nat, match0: nat, filledIp: nat, ghost done0: seq<Sequence>)
    returns (out: Outcome, op: nat, anchor: nat, ghost done: seq<Sequence>)
    requires ValidJob(j, dst) && table != dst as object
    requires Hashes(hash, table.Length) && TableOk(table[..], j, hash, filledIp + 1)
    requires Written(j, dst[..], op0, anchor0, done0) && Room(j, op0, anchor0, done0)
    requires anchor0 <= ip0 <= filledIp && filledIp + MFLIMIT <= |j.src| && Candidate(j, ip0, match0)
    requires match0 < ip0 && forall k :: ip0 <= k < filledIp + 4 ==> j.src[k] == j.src[k - (ip0 - match0)]
    modifies table, dst
    ensures Outside(dst, op0, Capacity(j))
    ensures out == GiveUp ==> TooSmall(j)
    ensures out != GiveUp ==> Written(j, dst[..], op, anchor, done) && Room(j, op, anchor, done)
    ensures out == Proceed ==>
              && ip0 < anchor && anchor + MFLIMIT <= |j.src| && TableOk(table[..], j, hash, anchor + 1)
  {
    hide TableOk, Candidate, Read32, AtMatch, RoomAtMatch, Covers, Room, EncodeSequences;
    op, anchor, done := op0, anchor0, done0;
    var token := op;
    out, op := EmitLiterals(j, dst, token, anchor, ip0, match0, done);
    if out == LastLiterals { op := token; }
    if out != Proceed { return; }
    var ip: nat, match_: nat := ip0, match0;
    while true
      invariant op0 <= token && ip0 <= ip && match_ < ip
      invariant ip + MFLIMIT <= |j.src|
      invariant TableOk(table[..], j, hash, (if filledIp < ip then ip else filledIp) + 1)
      invariant AtMatch(j, dst[..], token, op, anchor, ip, match_, done)
      invariant RoomAtMatch(j, token, op, anchor, ip, done)
      invariant Rewinds(j, op) || forall k :: ip <= k < filledIp + 4 ==> j.src[k] == j.src[k - (ip - match_)]
      invariant Outside(dst, op0, Capacity(j))
      decreases |j.src| - ip
    {
      ghost var before, opBefore := dst[..], op;
      var next;
      ghost var done1;
      out, next, op, done1 := EmitMatch(j, table, hash, dst, token, op, anchor, ip, match_, filledIp, done);
      if out == LastLiterals {
        Rewound(j, before, dst[..], token, opBefore, anchor, ip, match_, done);
        return;
      }
      if out == GiveUp { return; }
      done, anchor := done1, next;
      if next >= |j.src| - MFLIMIT + 1 { return LastLiterals, op, anchor, done; }
      var found;
      ip := next;
      found, match_ := TestNext(j, table, hash, ip);
      if !found { return Proceed, op, anchor, done; }
      CandidateBounds(j, ip, match_);
      TableGrows(table[..], j, hash, ip + 1, (if filledIp < ip then ip else filledIp) + 1);
      token := op;
      PutEmptyToken(j, dst, token, ip, match_, done);
      op := token + 1;
    }
  }

  lemma Started(j: Job, d: seq<byte>, table: seq<int>, hash: HashFunction)
    requires forall h :: 0 <= h < |table| ==> table[h] == 0
    ensures TableOk(table, j, hash, 0)
    ensures Written(j, d, 0, 0, []) && Room(j, 0, 0, [])
  {
  }

  /** `LZ4_compress_generic`. Whatever the hash function, a positive result is the size of a
      block for the consumed part of the input. Zero means: input too large, or output budget
      too small. */
  method CompressGeneric(j: Job, table: array<int>, hash: HashFunction, dst: array<byte>)
    returns (r: nat, consumed: nat, ghost b: Block)
    requires Capacity(j) <= dst.Length && table != dst as object
    requires if j.tableType == ByPtr then j.base > DISTANCE_MAX else j.base == 0
    requires j.tableType == ByU16 ==> |j.src| < LIMIT_64K
    requires j.acceleration >= 1
    requires Hashes(hash, table.Length) && forall h :: 0 <= h < table.Length ==> table[h] == 0
    modifies table, dst
    ensures Outside(dst, 0, Capacity(j))
    ensures r == 0 ==> |j.src| > MAX_INPUT_SIZE || TooSmall(j) || (j.directive == FillOutput && j.olimit < 1)
    ensures r > 0 ==>
              && r <= Capacity(j) && consumed <= |j.src|
              && (j.directive != FillOutput ==> consumed == |j.src|)
              && IsBlockFor(b, dst[..r], j.src[..consumed])
  {
    hide IsBlockFor, Written, Room;
    b := Block([], []);
    if |j.src| > MAX_INPUT_SIZE { return 0, 0, b; }
    if |j.src| == 0 {
      if j.directive != NotLimited && j.olimit <= 0 { return 0, 0, b; }
      dst[0] := 0;
      EmptyBlock(dst[..1], j.src[..0]);
      return 1, 0, b;
    }
    if j.directive == FillOutput && j.olimit < 1 { return 0, 0, b; }
    var op, anchor := 0, 0;
    ghost var done := [];
    Started(j, dst[..], table[..], hash);
    if |j.src| >= MIN_LENGTH {
      var out;
      out, op, anchor, done := Sequences(j, table, hash, dst);
      if out == GiveUp { return 0, 0, b; }
    }
    r, consumed, b := PutLastLiterals(j, dst, op, anchor, done);
  }

  lemma EmptyBlock(bytes: seq<byte>, data: seq<byte>)
    requires bytes == [0] && data == []
    ensures IsBlockFor(Block([], []), bytes, data)
  {
  }

  const ACCELERATION_MAX := 65537

  /** How a table entry stands for a position, chosen by input size and source address. */
  function ChooseTable(n: nat, address: nat): TableType {
    if n < LIMIT_64K then ByU16 else if address > DISTANCE_MAX then ByPtr else ByU32
  }

  function Clamp(acceleration: int): nat {
    if acceleration < 1 then 1 else if acceleration > ACCELERATION_MAX then ACCELERATION_MAX else acceleration
  }

  function MakeJob(src: seq<byte>, directive: Directive, address: nat, olimit: int, acceleration: nat): Job {
    var tableType := ChooseTable(|src|, address);
    Job(src, directive, tableType, if tableType == ByPtr then address else 0, olimit, acceleration)
  }

  /** `LZ4_compress_fast`, with a table of `tableSize` zero entries. */
  method CompressFast(src: seq<byte>, address: nat, dst: array<byte>, maxOutputSize: int, acceleration: int,
                      hash: HashFunction, tableSize: nat) returns (r: nat, ghost b: Block)
    requires maxOutputSize <= dst.Length && Hashes(hash, tableSize)
    modifies dst
    ensures Outside(dst, 0, maxOutputSize)
    ensures r == 0 ==> |src| > MAX_INPUT_SIZE || maxOutputSize < CompressBound(|src|)
    ensures |src| <= 0x7E00_0000 && maxOutputSize >= |src| + |src| / 255 + 16 ==> r > 0
    ensures r <= |src| + |src| / 255 + 16
    ensures r > 0 ==> r <= maxOutputSize && r <= CompressBound(|src|) && IsBlockFor(b, dst[..r], src)
  {
    var directive := if maxOutputSize >= CompressBound(|src|) then NotLimited else LimitedOutput;
    var j := MakeJob(src, directive, address, maxOutputSize, Clamp(acceleration));
    var table := new int[tableSize](_ => 0);
    var consumed;
    r, consumed, b := CompressGeneric(j, table, hash, dst);
    assert src[..|src|] == src;
  }

  /** `LZ4_compress_destSize`: compresses as much of the input as the target can hold and
      reports how much that was. */
  method CompressDestSize(src: seq<byte>, address: nat, dst: array<byte>, target: int,
                          hash: HashFunction, tableSize: nat) returns (r: nat, consumed: nat, ghost b: Block)
    requires target <= dst.Length && Hashes(hash, tableSize)
    modifies dst
    ensures Outside(dst, 0, target)
    ensures r == 0 ==> |src| > MAX_INPUT_SIZE || target < 1
    ensures r > 0 ==> r <= target && consumed <= |src| && IsBlockFor(b, dst[..r], src[..consumed])
    ensures r > 0 && target >= CompressBound(|src|) ==> consumed == |src|
  {
    if target >= CompressBound(|src|) {
      r, b := CompressFast(src, address, dst, target, 1, hash, tableSize);
      consumed := |src|;
      assert src[..consumed] == src;
    } else {
      var j := MakeJob(src, FillOutput, address, target, 1);
      var table := new int[tableSize](_ => 0);
      r, consumed, b := CompressGeneric(j, table, hash, dst);
    }
  }
}
