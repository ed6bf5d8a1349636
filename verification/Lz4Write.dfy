/** Writing the parts of a compressed block into the output buffer. As in the compressor the
    literal copy and the runs of 255 overshoot; each contract says how far at most. */
module Lz4Write {
  import opened Lz4Format
  import opened Lz4Theory
  import opened Lz4Copy

  /** Number of length bytes of `LengthBytes(n)`. */
  function LengthCost(n: nat): nat {
    if n < 15 then 0 else (n - 15) / 255 + 1
  }

  /** Token and literal length bytes: `LengthBytes(n)` after `op`. */
  method PutLength(dst: array<byte>, op0: nat, n: nat) returns (op: nat)
    requires 15 <= n && op0 + LengthCost(n) <= dst.Length
    modifies dst
    ensures op == op0 + LengthCost(n)
    ensures dst[..op] == old(dst[..op0]) + LengthBytes(n)
    ensures Outside(dst, op0, op)
  {
    op := op0;
    var len := n - 15;
    ExtraSize(len);
    while len >= 255
      invariant op0 <= op && op + |Extra(len)| == op0 + LengthCost(n) && len / 255 + 1 == |Extra(len)|
      invariant dst[..op] + Extra(len) == old(dst[..op0]) + LengthBytes(n)
      invariant Outside(dst, op0, op)
    {
      ghost var before := dst[..op];
      dst[op] := 255;
      assert dst[..op + 1] == before + [255];
      assert dst[..op + 1] + Extra(len - 255) == before + Extra(len);
      op := op + 1;
      len := len - 255;
      ExtraSize(len);
    }
    ghost var before := dst[..op];
    dst[op] := len;
    assert dst[..op + 1] == before + [len];
    op := op + 1;
  }

  /** A token with a zero match nibble and the length bytes of `n` literals. */
  method PutToken(dst: array<byte>, token: nat, n: nat) returns (op: nat)
    requires token + 1 + LengthCost(n) <= dst.Length
    modifies dst
    ensures op == token + 1 + LengthCost(n)
    ensures dst[..op] == old(dst[..token]) + ([16 * Nibble(n)] + LengthBytes(n))
    ensures Outside(dst, token, op)
  {
    ghost var start := dst[..token];
    dst[token] := 16 * Nibble(n);
    op := token + 1;
    assert dst[..op] == start + [16 * Nibble(n)];
    if n >= 15 {
      op := PutLength(dst, op, n);
    }
    assert start + [16 * Nibble(n)] + LengthBytes(n) == start + ([16 * Nibble(n)] + LengthBytes(n));
  }

  /** Token with a zero match nibble, literal length, literals. */
  function Head(literals: seq<byte>): seq<byte> {
    [16 * Nibble(|literals|)] + LengthBytes(|literals|) + literals
  }

  /** Writes a head at `token`; the strided copy may go seven bytes past it, or eight when
      there are no literals. */
  method PutLiterals(dst: array<byte>, token: nat, src: seq<byte>, anchor: nat, ip: nat) returns (op: nat)
    requires anchor <= ip && ip + 8 <= |src|
    requires token + 1 + LengthCost(ip - anchor) + (ip - anchor) + 8 <= dst.Length + (if anchor < ip then 1 else 0)
    modifies dst
    ensures op == token + 1 + LengthCost(ip - anchor) + (ip - anchor)
    ensures dst[..op] == old(dst[..token]) + Head(src[anchor..ip])
    ensures Outside(dst, token, if anchor < ip then op + 7 else op + 8)
  {
    hide LengthBytes, LengthCost, Nibble;
    var litLength := ip - anchor;
    ghost var start := dst[..token];
    op := PutToken(dst, token, litLength);
    ghost var before := dst[..op];
    WildCopy8In(dst, op, src, anchor, op + litLength);
    assert dst[..op + litLength] == before + src[anchor..ip];
    op := op + litLength;
    assert before + src[anchor..ip] == start + Head(src[anchor..ip]);
  }

  method PutOffset(dst: array<byte>, op0: nat, offset: nat) returns (op: nat)
    requires op0 + 2 <= dst.Length && offset <= DISTANCE_MAX
    modifies dst
    ensures op == op0 + 2
    ensures dst[..op] == old(dst[..op0]) + [offset % 256, offset / 256]
    ensures Outside(dst, op0, op)
  {
    ghost var before := dst[..op0];
    dst[op0] := offset % 256;
    dst[op0 + 1] := offset / 256;
    op := op0 + 2;
    assert dst[..op] == before + [offset % 256, offset / 256];
  }

  method Put32(dst: array<byte>, op: nat)
    requires op + 4 <= dst.Length
    modifies dst
    ensures forall k :: op <= k < op + 4 ==> dst[k] == 255
    ensures Outside(dst, op, op + 4)
  {
    dst[op], dst[op + 1], dst[op + 2], dst[op + 3] := 255, 255, 255, 255;
  }

  /** Length bytes of a match from `LengthBytes(n)`: runs of four 255s written ahead. */
  method PutMatchLength(dst: array<byte>, op0: nat, n: nat) returns (op: nat)
    requires 15 <= n && op0 + LengthCost(n) + 3 <= dst.Length
    modifies dst
    ensures op == op0 + LengthCost(n)
    ensures dst[..op] == old(dst[..op0]) + LengthBytes(n)
    ensures Outside(dst, op0, op + 3)
  {
    op := op0;
    var mc := n - 15;
    Put32(dst, op);
    while mc >= 4 * 255
      invariant op0 <= op && 0 <= mc && mc + 255 * (op - op0) == n - 15
      invariant op + 4 <= op0 + LengthCost(n) + 3
      invariant forall k :: op0 <= k < op + 4 ==> dst[k] == 255
      invariant Outside(dst, op0, op + 4)
    {
      op := op + 4;
      Put32(dst, op);
      mc := mc - 4 * 255;
    }
    var rest := mc / 255;
    op := op + rest;
    dst[op] := mc % 255;
    op := op + 1;
    RestOfRun(n - 15, mc, op - 1 - op0 - rest);
    MatchLengthBytes(dst[..op], old(dst[..op0]), n);
  }

  /** What is left of a length after runs of 255. */
  lemma RestOfRun(n: nat, rest: nat, runs: nat)
    requires rest + 255 * runs == n
    ensures n / 255 == runs + rest / 255 && n % 255 == rest % 255
  {
  }

  /** Bytes of 255 and a remainder are length bytes. */
  lemma MatchLengthBytes(d: seq<byte>, before: seq<byte>, n: nat)
    requires 15 <= n && |d| == |before| + (n - 15) / 255 + 1 && d[..|before|] == before
    requires forall k :: |before| <= k < |d| - 1 ==> d[k] == 255
    requires d[|d| - 1] == (n - 15) % 255
    ensures d == before + LengthBytes(n)
  {
    RunOf255(n - 15);
    var e := Extra(n - 15);
    assert forall k :: 0 <= k < |e| ==> d[|before| + k] == e[k];
  }

  /** Length bytes are 255s and then the remainder. */
  lemma {:induction false} RunOf255(n: nat)
    ensures var e := Extra(n);
            |e| == n / 255 + 1 && e[n / 255] == n % 255 && forall k :: 0 <= k < n / 255 ==> e[k] == 255
  {
    if n >= 255 {
      RunOf255(n - 255);
      assert (n - 255) / 255 == n / 255 - 1 && (n - 255) % 255 == n % 255;
    }
  }

  /** How many length bytes follow a nibble, and what they are: 255s and a remainder. */
  ghost predicate IsLength(bytes: seq<byte>, n: nat) {
    if n < 15 then bytes == []
    else
      && |bytes| == (n - 15) / 255 + 1 && bytes[|bytes| - 1] == (n - 15) % 255
      && forall k :: 0 <= k < |bytes| - 1 ==> bytes[k] == 255
  }

  lemma LengthInBytes(n: nat)
    ensures IsLength(LengthBytes(n), n)
  {
    if n >= 15 { RunOf255(n - 15); }
  }

  /** The bytes of a sequence: a token with the number of literals in its high and the match
      length less 4 in its low nibble, 15 meaning that length bytes follow; literals; the
      offset, low byte first. */
  lemma SequenceInBytes(s: Sequence) returns (l: seq<byte>, m: seq<byte>)
    requires s.length >= 4 && s.offset <= 65535
    ensures IsLength(l, |s.literals|) && IsLength(m, s.length - 4)
    ensures EncodeSequence(s)
            == [16 * (if |s.literals| < 15 then |s.literals| else 15) + if s.length < 19 then s.length - 4 else 15]
               + l + s.literals + [s.offset % 256, s.offset / 256] + m
  {
    l, m := LengthBytes(|s.literals|), LengthBytes(s.length - 4);
    LengthInBytes(|s.literals|);
    LengthInBytes(s.length - 4);
  }

  /** The last token and literals. */
  method PutLast(dst: array<byte>, token: nat, src: seq<byte>, anchor: nat, lastRun: nat) returns (op: nat)
    requires anchor + lastRun <= |src|
    requires token + 1 + LengthCost(lastRun) + lastRun <= dst.Length
    modifies dst
    ensures op == token + 1 + LengthCost(lastRun) + lastRun
    ensures dst[..op] == old(dst[..token]) + EncodeLast(src[anchor..anchor + lastRun], 0)
    ensures Outside(dst, token, op)
  {
    hide LengthBytes, LengthCost, Nibble;
    ghost var start := dst[..token];
    op := PutToken(dst, token, lastRun);
    ghost var before := dst[..op];
    CopyIn(dst, op, src, anchor, lastRun);
    assert dst[..op + lastRun] == before + src[anchor..anchor + lastRun];
    op := op + lastRun;
    assert before + src[anchor..anchor + lastRun] == start + EncodeLast(src[anchor..anchor + lastRun], 0);
  }
}
