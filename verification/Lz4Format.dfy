/** The LZ4 block format: what a block is, how it is written as bytes, how bytes are read
    back, and what a block expands to, one byte at a time. Nothing here is fast; the
    compressor and the decoder are proved against these functions. */
module Lz4Format {
  type byte = x: int | 0 <= x < 256

  datatype Option<+T> = None | Some(value: T)

  const MINMATCH := 4
  const MFLIMIT := 12
  const LASTLITERALS := 5
  const DISTANCE_MAX := 65535

  /** Literals followed by a match of `length` bytes found `offset` bytes back. */
  datatype Sequence = Sequence(literals: seq<byte>, offset: nat, length: nat)

  /** Sequences followed by the literals that end every block. */
  datatype Block = Block(sequences: seq<Sequence>, last: seq<byte>)

  // ---------------------------------------------------------------- writing

  /** The bytes that follow a nibble of 15. */
  function Extra(n: nat): (r: seq<byte>)
  {
    if n < 255 then [n] else [255] + Extra(n - 255)
  }

  function LengthBytes(n: nat): seq<byte> {
    if n < 15 then [] else Extra(n - 15)
  }

  function Nibble(n: nat): (r: nat)
    ensures r < 16
  {
    if n < 15 then n else 15
  }

  predicate WellFormed(s: Sequence) {
    s.length >= MINMATCH && s.offset <= DISTANCE_MAX
  }

  function EncodeSequence(s: Sequence): seq<byte>
    requires WellFormed(s)
  {
    [16 * Nibble(|s.literals|) + Nibble(s.length - MINMATCH)]
    + LengthBytes(|s.literals|) + s.literals
    + [s.offset % 256, s.offset / 256] + LengthBytes(s.length - MINMATCH)
  }

  predicate AllWellFormed(ss: seq<Sequence>) {
    forall i :: 0 <= i < |ss| ==> WellFormed(ss[i])
  }

  function EncodeSequences(ss: seq<Sequence>): seq<byte>
    requires AllWellFormed(ss)
  {
    if ss == [] then [] else EncodeSequences(ss[..|ss| - 1]) + EncodeSequence(ss[|ss| - 1])
  }

  /** The last run of literals; `spare` is the unused low nibble of its token. */
  function EncodeLast(last: seq<byte>, spare: nat): (r: seq<byte>)
    requires spare < 16
    ensures |r| > |last|
  {
    [16 * Nibble(|last|) + spare] + LengthBytes(|last|) + last
  }

  function Encode(b: Block): seq<byte>
    requires AllWellFormed(b.sequences)
  {
    EncodeSequences(b.sequences) + EncodeLast(b.last, 0)
  }

  // ---------------------------------------------------------------- reading

  /** The sum of the length bytes at `ip` and the position after them. */
  function ReadExtra(src: seq<byte>, ip: nat): (r: Option<(nat, nat)>)
    ensures r.Some? ==> ip < r.value.1 <= |src|
    decreases |src| - ip
  {
    if ip >= |src| then None
    else if src[ip] < 255 then Some((src[ip], ip + 1))
    else
      match ReadExtra(src, ip + 1)
      case None => None
      case Some((n, j)) => Some((255 + n, j))
  }

  /** A length whose nibble is known: the length and the position after its bytes. */
  function ReadLength(src: seq<byte>, ip: nat, nibble: nat): (r: Option<(nat, nat)>)
    requires ip <= |src|
    ensures r.Some? ==> ip <= r.value.1 <= |src|
  {
    if nibble != 15 then Some((nibble, ip))
    else
      match ReadExtra(src, ip)
      case None => None
      case Some((n, j)) => Some((15 + n, j))
  }

  /** A 16-bit little-endian value. */
  function Word16(low: int, high: int): (r: int) {
    low + 256 * high
  }

  datatype Step = Bad | Final(literals: seq<byte>) | Next(sequence: Sequence, ip: nat)

  /** Offset and length of a match whose description starts at `ip`. */
  function ReadMatch(src: seq<byte>, ip: nat, nibble: nat, literals: seq<byte>): (r: Step)
    requires ip <= |src|
    ensures r.Next? ==> ip + 2 <= r.ip <= |src| && WellFormed(r.sequence) && r.sequence.literals == literals
    ensures !r.Final?
  {
    if ip + 2 > |src| then Bad
    else
      match ReadLength(src, ip + 2, nibble)
      case None => Bad
      case Some((n, j)) => Next(Sequence(literals, Word16(src[ip], src[ip + 1]), n + MINMATCH), j)
  }

  /** One sequence read at `ip`; literals that reach the end of the input end the block. */
  function ParseStep(src: seq<byte>, ip: nat): (r: Step)
    requires ip < |src|
    ensures r.Next? ==> ip < r.ip <= |src| && WellFormed(r.sequence)
  {
    match ReadLength(src, ip + 1, src[ip] / 16)
    case None => Bad
    case Some((n, p)) =>
      if p + n > |src| then Bad
      else if p + n == |src| then Final(src[p..])
      else ReadMatch(src, p + n, src[ip] % 16, src[p..p + n])
  }

  /** Reads sequences from `ip` on, after those already in `done`. */
  function ParseFrom(src: seq<byte>, ip: nat, done: seq<Sequence>): (r: Option<Block>)
    requires AllWellFormed(done)
    ensures r.Some? ==> AllWellFormed(r.value.sequences)
    ensures r.Some? ==> |done| <= |r.value.sequences| && r.value.sequences[..|done|] == done
    decreases |src| - ip
  {
    if ip >= |src| then None
    else
      match ParseStep(src, ip)
      case Bad => None
      case Final(literals) => Some(Block(done, literals))
      case Next(s, j) => ParseFrom(src, j, done + [s])
  }

  function Parse(src: seq<byte>): (r: Option<Block>)
    ensures r.Some? ==> AllWellFormed(r.value.sequences)
  {
    ParseFrom(src, 0, [])
  }

  // ---------------------------------------------------------------- meaning

  /** The next byte of a match: `offset` back, or zero when the offset is zero. */
  function Back(h: seq<byte>, offset: nat): byte
    requires offset <= |h|
  {
    if offset == 0 then 0 else h[|h| - offset]
  }

  /** Appends `n` bytes to `h`, each a copy of the byte `offset` before it. */
  function CopyMatch(h: seq<byte>, offset: nat, n: nat): (r: seq<byte>)
    requires offset <= |h|
    ensures |r| == |h| + n && r[..|h|] == h
    decreases n
  {
    if n == 0 then h else CopyMatch(h + [Back(h, offset)], offset, n - 1)
  }

  /** Number of bytes that sequences expand to. */
  function Size(ss: seq<Sequence>): nat {
    if ss == [] then 0
    else Size(ss[..|ss| - 1]) + |ss[|ss| - 1].literals| + ss[|ss| - 1].length
  }

  function BlockSize(b: Block): nat {
    Size(b.sequences) + |b.last|
  }

  /** Every match starts inside the `history` bytes before the block or in its own output. */
  predicate InHistory(history: nat, ss: seq<Sequence>) {
    ss == [] ||
    (InHistory(history, ss[..|ss| - 1])
     && ss[|ss| - 1].offset <= history + Size(ss[..|ss| - 1]) + |ss[|ss| - 1].literals|)
  }

  /** `h` followed by what the sequences expand to. */
  function Run(h: seq<byte>, ss: seq<Sequence>): (r: seq<byte>)
    requires InHistory(|h|, ss)
    ensures |r| == |h| + Size(ss) && r[..|h|] == h
  {
    if ss == [] then h
    else
      var s := ss[|ss| - 1];
      CopyMatch(Run(h, ss[..|ss| - 1]) + s.literals, s.offset, s.length)
  }

  /** What a block expands to after the history `h`. */
  function Expand(h: seq<byte>, b: Block): (r: seq<byte>)
    requires InHistory(|h|, b.sequences)
    ensures |r| == BlockSize(b)
  {
    (Run(h, b.sequences) + b.last)[|h|..]
  }

  /** The end-of-block conditions of the format: the last five bytes are literals and the
      last match starts at least twelve bytes before the end. */
  predicate EndRules(b: Block) {
    b.sequences == [] ||
    (|b.last| >= LASTLITERALS
     && b.sequences[|b.sequences| - 1].length + |b.last| >= MFLIMIT)
  }

  predicate NonZeroOffsets(ss: seq<Sequence>) {
    forall i :: 0 <= i < |ss| ==> ss[i].offset > 0
  }
}
