/** Facts about the LZ4 block format: writing and reading are inverse, and a copied match
    is the only continuation of the history in which every byte repeats the one before it. */
module Lz4Theory {
  import opened Lz4Format

  // ---------------------------------------------------------------- lengths

  lemma {:induction false} ReadExtraOfExtra(src: seq<byte>, ip: nat, n: nat)
    requires ip <= |src| && Extra(n) <= src[ip..]
    ensures ReadExtra(src, ip) == Some((n, ip + |Extra(n)|))
    decreases n
  {
    assert src[ip..][0] == src[ip];
    if n >= 255 {
      assert Extra(n)[1..] == Extra(n - 255);
      assert src[ip + 1..] == src[ip..][1..];
      ReadExtraOfExtra(src, ip + 1, n - 255);
    }
  }

  lemma {:induction false} ExtraOfReadExtra(src: seq<byte>, ip: nat)
    requires ReadExtra(src, ip).Some?
    ensures var (n, j) := ReadExtra(src, ip).value; src[ip..j] == Extra(n)
    decreases |src| - ip
  {
    var (n, j) := ReadExtra(src, ip).value;
    if src[ip] == 255 {
      ExtraOfReadExtra(src, ip + 1);
      assert src[ip..j] == [src[ip]] + src[ip + 1..j];
    } else {
      assert src[ip..j] == [src[ip]];
    }
  }

  lemma ReadLengthOfBytes(src: seq<byte>, ip: nat, n: nat)
    requires ip <= |src| && LengthBytes(n) <= src[ip..]
    ensures ReadLength(src, ip, Nibble(n)) == Some((n, ip + |LengthBytes(n)|))
  {
    if n >= 15 {
      ReadExtraOfExtra(src, ip, n - 15);
    }
  }

  lemma BytesOfReadLength(src: seq<byte>, ip: nat, nibble: nat)
    requires ip <= |src| && nibble < 16 && ReadLength(src, ip, nibble).Some?
    ensures var (n, j) := ReadLength(src, ip, nibble).value; src[ip..j] == LengthBytes(n) && nibble == Nibble(n)
  {
    if nibble == 15 {
      ExtraOfReadExtra(src, ip);
    }
  }

  /** A run of `n` units costs one byte per 255 units, rounded up past 15. */
  lemma {:induction false} ExtraSize(n: nat)
    ensures |Extra(n)| == n / 255 + 1
  {
    if n >= 255 {
      ExtraSize(n - 255);
    }
  }

  // ---------------------------------------------------------------- writing, then reading

  /** A slice of a string that is known to start with `e` at `ip` is a slice of `e`. */
  lemma SliceOf(src: seq<byte>, ip: nat, e: seq<byte>, a: nat, b: nat)
    requires ip <= |src| && e <= src[ip..] && a <= b <= |e|
    ensures src[ip + a..ip + b] == e[a..b]
  {
    assert src[ip + a..ip + b] == src[ip..][..|e|][a..b];
  }

  /** Where the parts of an encoded sequence lie. */
  lemma SequenceLayout(s: Sequence, e: seq<byte>)
    requires WellFormed(s) && e == EncodeSequence(s)
    ensures var a := |LengthBytes(|s.literals|)|;
            var q := 1 + a + |s.literals|;
            && |e| == q + 2 + |LengthBytes(s.length - MINMATCH)|
            && e[0] / 16 == Nibble(|s.literals|) && e[0] % 16 == Nibble(s.length - MINMATCH)
            && e[1..1 + a] == LengthBytes(|s.literals|)
            && e[1 + a..q] == s.literals
            && Word16(e[q], e[q + 1]) == s.offset
            && e[q + 2..] == LengthBytes(s.length - MINMATCH)
  {
    hide LengthBytes, Nibble;
    var ll, ml := |s.literals|, s.length - MINMATCH;
    var l, m := LengthBytes(ll), LengthBytes(ml);
    assert e == [16 * Nibble(ll) + Nibble(ml)] + l + s.literals + [s.offset % 256, s.offset / 256] + m;
  }

  lemma ParseStepOfSequence(src: seq<byte>, ip: nat, s: Sequence)
    requires WellFormed(s) && ip <= |src| && EncodeSequence(s) <= src[ip..]
    requires ip + |EncodeSequence(s)| < |src|
    ensures ParseStep(src, ip) == Next(s, ip + |EncodeSequence(s)|)
  {
    hide EncodeSequence, LengthBytes, ReadLength, Nibble;
    var e := EncodeSequence(s);
    SequenceLayout(s, e);
    var ll, ml := |s.literals|, s.length - MINMATCH;
    assert src[ip] == src[ip..][0] == e[0];
    var p := 1 + |LengthBytes(ll)|;
    var q := p + ll;
    SliceOf(src, ip, e, 1, p);
    assert LengthBytes(ll) <= src[ip + 1..];
    ReadLengthOfBytes(src, ip + 1, ll);
    SliceOf(src, ip, e, p, q);
    assert src[ip + q] == src[ip..][q] == e[q];
    assert src[ip + q + 1] == src[ip..][q + 1] == e[q + 1];
    SliceOf(src, ip, e, q + 2, |e|);
    assert LengthBytes(ml) <= src[ip + q + 2..];
    ReadLengthOfBytes(src, ip + q + 2, ml);
  }

  lemma ParseStepOfLast(src: seq<byte>, ip: nat, last: seq<byte>, spare: nat)
    requires spare < 16 && ip <= |src| && src[ip..] == EncodeLast(last, spare)
    ensures ip < |src| && ParseStep(src, ip) == Final(last)
  {
    var e := EncodeLast(last, spare);
    assert src[ip] == src[ip..][0] == e[0];
    var p := ip + 1 + |LengthBytes(|last|)|;
    assert src[ip + 1..] == src[ip..][1..] == e[1..];
    ReadLengthOfBytes(src, ip + 1, |last|);
    assert src[p..] == src[ip..][p - ip..] == e[p - ip..] == last;
  }

  lemma {:induction false} EncodePrefix(ss: seq<Sequence>, k: nat)
    requires AllWellFormed(ss) && k <= |ss|
    ensures EncodeSequences(ss[..k]) <= EncodeSequences(ss)
    decreases |ss|
  {
    if k < |ss| {
      EncodePrefix(ss[..|ss| - 1], k);
      assert ss[..|ss| - 1][..k] == ss[..k];
    } else {
      assert ss[..k] == ss;
    }
  }

  lemma EncodeNext(ss: seq<Sequence>, k: nat)
    requires AllWellFormed(ss) && k < |ss|
    ensures |EncodeSequences(ss[..k + 1])| == |EncodeSequences(ss[..k])| + |EncodeSequence(ss[k])|
    ensures |EncodeSequences(ss[..k])| <= |EncodeSequences(ss)|
    ensures EncodeSequence(ss[k]) <= EncodeSequences(ss)[|EncodeSequences(ss[..k])|..]
  {
    hide EncodeSequence;
    EncodePrefix(ss, k + 1);
    assert ss[..k + 1][..k] == ss[..k];
    assert EncodeSequences(ss[..k + 1]) == EncodeSequences(ss[..k]) + EncodeSequence(ss[k]);
  }

  lemma {:induction false} ParseRest(b: Block, spare: nat, src: seq<byte>, k: nat)
    requires AllWellFormed(b.sequences) && spare < 16 && k <= |b.sequences|
    requires src == EncodeSequences(b.sequences) + EncodeLast(b.last, spare)
    ensures ParseFrom(src, |EncodeSequences(b.sequences[..k])|, b.sequences[..k]) == Some(b)
    decreases |b.sequences| - k
  {
    hide EncodeSequence, ParseStep, EncodeLast;
    var ss := b.sequences;
    EncodePrefix(ss, k);
    var p := |EncodeSequences(ss[..k])|;
    if k == |ss| {
      assert ss[..k] == ss;
      assert src[p..] == EncodeLast(b.last, spare);
      ParseStepOfLast(src, p, b.last, spare);
    } else {
      var e := EncodeSequence(ss[k]);
      EncodeNext(ss, k);
      assert src[p..] == EncodeSequences(ss)[p..] + EncodeLast(b.last, spare);
      ParseStepOfSequence(src, p, ss[k]);
      ParseRest(b, spare, src, k + 1);
      assert ss[..k] + [ss[k]] == ss[..k + 1];
    }
  }

  /** Reading what was written gives the block back, so a block has one meaning. */
  lemma ParseOfEncode(b: Block)
    requires AllWellFormed(b.sequences)
    ensures Parse(Encode(b)) == Some(b)
  {
    ParseRest(b, 0, Encode(b), 0);
    assert b.sequences[..0] == [];
  }

  // ---------------------------------------------------------------- reading, then writing

  lemma Word16Bytes(low: byte, high: byte)
    ensures Word16(low, high) % 256 == low && Word16(low, high) / 256 == high
  {
  }

  lemma SequenceOfParseStep(src: seq<byte>, ip: nat)
    requires ip < |src| && ParseStep(src, ip).Next?
    ensures var r := ParseStep(src, ip); src[ip..r.ip] == EncodeSequence(r.sequence)
  {
    hide ReadLength, LengthBytes, Nibble;
    var r := ParseStep(src, ip);
    BytesOfReadLength(src, ip + 1, src[ip] / 16);
    var (n, p) := ReadLength(src, ip + 1, src[ip] / 16).value;
    BytesOfReadLength(src, p + n + 2, src[ip] % 16);
    Word16Bytes(src[p + n], src[p + n + 1]);
    assert src[ip..r.ip]
        == [src[ip]] + src[ip + 1..p] + src[p..p + n] + [src[p + n], src[p + n + 1]] + src[p + n + 2..r.ip];
  }

  lemma LastOfParseStep(src: seq<byte>, ip: nat)
    requires ip < |src| && ParseStep(src, ip).Final?
    ensures src[ip..] == EncodeLast(ParseStep(src, ip).literals, src[ip] % 16)
  {
    BytesOfReadLength(src, ip + 1, src[ip] / 16);
    var (n, p) := ReadLength(src, ip + 1, src[ip] / 16).value;
    assert src[ip..] == [src[ip]] + src[ip + 1..p] + src[p..];
  }

  lemma {:induction false} EncodeOfParseFrom(src: seq<byte>, ip: nat, done: seq<Sequence>) returns (spare: nat)
    requires AllWellFormed(done) && ip <= |src| && src[..ip] == EncodeSequences(done)
    requires ParseFrom(src, ip, done).Some?
    ensures var b := ParseFrom(src, ip, done).value;
            spare < 16 && src == EncodeSequences(b.sequences) + EncodeLast(b.last, spare)
    decreases |src| - ip
  {
    hide EncodeSequence, ParseStep, EncodeLast;
    match ParseStep(src, ip)
    case Bad =>
    case Final(_) =>
      LastOfParseStep(src, ip);
      spare := src[ip] % 16;
      assert src == src[..ip] + src[ip..];
    case Next(s, j) =>
      SequenceOfParseStep(src, ip);
      assert src[..j] == src[..ip] + src[ip..j];
      assert (done + [s])[..|done|] == done;
      spare := EncodeOfParseFrom(src, j, done + [s]);
  }

  /** Bytes that read as a block are exactly that block written down, up to the low nibble
      of the last token, which the format leaves unused. */
  lemma EncodeOfParse(src: seq<byte>) returns (spare: nat)
    requires Parse(src).Some?
    ensures var b := Parse(src).value;
            spare < 16 && src == EncodeSequences(b.sequences) + EncodeLast(b.last, spare)
    ensures spare == 0 ==> src == Encode(Parse(src).value)
  {
    spare := EncodeOfParseFrom(src, 0, []);
  }

  // ---------------------------------------------------------------- matches

  /** The continuation `out` of `h` repeats the byte `offset` before it, everywhere. */
  predicate Repeats(h: seq<byte>, out: seq<byte>, offset: nat)
    requires offset <= |h|
  {
    forall i :: 0 <= i < |out| ==> out[i] == if offset == 0 then 0 else (h + out)[|h| + i - offset]
  }

  lemma {:induction false} CopyMatchUnique(h: seq<byte>, out: seq<byte>, offset: nat)
    requires offset <= |h| && Repeats(h, out, offset)
    ensures CopyMatch(h, offset, |out|) == h + out
    decreases |out|
  {
    if out == [] {
      assert h + out == h;
    } else {
      var h' := h + [out[0]];
      assert out[0] == Back(h, offset);
      assert h' + out[1..] == h + out;
      forall i | 0 <= i < |out[1..]|
        ensures out[1..][i] == if offset == 0 then 0 else (h' + out[1..])[|h'| + i - offset]
      {
        assert out[1..][i] == out[i + 1];
      }
      CopyMatchUnique(h', out[1..], offset);
    }
  }

  lemma {:induction false} CopyMatchRepeats(h: seq<byte>, offset: nat, n: nat)
    requires offset <= |h|
    ensures Repeats(h, CopyMatch(h, offset, n)[|h|..], offset)
    decreases n
  {
    var c := CopyMatch(h, offset, n);
    if n > 0 {
      var h' := h + [Back(h, offset)];
      CopyMatchRepeats(h', offset, n - 1);
      var out, out' := c[|h|..], c[|h'|..];
      assert h + out == c == h' + out';
      forall i | 0 <= i < |out|
        ensures out[i] == if offset == 0 then 0 else (h + out)[|h| + i - offset]
      {
        if i == 0 {
          assert c[..|h'|] == h';
          assert out[0] == c[|h|] == h'[|h|];
          if offset > 0 { assert (h + out)[|h| - offset] == h[|h| - offset]; }
        } else {
          assert out[i] == out'[i - 1];
        }
      }
    }
  }
}
