/** Compressor and decoder together. */
module Lz4RoundTrip {
  import opened Lz4Format
  import opened Lz4Theory
  import opened Lz4Copy
  import opened Lz4Decode
  import opened Lz4Compress

  /** A written block is acceptable to the decoder in any call with the block as input and
      exactly the room for its data, and its meaning is that data. */
  lemma BlockIsAcceptable(b: Block, c: Call, data: seq<byte>)
    requires IsBlockFor(b, c.src, data) && c.oend == c.dst + |data|
    ensures Acceptable(c, 0) && Parse(c.src) == Some(b) && Expand([], b) == data
  {
    ParseOfEncode(b);
  }

  /** What the decoder does with a written block. */
  method Decompress(bytes: seq<byte>, ghost b: Block, ghost data: seq<byte>, size: nat) returns (out: array<byte>)
    requires IsBlockFor(b, bytes, data) && |data| == size && |bytes| <= INT_MAX && size <= INT_MAX
    ensures fresh(out) && out[..] == data
  {
    out := new byte[size](_ => 0);
    var c := Call(bytes, NoDict, [], 0, 0, size);
    BlockIsAcceptable(b, c, data);
    assert c.dictionary + out[c.low..c.dst] == [];
    var r := DecompressGeneric(out, c);
    assert r == size && out[..r] == out[..];
  }

  /** Compressing with enough room and decompressing into exactly the size of the input gives
      the input back, for every hash function, address and acceleration. */
  method RoundTrip(src: seq<byte>, address: nat, acceleration: int, hash: HashFunction, tableSize: nat)
    returns (out: array<byte>)
    requires |src| <= MAX_INPUT_SIZE && Hashes(hash, tableSize)
    ensures out[..] == src
  {
    var bound := CompressBound(|src|);
    var dst := new byte[bound](_ => 0);
    var r, b := CompressFast(src, address, dst, bound, acceleration, hash, tableSize);
    out := Decompress(dst[..r], b, src, |src|);
  }

  /** Compressing into a fixed budget and decompressing into exactly the reported number of
      bytes gives that prefix of the input. */
  method FillRoundTrip(src: seq<byte>, address: nat, target: nat, hash: HashFunction, tableSize: nat)
    returns (out: array<byte>, consumed: nat)
    requires 1 <= target <= INT_MAX && |src| <= MAX_INPUT_SIZE && Hashes(hash, tableSize)
    ensures consumed <= |src| && out[..] == src[..consumed]
    ensures target >= CompressBound(|src|) ==> consumed == |src|
  {
    var dst := new byte[target](_ => 0);
    var r, n, b := CompressDestSize(src, address, dst, target, hash, tableSize);
    consumed := n;
    out := Decompress(dst[..r], b, src[..consumed], consumed);
  }

  /** Decoding depends only on the bytes that precede the output, not on how they are split
      between external dictionary and prefix: two calls for the same block and the same bytes
      of history that both succeed write the same, and on an acceptable block both do. */
  method SameHistorySameOutput(mem1: array<byte>, c1: Call, mem2: array<byte>, c2: Call) returns (r1: int, r2: int)
    requires ValidCall(c1, mem1.Length) && ValidCall(c2, mem2.Length) && mem1 != mem2
    requires c1.src == c2.src && c1.oend - c1.dst == c2.oend - c2.dst
    requires c1.dictionary + mem1[c1.low..c1.dst] == c2.dictionary + mem2[c2.low..c2.dst]
    modifies mem1, mem2
    ensures r1 >= 0 && r2 >= 0 ==>
              r1 == r2 && c1.dst + r1 <= mem1.Length && c2.dst + r2 <= mem2.Length
              && mem1[c1.dst..c1.dst + r1] == mem2[c2.dst..c2.dst + r2]
    ensures Acceptable(c1, |c1.dictionary| + c1.dst - c1.low) ==> r1 >= 0 && r2 >= 0
  {
    hide Acceptable, Expand, Parse, InHistory;
    AcceptableSame(c1, c2, |c1.dictionary| + c1.dst - c1.low);
    r1 := DecompressGeneric(mem1, c1);
    r2 := DecompressGeneric(mem2, c2);
  }

  lemma AcceptableSame(c1: Call, c2: Call, history: nat)
    requires c1.src == c2.src && c1.oend - c1.dst == c2.oend - c2.dst
    ensures Acceptable(c1, history) == Acceptable(c2, history)
  {
  }
}
