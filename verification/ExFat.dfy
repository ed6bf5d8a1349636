/** Growing a file on an exFAT volume (`create_chain` and the fragment writers of ff.c).
    Clusters are taken from the allocation bitmap; while a file is contiguous nothing is
    written to the FAT, and after that the first and the last fragment are written late. */
module ExFat {
  const END_OF_CHAIN := 0x7FFF_FFFF
  const DISK_ERROR := 0xFFFF_FFFF

  /** The free clusters: bit 0 is cluster 2. */
  ghost function FreeClusters(bitmap: seq<bool>): set<nat> {
    set c: nat | c < |bitmap| + 2 && IsFree(bitmap, c)
  }

  predicate IsFree(bitmap: seq<bool>, c: nat) {
    2 <= c < |bitmap| + 2 && !bitmap[c - 2]
  }

  lemma FreeBound(bitmap: seq<bool>)
    ensures |FreeClusters(bitmap)| <= |bitmap|
    ensures |FreeClusters(bitmap)| == 0 <==> false !in bitmap
  {
    if bitmap != [] {
      var last := |bitmap| - 1;
      FreeBound(bitmap[..last]);
      var before := FreeClusters(bitmap[..last]);
      assert bitmap == bitmap[..last] + [bitmap[last]];
      forall c: nat
        ensures c in FreeClusters(bitmap) <==> c in before || (c == last + 2 && !bitmap[last])
      {
        if 2 <= c < last + 2 { assert bitmap[c - 2] == bitmap[..last][c - 2]; }
      }
      assert FreeClusters(bitmap) == if bitmap[last] then before else before + {last + 2};
    }
  }

  lemma OneLessFree(bitmap: seq<bool>, c: nat)
    requires c in FreeClusters(bitmap)
    ensures |FreeClusters(bitmap[c - 2 := true])| == |FreeClusters(bitmap)| - 1
  {
    assert FreeClusters(bitmap[c - 2 := true]) == FreeClusters(bitmap) - {c};
  }

  /** `r` is the first free cluster from `c` on, going on with 2 after the last. */
  ghost predicate FirstFrom(bitmap: seq<bool>, c: nat, r: nat) {
    && IsFree(bitmap, r)
    && if c <= r then forall d :: c <= d < r ==> !IsFree(bitmap, d)
       else (forall d :: c <= d < |bitmap| + 2 ==> !IsFree(bitmap, d)) && forall d :: 2 <= d < r ==> !IsFree(bitmap, d)
  }

  /** The volume: allocation bitmap (bit 0 is cluster 2) and FAT entries as stored. */
  class Volume {
    const nFatent: nat
    const clusterBytes: nat
    var bitmap: seq<bool>
    var fat: seq<nat>
    var lastClst: nat
    var freeClst: nat

    ghost predicate Valid()
      reads this
    {
      && 3 <= nFatent <= END_OF_CHAIN && clusterBytes > 0
      && |bitmap| == nFatent - 2 && |fat| == nFatent
      && forall c :: 0 <= c < |fat| ==> fat[c] <= DISK_ERROR
    }

    constructor (nFatent: nat, clusterBytes: nat, bitmap: seq<bool>, fat: seq<nat>)
      requires 3 <= nFatent <= END_OF_CHAIN && clusterBytes > 0
      requires |bitmap| == nFatent - 2 && |fat| == nFatent
      requires forall c :: 0 <= c < |fat| ==> fat[c] <= DISK_ERROR
      ensures Valid() && this.nFatent == nFatent && this.clusterBytes == clusterBytes
      ensures this.bitmap == bitmap && this.fat == fat && FreeCountOk()
    {
      this.nFatent := nFatent;
      this.clusterBytes := clusterBytes;
      this.bitmap := bitmap;
      this.fat := fat;
      lastClst := DISK_ERROR;
      freeClst := DISK_ERROR;
    }

    ghost predicate InUse(c: nat)
      reads this
    {
      2 <= c < nFatent && c - 2 < |bitmap| && bitmap[c - 2]
    }

    ghost predicate Free(c: nat)
      reads this
    {
      2 <= c < nFatent && c - 2 < |bitmap| && !bitmap[c - 2]
    }

    /** A valid free count is the number of free clusters. */
    ghost predicate FreeCountOk()
      reads this
    {
      freeClst <= nFatent - 2 ==> freeClst == |FreeClusters(bitmap)|
    }

    /** `put_fat` on exFAT: all 32 bits are stored. */
    method PutFat(clst: nat, val: nat) returns (ok: bool)
      requires Valid() && val <= DISK_ERROR
      modifies this`fat
      ensures Valid()
      ensures ok <==> 2 <= clst < nFatent
      ensures fat == if ok then old(fat)[clst := val] else old(fat)
    {
      ok := 2 <= clst < nFatent;
      if ok { fat := fat[clst := val]; }
    }

    /** `change_bitmap` for a single cluster being taken; it must have been free. */
    method TakeCluster(clst: nat) returns (ok: bool)
      requires Valid() && 2 <= clst < nFatent
      modifies this`bitmap
      ensures Valid() && ok == old(Free(clst))
      ensures bitmap == if ok then old(bitmap)[clst - 2 := true] else old(bitmap)
    {
      ok := !bitmap[clst - 2];
      if ok { bitmap := bitmap[clst - 2 := true]; }
    }

    /** `find_bitmap` for a single cluster: the first free one from `clst` on, wrapping round;
        0 if there is none. */
    method FindBitmap(clst: nat) returns (r: nat)
      requires Valid()
      ensures r == 0 <==> false !in bitmap
      ensures r != 0 ==> Free(r)
      ensures r != 0 ==> FirstFrom(bitmap, if 2 <= clst < nFatent then clst else 2, r)
    {
      var start := if 2 <= clst < nFatent then clst - 2 else 0;
      var scl, val := start, start;
      var wrapped := false;
      while true
        invariant 0 <= val < nFatent - 2 && scl == val
        invariant if wrapped then val <= start else start <= val
        invariant wrapped ==> forall i :: start <= i < |bitmap| ==> bitmap[i]
        invariant wrapped ==> forall i :: 0 <= i < val ==> bitmap[i]
        invariant !wrapped ==> forall i :: start <= i < val ==> bitmap[i]
        invariant wrapped ==> val < start
        decreases !wrapped, nFatent - val
      {
        var bv := bitmap[val];
        val := val + 1;
        if val >= nFatent - 2 { val, wrapped := 0, true; }
        if !bv {
          assert !bitmap[scl];
          return scl + 2;
        }
        scl := val;
        if val == start {
          assert forall i :: 0 <= i < |bitmap| ==> bitmap[i];
          return 0;
        }
      }
    }
  }

  // ---------------------------------------------------------------- chains

  /** The entry as readers see it. */
  function Masked(entry: nat): nat {
    entry % 0x8000_0000
  }

  ghost predicate Distinct(ch: seq<nat>) {
    forall i, k :: 0 <= i < k < |ch| ==> ch[i] != ch[k]
  }

  /** Clusters `ch[i]` up to `ch[k]` follow each other on the volume. */
  ghost predicate Consecutive(ch: seq<nat>, i: int, k: int) {
    0 <= i && k < |ch| && forall l :: i <= l <= k ==> ch[l] == ch[i] + l - i
  }

  /** The FAT links `ch[i]` to its successor, for i in [from, to). */
  ghost predicate Linked(fat: seq<nat>, ch: seq<nat>, from: int, to: int) {
    0 <= from && to < |ch|
    && (forall i :: from <= i < to ==> ch[i] < |fat|)
    && forall i :: from <= i < to ==> Masked(fat[ch[i]]) == ch[i + 1]
  }

  /** From cluster `from` on the links of the chain are on the FAT, except that the last `nFrag`
      clusters are consecutive and not linked yet; with none of those the end is marked. */
  ghost predicate Waiting(fat: seq<nat>, ch: seq<nat>, from: nat, nFrag: nat) {
    if nFrag == 0 then
      ch != [] && Linked(fat, ch, from, |ch| - 1) && ch[|ch| - 1] < |fat| && Masked(fat[ch[|ch| - 1]]) == END_OF_CHAIN
    else
      from + nFrag <= |ch| && Linked(fat, ch, from, |ch| - nFrag) && Consecutive(ch, |ch| - nFrag, |ch| - 1)
  }

  /** The FAT holds exactly the chain `ch`, with its end marked. */
  ghost predicate IsFatChain(fat: seq<nat>, ch: seq<nat>) {
    Waiting(fat, ch, 0, 0)
  }

  /** How a chain `ch` is recorded: status 2 is contiguous and needs no FAT; status 3 was
      fragmented in this session, its first `nCont + 1` clusters are contiguous and not linked
      yet; status 0 is on the FAT. In the last two cases the last `nFrag` clusters may be waiting
      to be linked. */
  ghost predicate Recorded(fat: seq<nat>, ch: seq<nat>, stat: nat, nCont: nat, nFrag: nat) {
    && ch != []
    && match stat
       case 2 => nFrag == 0 && Consecutive(ch, 0, |ch| - 1)
       case 3 =>
         && nCont + 1 + (if nFrag == 0 then 1 else nFrag) <= |ch|
         && Consecutive(ch, 0, nCont) && Waiting(fat, ch, nCont, nFrag)
       case 0 => Waiting(fat, ch, 0, nFrag)
       case _ => false
  }

  // ---------------------------------------------------------------- what the writers achieve

  /** `fat'` is `fat` with the `n` clusters from `start` linked to their neighbours. */
  ghost predicate Filled(fat: seq<nat>, fat': seq<nat>, start: nat, n: nat) {
    |fat'| == |fat| && start + n <= |fat|
    && forall c :: 0 <= c < |fat| ==> fat'[c] == if start <= c < start + n then c + 1 else fat[c]
  }

  /** A consecutive stretch is where its clusters are. */
  lemma InStretch(ch: seq<nat>, a: nat, b: nat, i: nat)
    requires Distinct(ch) && a <= b && Consecutive(ch, a, b) && i < |ch|
    ensures a <= i <= b <==> ch[a] <= ch[i] <= ch[a] + b - a
  {
    if ch[a] <= ch[i] <= ch[a] + b - a {
      var l: nat := a + (ch[i] - ch[a]);
      assert ch[l] == ch[a] + l - a;
    }
  }

  /** Filling a stretch links it and keeps the links outside it. */
  lemma FilledLinks(fat: seq<nat>, fat': seq<nat>, ch: seq<nat>, a: nat, b: nat, from: nat, to: nat)
    requires Distinct(ch) && a <= b && Consecutive(ch, a, b) && Filled(fat, fat', ch[a], b - a)
    requires |fat| <= END_OF_CHAIN && (forall i :: 0 <= i < |ch| ==> ch[i] < |fat|)
    ensures Linked(fat', ch, a, b)
    ensures Linked(fat, ch, from, to) && (to <= a || b <= from) ==> Linked(fat', ch, from, to)
  {
    forall i | 0 <= i < |ch|
      ensures ch[a] <= ch[i] < ch[a] + b - a <==> a <= i < b
    {
      InStretch(ch, a, b, i);
    }
    forall i | a <= i < b
      ensures Masked(fat'[ch[i]]) == ch[i + 1]
    {
      assert ch[i + 1] == ch[a] + (i + 1) - a;
    }
  }

  lemma LinkedInParts(fat: seq<nat>, ch: seq<nat>, a: nat, b: nat, c: nat)
    requires Linked(fat, ch, a, b) && Linked(fat, ch, b, c)
    ensures Linked(fat, ch, a, c)
  {
  }

  /** After `fill_first_frag` the first fragment is on the FAT. */
  lemma FirstFragmentFilled(fat: seq<nat>, fat': seq<nat>, ch: seq<nat>, nCont: nat, nFrag: nat)
    requires Recorded(fat, ch, 3, nCont, nFrag) && Distinct(ch) && Filled(fat, fat', ch[0], nCont)
    requires |fat| <= END_OF_CHAIN && (forall i :: 0 <= i < |ch| ==> ch[i] < |fat|)
    ensures Recorded(fat', ch, 0, nCont, nFrag)
  {
    var end := if nFrag == 0 then |ch| - 1 else |ch| - nFrag;
    FilledLinks(fat, fat', ch, 0, nCont, nCont, end);
    LinkedInParts(fat', ch, 0, nCont, end);
    InStretch(ch, 0, nCont, |ch| - 1);
  }

  /** `fat'` is `fat` with the last fragment linked and `term` stored for its last cluster. */
  ghost predicate Ended(fat: seq<nat>, fat': seq<nat>, lcl: nat, nFrag: nat, term: nat) {
    |fat'| == |fat| && (nFrag > 0 ==> nFrag <= lcl + 1 && lcl < |fat|)
    && forall c :: 0 <= c < |fat| ==>
         fat'[c] == if lcl + 1 - nFrag <= c < lcl then c + 1 else if c == lcl && nFrag > 0 then term else fat[c]
  }

  /** After `fill_last_frag` from the last cluster all links are on the FAT and `term` ends it. */
  lemma LastFragmentFilled(fat: seq<nat>, fat': seq<nat>, ch: seq<nat>, from: nat, nFrag: nat, term: nat)
    requires Distinct(ch) && 1 <= nFrag <= |ch| && from <= |ch| - nFrag && Linked(fat, ch, from, |ch| - nFrag)
    requires Consecutive(ch, |ch| - nFrag, |ch| - 1)
    requires Ended(fat, fat', ch[|ch| - 1], nFrag, term)
    requires |fat| <= END_OF_CHAIN && (forall i :: 0 <= i < |ch| ==> ch[i] < |fat|)
    ensures Linked(fat', ch, from, |ch| - 1) && fat'[ch[|ch| - 1]] == term
  {
    var a, b := |ch| - nFrag, |ch| - 1;
    assert ch[b] == ch[a] + b - a;
    forall i | 0 <= i < |ch|
      ensures ch[a] <= ch[i] <= ch[b] <==> a <= i <= b
    {
      InStretch(ch, a, b, i);
    }
    forall i | from <= i < b
      ensures Masked(fat'[ch[i]]) == ch[i + 1]
    {
      if a <= i { assert ch[i + 1] == ch[a] + (i + 1) - a; }
      assert ch[i] != ch[b];
    }
  }

  // ---------------------------------------------------------------- appending a cluster

  lemma AppendDistinct(ch: seq<nat>, c: nat)
    requires Distinct(ch) && c !in ch
    ensures Distinct(ch + [c])
  {
  }

  lemma AppendKeepsLinks(fat: seq<nat>, ch: seq<nat>, c: nat, from: int, to: int)
    requires Linked(fat, ch, from, to)
    ensures Linked(fat, ch + [c], from, to)
  {
  }

  lemma AppendConsecutive(ch: seq<nat>, c: nat, i: nat)
    requires i < |ch| && Consecutive(ch, i, |ch| - 1) && c == ch[|ch| - 1] + 1
    ensures Consecutive(ch + [c], i, |ch|)
  {
    var ch' := ch + [c];
    assert forall l :: i <= l < |ch| ==> ch'[l] == ch[l] == ch[i] + l - i;
  }

  lemma WaitingNext(fat: seq<nat>, ch: seq<nat>, from: nat, nFrag: nat, c: nat)
    requires Waiting(fat, ch, from, nFrag) && from + (if nFrag == 0 then 1 else nFrag) <= |ch| && c == ch[|ch| - 1] + 1
    ensures Waiting(fat, ch + [c], from, if nFrag == 0 then 2 else nFrag + 1)
  {
    if nFrag == 0 {
      AppendKeepsLinks(fat, ch, c, from, |ch| - 1);
    } else {
      AppendConsecutive(ch, c, |ch| - nFrag);
      AppendKeepsLinks(fat, ch, c, from, |ch| - nFrag);
    }
  }

  /** A cluster next to the last one only lengthens the last fragment. */
  lemma AppendedNext(fat: seq<nat>, ch: seq<nat>, stat: nat, nCont: nat, nFrag: nat, c: nat)
    requires Recorded(fat, ch, stat, nCont, nFrag) && c == ch[|ch| - 1] + 1
    ensures Recorded(fat, ch + [c], stat, nCont,
                     if stat == 2 then 0 else if nFrag == 0 then 2 else nFrag + 1)
  {
    if stat == 2 {
      AppendConsecutive(ch, c, 0);
    } else {
      WaitingNext(fat, ch, if stat == 3 then nCont else 0, nFrag, c);
      assert stat == 3 ==> forall l :: 0 <= l <= nCont ==> (ch + [c])[l] == ch[l];
    }
  }

  /** The last fragment has been written with a link to the new cluster. */
  lemma LinkedToNew(fat: seq<nat>, fat': seq<nat>, ch: seq<nat>, from: nat, nFrag: nat, c: nat)
    requires Distinct(ch) && 1 <= nFrag <= |ch| && from <= |ch| - nFrag && Linked(fat, ch, from, |ch| - nFrag)
    requires Consecutive(ch, |ch| - nFrag, |ch| - 1)
    requires Ended(fat, fat', ch[|ch| - 1], nFrag, c)
    requires c < |fat| <= END_OF_CHAIN && (forall i :: 0 <= i < |ch| ==> ch[i] < |fat|)
    ensures Linked(fat', ch + [c], from, |ch|) && Consecutive(ch + [c], |ch|, |ch|)
  {
    LastFragmentFilled(fat, fat', ch, from, nFrag, c);
    AppendKeepsLinks(fat', ch, c, from, |ch| - 1);
    assert Linked(fat', ch + [c], |ch| - 1, |ch|);
    LinkedInParts(fat', ch + [c], from, |ch| - 1, |ch|);
  }

  lemma WaitingElsewhere(fat: seq<nat>, fat': seq<nat>, ch: seq<nat>, from: nat, nFrag: nat, c: nat)
    requires Waiting(fat, ch, from, nFrag) && from + (if nFrag == 0 then 1 else nFrag) <= |ch| && Distinct(ch)
    requires Ended(fat, fat', ch[|ch| - 1], if nFrag == 0 then 1 else nFrag, c)
    requires c < |fat| <= END_OF_CHAIN && (forall i :: 0 <= i < |ch| ==> ch[i] < |fat|)
    ensures Waiting(fat', ch + [c], from, 1)
  {
    LinkedToNew(fat, fat', ch, from, if nFrag == 0 then 1 else nFrag, c);
  }

  /** A cluster elsewhere starts a new fragment, once the last fragment has been written with
      a link to it. A contiguous chain becomes "just fragmented". */
  lemma AppendedElsewhere(fat: seq<nat>, fat': seq<nat>, ch: seq<nat>, stat: nat, nCont: nat, nFrag: nat, c: nat)
    requires Recorded(fat, ch, stat, nCont, nFrag) && Distinct(ch)
    requires Ended(fat, fat', ch[|ch| - 1], if nFrag == 0 then 1 else nFrag, c)
    requires c < |fat| <= END_OF_CHAIN && (forall i :: 0 <= i < |ch| ==> ch[i] < |fat|)
    ensures Recorded(fat', ch + [c], if stat == 2 then 3 else stat, if stat == 2 then |ch| - 1 else nCont, 1)
  {
    hide Ended;
    if stat == 2 {
      LinkedToNew(fat, fat', ch, |ch| - 1, 1, c);
      assert forall l :: 0 <= l < |ch| ==> (ch + [c])[l] == ch[l];
    } else {
      WaitingElsewhere(fat, fat', ch, if stat == 3 then nCont else 0, nFrag, c);
      assert stat == 3 ==> forall l :: 0 <= l <= nCont ==> (ch + [c])[l] == ch[l];
    }
  }

  /** Ending the last fragment puts its links on the FAT, whatever the status is. */
  lemma AllWritten(fat: seq<nat>, fat': seq<nat>, ch: seq<nat>, stat: nat, nCont: nat, nFrag: nat)
    requires Recorded(fat, ch, stat, nCont, nFrag) && Distinct(ch)
    requires Ended(fat, fat', ch[|ch| - 1], nFrag, DISK_ERROR)
    requires |fat| <= END_OF_CHAIN && (forall i :: 0 <= i < |ch| ==> ch[i] < |fat|)
    ensures Recorded(fat', ch, stat, nCont, 0) && (nFrag == 0 ==> fat' == fat)
    ensures nFrag > 0 ==> ch[|ch| - 1] < |fat'| && fat'[ch[|ch| - 1]] == 0xFFFF_FFFF
    ensures forall c :: 0 <= c < |fat| && c !in ch ==> fat'[c] == fat[c]
  {
    if nFrag == 0 {
      assert fat' == fat;
    } else {
      LastFragmentFilled(fat, fat', ch, if stat == 3 then nCont else 0, nFrag, DISK_ERROR);
      EndedOutside(fat, fat', ch, nFrag, DISK_ERROR);
    }
  }

  // ---------------------------------------------------------------- file objects

  /** The allocation state of a file object. */
  class FileObject {
    const fs: Volume
    var sclust: nat
    var stat: nat
    var nCont: nat
    var nFrag: nat
    var objsize: nat

    constructor (fs: Volume)
      ensures this.fs == fs && sclust == 0 && stat == 0 && nCont == 0 && nFrag == 0 && objsize == 0
    {
      this.fs := fs;
      sclust, stat, nCont, nFrag, objsize := 0, 0, 0, 0, 0;
    }

    /** The object stands for the chain `ch`, parts of which may not be on the FAT yet. */
    ghost predicate Describes(ch: seq<nat>)
      reads this, fs
    {
      && fs.Valid() && Recorded(fs.fat, ch, stat, nCont, nFrag) && sclust == ch[0] && Distinct(ch)
      && forall i :: 0 <= i < |ch| ==> fs.InUse(ch[i])
    }

    /** The size is that of a file whose last cluster is the last of `ch`; only then can the
        end of a contiguous chain be told. */
    ghost predicate SizeFits(ch: seq<nat>)
      reads this, fs
    {
      fs.clusterBytes > 0 && objsize > 0 && (objsize - 1) / fs.clusterBytes == |ch| - 1
    }

    /** The size allows `get_fat` to follow the chain. */
    ghost predicate SizeOk(ch: seq<nat>)
      reads this, fs
    {
      (stat != 0 ==> objsize > 0) && (stat == 2 ==> SizeFits(ch))
    }

    /** `get_fat`: the successor of `clst`, END_OF_CHAIN, or 1 for an error. Differences are
        taken modulo 2^32 as in the source. */
    function GetFat(clst: nat): (val: nat)
      requires fs.Valid()
      reads this, fs
    {
      if clst < 2 || clst >= fs.nFatent then 1
      else if (objsize != 0 && sclust != 0) || stat == 0 then
        var cofs := (clst - sclust) % 0x1_0000_0000;
        var clen := (objsize - 1) / fs.clusterBytes % 0x1_0000_0000;
        if stat == 2 && cofs <= clen then (if cofs == clen then END_OF_CHAIN else clst + 1)
        else if stat == 3 && cofs < nCont then clst + 1
        else if stat != 2 then (if nFrag != 0 then END_OF_CHAIN else Masked(fs.fat[clst]))
        else 1
      else 1
    }

    /** `get_fat` finds the successor of the cluster at `i` if and only if nothing is waiting to
        be written, or the cluster is the last one, or its link lies in the first fragment. */
    lemma GetFatFollows(ch: seq<nat>, i: nat)
      requires Describes(ch) && i < |ch| && SizeOk(ch)
      ensures GetFat(ch[i]) == (if i + 1 < |ch| then ch[i + 1] else END_OF_CHAIN)
              <==> nFrag == 0 || i + 1 == |ch| || (stat == 3 && i < nCont)
    {
      if stat == 2 {
        FollowsContiguous(ch, i);
      } else if stat == 3 {
        FollowsFragmented(ch, i);
      } else {
        FollowsRecorded(ch, i);
      }
    }

    lemma FollowsContiguous(ch: seq<nat>, i: nat)
      requires Describes(ch) && i < |ch| && stat == 2 && SizeFits(ch)
      ensures nFrag == 0 && GetFat(ch[i]) == (if i + 1 < |ch| then ch[i + 1] else END_OF_CHAIN)
    {
      hide Distinct, Linked, Masked;
      assert fs.InUse(ch[i]) && fs.InUse(ch[|ch| - 1]);
      assert ch[i] == ch[0] + i && ch[|ch| - 1] == ch[0] + |ch| - 1;
    }

    /** `get_fat` in a just fragmented file. */
    lemma GetFatFragmented(clst: nat)
      requires fs.Valid() && 2 <= clst < fs.nFatent && 0 < sclust < fs.nFatent && nCont < fs.nFatent
      requires stat == 3 && objsize > 0
      ensures GetFat(clst) == if sclust <= clst < sclust + nCont then clst + 1
                              else if nFrag != 0 then END_OF_CHAIN else Masked(fs.fat[clst])
    {
      hide Masked;
    }

    lemma FollowsFragmented(ch: seq<nat>, i: nat)
      requires Describes(ch) && i < |ch| && stat == 3 && objsize > 0
      ensures GetFat(ch[i]) == if i < nCont || (nFrag == 0 && i + 1 < |ch|) then ch[i + 1] else END_OF_CHAIN
      ensures i + 1 < |ch| ==> ch[i + 1] != END_OF_CHAIN
    {
      hide GetFat, Masked;
      assert fs.InUse(ch[i]) && fs.InUse(ch[0]) && fs.InUse(ch[nCont]);
      assert ch[nCont] == ch[0] + nCont;
      InStretch(ch, 0, nCont, i);
      if i + 1 < |ch| { assert fs.InUse(ch[i + 1]); }
      if i <= nCont { assert ch[i] == ch[0] + i; }
      if i < nCont { assert ch[i + 1] == ch[0] + i + 1; }
      GetFatFragmented(ch[i]);
    }

    lemma FollowsRecorded(ch: seq<nat>, i: nat)
      requires Describes(ch) && i < |ch| && stat == 0
      ensures GetFat(ch[i]) == if nFrag != 0 || i + 1 == |ch| then END_OF_CHAIN else ch[i + 1]
      ensures i + 1 < |ch| ==> ch[i + 1] != END_OF_CHAIN
    {
      assert fs.InUse(ch[i]);
      if i + 1 < |ch| { assert fs.InUse(ch[i + 1]); }
    }

    /** `fill_first_frag`: writes the links inside the first fragment. */
    method FillFirstFrag(ghost ch: seq<nat>)
      requires DescribesAny(ch)
      modifies this`stat, fs`fat
      ensures DescribesAny(ch) && stat == (if old(stat) == 3 then 0 else old(stat))
      ensures old(stat) != 3 ==> fs.fat == old(fs.fat)
      ensures forall c :: 0 <= c < fs.nFatent && c !in ch ==> fs.fat[c] == old(fs.fat[c])
    {
      if stat == 3 {
        assert fs.InUse(ch[nCont]) && ch[nCont] == ch[0] + nCont;
        var cl, n := sclust, nCont;
        while n > 0
          invariant 0 <= n <= nCont && cl == sclust + nCont - n
          invariant fs.Valid() && Filled(old(fs.fat), fs.fat, sclust, nCont - n)
        {
          var ok := fs.PutFat(cl, cl + 1);
          cl, n := cl + 1, n - 1;
        }
        FirstFragmentFilled(old(fs.fat), fs.fat, ch, nCont, nFrag);
        stat := 0;
        forall c | sclust <= c < sclust + nCont
          ensures c in ch
        {
          assert ch[c - sclust] == c;
        }
      }
    }

    /** `fill_last_frag`: links the last fragment, which ends at `lcl`, and stores `term` there. */
    method FillLastFrag(lcl: nat, term: nat)
      requires fs.Valid() && (nFrag > 0 ==> lcl < fs.nFatent && nFrag + 1 <= lcl) && term <= DISK_ERROR
      modifies this`nFrag, fs`fat
      ensures fs.Valid() && nFrag == 0
      ensures Ended(old(fs.fat), fs.fat, lcl, old(nFrag), term)
    {
      while nFrag > 0
        invariant fs.Valid() && 0 <= nFrag <= old(nFrag)
        invariant forall c :: 0 <= c < fs.nFatent ==>
                    fs.fat[c] == if lcl + 1 - old(nFrag) <= c < lcl + 1 - nFrag
                                 then (if c == lcl then term else c + 1) else old(fs.fat[c])
      {
        var ok := fs.PutFat(lcl - nFrag + 1, if nFrag > 1 then lcl - nFrag + 2 else term);
        nFrag := nFrag - 1;
      }
    }

    /** The branches of `create_chain` after a free cluster `ncl` was found for the last
        cluster `clst` of the chain: what is recorded about the chain grown by `ncl`. */
    method Attach(clst: nat, ncl: nat, ghost ch: seq<nat>)
      requires Describes(ch) && clst == ch[|ch| - 1] && fs.InUse(ncl) && ncl !in ch
      modifies this`stat, this`nCont, this`nFrag, fs`fat
      ensures Describes(ch + [ncl])
      ensures stat == (if old(stat) == 2 && ncl != clst + 1 then 3 else old(stat))
      ensures ncl == clst + 1 ==> fs.fat == old(fs.fat)
      ensures forall c :: 0 <= c < fs.nFatent && c !in ch ==> fs.fat[c] == old(fs.fat[c])
    {
      hide Recorded, Ended, Distinct;
      AppendDistinct(ch, ncl);
      LastFragmentFits(ch);
      assert fs.InUse(ch[0]) && fs.InUse(ch[|ch| - 1]);
      if stat == 2 && ncl != clst + 1 {
        nCont := clst - sclust;
        stat := 3;
      }
      if stat != 2 {
        if ncl == clst + 1 {
          nFrag := if nFrag > 0 then nFrag + 1 else 2;
        } else {
          if nFrag == 0 { nFrag := 1; }
          FillLastFrag(clst, ncl);
          nFrag := 1;
        }
      }
      if ncl == clst + 1 {
        AppendedNext(fs.fat, ch, old(stat), old(nCont), old(nFrag), ncl);
      } else {
        AppendedElsewhere(old(fs.fat), fs.fat, ch, old(stat), old(nCont), old(nFrag), ncl);
        EndedOutside(old(fs.fat), fs.fat, ch, if old(nFrag) == 0 then 1 else old(nFrag), ncl);
      }
    }

    /** `create_chain` on an exFAT volume. `clst` is 0 for a new chain or the cluster at `i` of
        the chain. Following an existing link changes nothing; otherwise a free cluster is
        taken and attached. 0 means that no cluster is free. */
    method CreateChain(clst: nat, ghost ch: seq<nat>, ghost i: nat) returns (r: nat)
      requires fs.Valid() && fs.FreeCountOk()
      requires clst == 0 ==> nFrag == 0
      requires clst != 0 ==> Describes(ch) && i < |ch| && clst == ch[i] && SizeOk(ch)
      requires clst != 0 ==> nFrag == 0 || i + 1 == |ch| || (stat == 3 && i < nCont)
      modifies this`stat, this`nCont, this`nFrag, fs`fat, fs`bitmap, fs`lastClst, fs`freeClst
      ensures fs.Valid() && fs.FreeCountOk()
      ensures clst != 0 && i + 1 < |ch| ==>
                r == ch[i + 1] && Describes(ch) && stat == old(stat) && nFrag == old(nFrag)
                && fs.fat == old(fs.fat) && fs.bitmap == old(fs.bitmap)
      ensures clst == 0 || i + 1 == |ch| ==>
                if r == 0 then
                  && fs.fat == old(fs.fat) && fs.bitmap == old(fs.bitmap) && fs.freeClst == old(fs.freeClst)
                  && stat == old(stat) && nFrag == old(nFrag) && (clst != 0 ==> Describes(ch))
                  && false !in fs.bitmap
                else
                  && old(fs.Free(r)) && fs.lastClst == r
                  && FirstFrom(old(fs.bitmap),
                               if clst != 0 then clst
                               else if 2 <= old(fs.lastClst) < fs.nFatent then old(fs.lastClst) else 2, r)
                  && fs.bitmap == old(fs.bitmap)[r - 2 := true]
                  && (clst == 0 ==> stat == 2 && nFrag == 0 && fs.fat == old(fs.fat))
                  && (clst != 0 ==>
                        && Describes(ch + [r])
                        && stat == (if old(stat) == 2 && r != clst + 1 then 3 else old(stat))
                        && (r == clst + 1 ==> fs.fat == old(fs.fat))
                        && forall c :: 0 <= c < fs.nFatent && c !in ch ==> fs.fat[c] == old(fs.fat[c]))
    {
      hide Recorded, Distinct, SizeFits, FirstFrom;
      FreeBound(fs.bitmap);
      var scl;
      if clst == 0 {
        scl := fs.lastClst;
        if scl == 0 || scl >= fs.nFatent { scl := 1; }
      } else {
        GetFatFollows(ch, i);
        LinkInRange(ch, i);
        var cs := GetFat(clst);
        if cs < 2 { assert false; }
        if cs < fs.nFatent { return cs; }
        scl := clst;
      }
      if fs.freeClst == 0 { return 0; }
      var ncl := fs.FindBitmap(scl);
      if ncl == 0 { return 0; }
      OneLessFree(fs.bitmap, ncl);
      var ok := fs.TakeCluster(ncl);
      if clst == 0 {
        stat := 2;
      } else {
        StillDescribes(old(fs.bitmap), ch, ncl);
        Attach(clst, ncl, ch);
      }
      fs.lastClst := ncl;
      if fs.freeClst <= fs.nFatent - 2 { fs.freeClst := fs.freeClst - 1; }
      return ncl;
    }

    /** A file may have no cluster yet. */
    ghost predicate DescribesAny(ch: seq<nat>)
      reads this, fs
    {
      if ch == [] then fs.Valid() && sclust == 0 && nFrag == 0 && stat != 3 else Describes(ch)
    }

    /** `fill_last_frag` as `f_lseek` and `f_sync` call it, with the current cluster: it must be
        the last one if anything is waiting. */
    method EndLastFrag(ghost ch: seq<nat>, lcl: nat)
      requires DescribesAny(ch) && (nFrag > 0 ==> lcl == ch[|ch| - 1])
      modifies this`nFrag, fs`fat
      ensures DescribesAny(ch) && nFrag == 0
      ensures old(nFrag) == 0 ==> fs.fat == old(fs.fat)
      ensures old(nFrag) > 0 ==> ch[|ch| - 1] < |fs.fat| && fs.fat[ch[|ch| - 1]] == 0xFFFF_FFFF
      ensures forall c :: 0 <= c < fs.nFatent && c !in ch ==> fs.fat[c] == old(fs.fat[c])
    {
      hide Recorded, Distinct, Ended;
      if ch != [] { LastFragmentFits(ch); }
      ghost var before, n := fs.fat, nFrag;
      FillLastFrag(lcl, DISK_ERROR);
      if ch == [] {
        NothingEnded(before, fs.fat, lcl, DISK_ERROR);
      } else {
        EndedWhere(before, fs.fat, lcl, ch[|ch| - 1], n);
        AllWritten(before, fs.fat, ch, stat, nCont, n);
      }
    }

    /** The two fragment writers, as `f_sync` calls them: afterwards the chain is on the FAT, or
        contiguous with the FAT as it was. */
    method WriteFragments(ghost ch: seq<nat>, lcl: nat)
      requires DescribesAny(ch) && (nFrag > 0 ==> lcl == ch[|ch| - 1])
      modifies this`stat, this`nFrag, fs`fat
      ensures DescribesAny(ch) && nFrag == 0 && (stat == 2 <==> old(stat) == 2)
      ensures old(stat) == 2 ==> fs.fat == old(fs.fat)
      ensures ch != [] ==> if stat == 2 then Consecutive(ch, 0, |ch| - 1) else stat == 0 && IsFatChain(fs.fat, ch)
      ensures old(nFrag) > 0 ==> ch[|ch| - 1] < |fs.fat| && fs.fat[ch[|ch| - 1]] == 0xFFFF_FFFF
      ensures forall c :: 0 <= c < fs.nFatent && c !in ch ==> fs.fat[c] == old(fs.fat[c])
    {
      FillFirstFrag(ch);
      EndLastFrag(ch, lcl);
    }

    lemma LinkInRange(ch: seq<nat>, i: nat)
      requires Describes(ch) && i < |ch|
      ensures 2 <= ch[i] < fs.nFatent
      ensures i + 1 < |ch| ==> 2 <= ch[i + 1] < fs.nFatent
    {
      assert fs.InUse(ch[i]);
      if i + 1 < |ch| { assert fs.InUse(ch[i + 1]); }
    }

    /** Taking a free cluster does not disturb the chain, and the cluster is not part of it. */
    lemma StillDescribes(before: seq<bool>, ch: seq<nat>, c: nat)
      requires fs.Valid() && 2 <= c < fs.nFatent && |before| == |fs.bitmap| && !before[c - 2]
      requires fs.bitmap == before[c - 2 := true]
      requires Recorded(fs.fat, ch, stat, nCont, nFrag) && sclust == ch[0] && Distinct(ch)
      requires forall k :: 0 <= k < |ch| ==> 2 <= ch[k] < fs.nFatent && before[ch[k] - 2]
      ensures Describes(ch) && c !in ch && fs.InUse(c)
    {
    }

    /** The last fragment ends at the last cluster, so it lies on the volume. */
    lemma LastFragmentFits(ch: seq<nat>)
      requires Describes(ch)
      ensures var last := ch[|ch| - 1];
              && fs.InUse(last) && last < fs.nFatent && nFrag + 1 <= last && 1 + 1 <= last
              && (stat == 2 ==> nFrag == 0 && last == sclust + |ch| - 1)
              && Consecutive(ch, |ch| - (if nFrag == 0 then 1 else nFrag), |ch| - 1)
    {
      assert fs.InUse(ch[|ch| - 1]);
      if nFrag > 0 { assert fs.InUse(ch[|ch| - nFrag]); }
    }
  }

  lemma EndedOutside(fat: seq<nat>, fat': seq<nat>, ch: seq<nat>, nFrag: nat, term: nat)
    requires 1 <= nFrag <= |ch| && Consecutive(ch, |ch| - nFrag, |ch| - 1)
    requires Ended(fat, fat', ch[|ch| - 1], nFrag, term)
    ensures forall c :: 0 <= c < |fat| && c !in ch ==> fat'[c] == fat[c]
  {
    var a, b := |ch| - nFrag, |ch| - 1;
    forall c | ch[a] <= c <= ch[b]
      ensures c in ch
    {
      assert ch[a + (c - ch[a])] == c;
    }
  }

  lemma NothingEnded(fat: seq<nat>, fat': seq<nat>, lcl: nat, term: nat)
    requires Ended(fat, fat', lcl, 0, term)
    ensures fat' == fat
  {
  }

  lemma EndedWhere(fat: seq<nat>, fat': seq<nat>, lcl: nat, last: nat, nFrag: nat)
    requires Ended(fat, fat', lcl, nFrag, DISK_ERROR) && (nFrag > 0 ==> lcl == last)
    ensures Ended(fat, fat', last, nFrag, DISK_ERROR)
  {
  }
}
