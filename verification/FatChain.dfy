/** Allocating and freeing clusters on a FAT12, FAT16 or FAT32 volume (`create_chain` and
    `remove_chain` of ff.c), through the window of FatWindow. */
module FatChain {
  import opened FatWindow

  const ALL_ONES := 0xFFFF_FFFF

  /** The entry of the last cluster of a chain. */
  function EndValue(t: FatType): nat {
    match t
    case Fat12 => 0xFFF
    case Fat16 => 0xFFFF
    case Fat32 => 0x0FFF_FFFF
  }

  /** It is what an entry keeps of 32 ones. */
  lemma AllOnesFit(t: FatType)
    ensures Fit(t, ALL_ONES) == EndValue(t)
  {
  }

  // ---------------------------------------------------------------- chains in a table of entries

  /** Clusters are the numbers from 2 up to the size of the table. */
  predicate IsCluster(e: seq<nat>, c: int) {
    2 <= c < |e|
  }

  ghost predicate Distinct(ch: seq<nat>) {
    forall i, k :: 0 <= i < k < |ch| ==> ch[i] != ch[k]
  }

  /** `ch` is a terminated chain: its clusters differ, each entry names the next cluster, and
      the last entry is an end mark. */
  ghost predicate IsChain(e: seq<nat>, ch: seq<nat>) {
    && ch != [] && Distinct(ch)
    && (forall i :: 0 <= i < |ch| ==> IsCluster(e, ch[i]))
    && (forall i :: 0 <= i < |ch| - 1 ==> e[ch[i]] == ch[i + 1])
    && e[ch[|ch| - 1]] >= |e|
  }

  /** All files of a volume: their chains are terminated and share no cluster. */
  ghost predicate AllChains(e: seq<nat>, chains: set<seq<nat>>) {
    && (forall ch :: ch in chains ==> IsChain(e, ch))
    && forall ch, ch' :: ch in chains && ch' in chains && ch != ch' ==> Disjoint(ch, ch')
  }

  ghost predicate Disjoint(ch: seq<nat>, ch': seq<nat>) {
    forall i, k :: 0 <= i < |ch| && 0 <= k < |ch'| ==> ch[i] != ch'[k]
  }

  ghost function Members(s: seq<nat>): set<nat> {
    set c | c in s
  }

  /** The free clusters. */
  ghost function Zeros(e: seq<nat>): set<nat> {
    set c: nat | c < |e| && c >= 2 && e[c] == 0
  }

  /** Some entry of the table is 1, a value that no cluster in use and no free cluster has. */
  ghost predicate HasBadEntry(e: seq<nat>) {
    exists c :: 2 <= c < |e| && e[c] == 1
  }

  // ---------------------------------------------------------------- what the operations do to a table

  /** Entries outside a chain do not matter to it. */
  lemma ChainKept(e: seq<nat>, e': seq<nat>, ch: seq<nat>)
    requires IsChain(e, ch) && |e'| == |e| && forall i :: 0 <= i < |ch| ==> e'[ch[i]] == e[ch[i]]
    ensures IsChain(e', ch)
  {
  }

  /** A free cluster is in no chain. */
  lemma FreeIsOutside(e: seq<nat>, ch: seq<nat>, c: nat)
    requires IsChain(e, ch) && c < |e| && e[c] == 0
    ensures forall i :: 0 <= i < |ch| ==> ch[i] != c
  {
    forall i | 0 <= i < |ch|
      ensures ch[i] != c
    {
      if i < |ch| - 1 { assert IsCluster(e, ch[i + 1]); }
    }
  }

  /** A new chain of one free cluster joins the others. */
  lemma NewChain(e: seq<nat>, chains: set<seq<nat>>, c: nat, end: nat)
    requires AllChains(e, chains) && IsCluster(e, c) && e[c] == 0 && end >= |e|
    ensures AllChains(e[c := end], chains + {[c]})
  {
    var e' := e[c := end];
    forall ch | ch in chains
      ensures IsChain(e', ch) && Disjoint(ch, [c]) && Disjoint([c], ch)
    {
      FreeIsOutside(e, ch, c);
      ChainKept(e, e', ch);
    }
    assert IsChain(e', [c]);
  }

  /** The chain grown by a free cluster. */
  lemma LongerChain(e: seq<nat>, ch: seq<nat>, c: nat, end: nat)
    requires IsChain(e, ch) && IsCluster(e, c) && e[c] == 0 && end >= |e|
    ensures IsChain(e[c := end][ch[|ch| - 1] := c], ch + [c])
  {
    FreeIsOutside(e, ch, c);
    var e', ch' := e[c := end][ch[|ch| - 1] := c], ch + [c];
    forall i | 0 <= i < |ch'| - 1
      ensures e'[ch'[i]] == ch'[i + 1]
    {
      if i < |ch| - 1 { assert ch[i] != ch[|ch| - 1]; }
    }
  }

  /** A longer chain takes the place of the shorter one among all chains. */
  lemma GrownChain(e: seq<nat>, chains: set<seq<nat>>, ch: seq<nat>, c: nat, end: nat)
    requires AllChains(e, chains) && ch in chains && IsCluster(e, c) && e[c] == 0 && end >= |e|
    ensures AllChains(e[c := end][ch[|ch| - 1] := c], chains - {ch} + {ch + [c]})
  {
    var e' := e[c := end][ch[|ch| - 1] := c];
    LongerChain(e, ch, c, end);
    forall other | other in chains && other != ch
      ensures IsChain(e', other) && Disjoint(other, ch + [c]) && Disjoint(ch + [c], other)
    {
      assert Disjoint(other, ch);
      FreeIsOutside(e, other, c);
      ChainKept(e, e', other);
    }
  }

  lemma InZeros(e: seq<nat>, c: nat)
    ensures c in Zeros(e) <==> IsCluster(e, c) && e[c] == 0
  {
  }

  lemma FreeCountDown(e: seq<nat>, c: nat, v: nat)
    requires c in Zeros(e) && v != 0
    ensures |Zeros(e[c := v])| == |Zeros(e)| - 1
  {
    assert Zeros(e[c := v]) == Zeros(e) - {c};
  }

  lemma FreeCountUp(e: seq<nat>, c: nat)
    requires IsCluster(e, c) && e[c] != 0
    ensures |Zeros(e[c := 0])| == |Zeros(e)| + 1
  {
    assert Zeros(e[c := 0]) == Zeros(e) + {c};
  }

  lemma FreeCountSame(e: seq<nat>, c: nat, v: nat)
    requires c < |e| && e[c] != 0 && v != 0
    ensures Zeros(e[c := v]) == Zeros(e)
  {
  }

  /** The numbers 2 to n - 1. */
  ghost function Clusters(n: nat): (r: set<nat>)
    ensures forall c: nat :: c in r <==> 2 <= c < n
    ensures n >= 2 ==> |r| == n - 2
  {
    if n <= 2 then {} else Clusters(n - 1) + {n - 1}
  }

  lemma SmallerSet(a: set<nat>, b: set<nat>)
    requires a <= b
    ensures |a| <= |b|
  {
    assert b == a + (b - a);
  }

  /** No more clusters are free than there are, and fewer when one is in use. */
  lemma FreeCountBound(e: seq<nat>, c: nat)
    requires |e| >= 2
    ensures |Zeros(e)| <= |e| - 2
    ensures IsCluster(e, c) && e[c] != 0 ==> |Zeros(e)| < |e| - 2
  {
    var all := Clusters(|e|);
    SmallerSet(Zeros(e), all);
    if IsCluster(e, c) && e[c] != 0 {
      SmallerSet(Zeros(e), all - {c});
    }
  }

  // ---------------------------------------------------------------- removing

  ghost function NonZeros(e: seq<nat>): set<nat> {
    set c: nat | c < |e| && e[c] != 0
  }

  /** The loop of `remove_chain`: clears entry after entry until a free cluster, an end mark or
      an invalid entry is met. Every step leaves one nonzero entry fewer, so it ends even when
      the entries run in a circle. */
  ghost function RemoveFrom(e: seq<nat>, clst: nat): (r: (seq<nat>, bool))
    requires clst < |e|
    ensures |r.0| == |e|
    decreases NonZeros(e)
  {
    var nxt := e[clst];
    if nxt == 0 then (e, true)
    else if nxt == 1 then (e, false)
    else
      var e1 := e[clst := 0];
      assert clst in NonZeros(e) && clst !in NonZeros(e1);
      if nxt < |e| then RemoveFrom(e1, nxt) else (e1, true)
  }

  /** The table with the clusters of `s` free. */
  function Cleared(e: seq<nat>, s: seq<nat>): (r: seq<nat>)
    ensures |r| == |e|
  {
    seq(|e|, c requires 0 <= c < |e| => if c in s then 0 else e[c])
  }

  /** Removing from the first cluster of a chain frees exactly that chain. */
  lemma {:induction false} RemoveIsCleared(e: seq<nat>, ch: seq<nat>)
    requires IsChain(e, ch)
    ensures RemoveFrom(e, ch[0]) == (Cleared(e, ch), true)
    decreases |ch|
  {
    var e1 := e[ch[0] := 0];
    if |ch| == 1 {
      assert Cleared(e, ch) == e1;
    } else {
      var tail := ch[1..];
      assert IsCluster(e, ch[1]) && e[ch[0]] == ch[1];
      forall i | 0 <= i < |tail|
        ensures tail[i] != ch[0] && e1[tail[i]] == e[tail[i]]
      {
        assert tail[i] == ch[i + 1];
      }
      assert IsChain(e1, tail);
      RemoveIsCleared(e1, tail);
      assert Cleared(e1, tail) == Cleared(e, ch);
    }
  }

  /** Clearing a chain's clusters makes exactly those free. */
  lemma ClearedZeros(e: seq<nat>, s: seq<nat>)
    requires forall k :: 0 <= k < |s| ==> IsCluster(e, s[k])
    ensures Zeros(Cleared(e, s)) == Zeros(e) + Members(s)
  {
  }

  /** The part of a chain from `i` on, cut off from the rest. */
  lemma CutChain(e: seq<nat>, ch: seq<nat>, i: nat, end: nat)
    requires IsChain(e, ch) && 0 < i < |ch| && end >= |e|
    ensures var e' := e[ch[i - 1] := end];
            IsChain(e', ch[i..]) && IsChain(e', ch[..i]) && Disjoint(ch[..i], ch[i..])
  {
    var e' := e[ch[i - 1] := end];
    assert forall k :: 0 <= k < |ch| && k != i - 1 ==> e'[ch[k]] == e[ch[k]];
  }

  /** After removing a whole chain the others are as before. */
  lemma RemovedChain(e: seq<nat>, chains: set<seq<nat>>, ch: seq<nat>)
    requires AllChains(e, chains) && ch in chains
    ensures RemoveFrom(e, ch[0]) == (Cleared(e, ch), true)
    ensures AllChains(Cleared(e, ch), chains - {ch})
  {
    RemoveIsCleared(e, ch);
    forall other | other in chains - {ch}
      ensures IsChain(Cleared(e, ch), other)
    {
      assert Disjoint(other, ch);
      ChainKept(e, Cleared(e, ch), other);
    }
  }

  /** After removing the part from `i` on, the chain ends before it and the others are as
      before. */
  lemma ShortenedChain(e: seq<nat>, chains: set<seq<nat>>, ch: seq<nat>, i: nat, end: nat)
    requires AllChains(e, chains) && ch in chains && 0 < i < |ch| && end >= |e|
    ensures var e' := e[ch[i - 1] := end];
            && RemoveFrom(e', ch[i]) == (Cleared(e', ch[i..]), true)
            && AllChains(Cleared(e', ch[i..]), chains - {ch} + {ch[..i]})
  {
    var e' := e[ch[i - 1] := end];
    var e'' := Cleared(e', ch[i..]);
    CutChain(e, ch, i, end);
    assert ch[i..][0] == ch[i];
    RemoveIsCleared(e', ch[i..]);
    assert forall k :: 0 <= k < i ==> ch[..i][k] !in ch[i..];
    ChainKept(e', e'', ch[..i]);
    forall other | other in chains - {ch}
      ensures IsChain(e'', other) && Disjoint(other, ch[..i]) && Disjoint(ch[..i], other)
    {
      assert Disjoint(other, ch);
      assert forall k :: 0 <= k < |other| ==> other[k] !in ch && other[k] !in ch[i..];
      ChainKept(e, e'', other);
    }
  }

  // ---------------------------------------------------------------- which cluster is taken

  /** The `k`-th cluster after `c` in a table of `n` entries, going on with 2 after the last. */
  function After(n: nat, c: nat, k: nat): int {
    if c + 1 + k < n then c + 1 + k else c + 1 + k - (n - 2)
  }

  /** Going round from `c` meets every cluster once, `c` itself at the end. */
  lemma AfterMeetsAll(n: nat, c: nat, d: nat)
    requires 1 <= c < n && 2 <= d < n
    ensures exists k: nat :: k < n - 2 && After(n, c, k) == d
    ensures forall k: nat :: k < n - 2 ==> 2 <= After(n, c, k) < n
    ensures forall i: nat, k: nat :: i < k < n - 2 ==> After(n, c, i) != After(n, c, k)
  {
    var k: nat := if d > c then d - c - 1 else d - c - 1 + (n - 2);
    assert After(n, c, k) == d;
  }

  /** Where the search is before it looks at the `k`-th cluster. */
  function PlaceBefore(n: nat, c: nat, k: nat): int {
    if k == 0 then c else After(n, c, k - 1)
  }

  lemma FirstPlace(n: nat, c: nat)
    ensures PlaceBefore(n, c, 0) == c
  {
  }

  lemma NextPlace(n: nat, c: nat, k: nat)
    requires 1 <= c < n && k <= n - 2 && (k == n - 2 ==> c == 1)
    ensures k < n - 2 ==> 2 <= After(n, c, k) < n && PlaceBefore(n, c, k + 1) == After(n, c, k)
    ensures k < n - 2 ==> After(n, c, k) == if PlaceBefore(n, c, k) + 1 < n then PlaceBefore(n, c, k) + 1 else 2
    ensures k < n - 2 ==> (After(n, c, k) == c <==> k == n - 3 && c >= 2)
    ensures k == n - 2 <==> PlaceBefore(n, c, k) + 1 >= n && c == 1
  {
  }

  lemma NoneFree(e: seq<nat>, c: nat)
    requires |e| >= 3 && 1 <= c < |e| && InUseAfter(e, c, |e| - 2)
    ensures Zeros(e) == {} && FirstAfter(e, c, 0)
  {
    forall d: nat | IsCluster(e, d)
      ensures e[d] != 0
    {
      AfterMeetsAll(|e|, c, d);
    }
  }

  /** None of the first `k` clusters after `c` is free or has an invalid entry. */
  ghost predicate InUseAfter(e: seq<nat>, c: nat, k: nat)
    requires 1 <= c < |e| && k <= |e| - 2
  {
    forall i: nat :: i < k ==> 2 <= After(|e|, c, i) < |e| && e[After(|e|, c, i)] > 1
  }

  /** `r` is the first free cluster after `c` in cyclic order, 1 if an invalid entry comes before
      it, 0 if there is neither. */
  ghost predicate FirstAfter(e: seq<nat>, c: nat, r: nat)
    requires 1 <= c < |e| && |e| >= 3
  {
    if r == 0 then InUseAfter(e, c, |e| - 2)
    else
      exists k: nat :: k < |e| - 2 && InUseAfter(e, c, k)
        && 2 <= After(|e|, c, k) < |e|
        && if r == 1 then e[After(|e|, c, k)] == 1 else r == After(|e|, c, k) && e[r] == 0
  }

  /** What the entry of the `k`-th cluster after `c` means for the search. */
  lemma LookedAt(e: seq<nat>, c: nat, k: nat, d: nat)
    requires 1 <= c < |e| && k < |e| - 2 && InUseAfter(e, c, k) && d == After(|e|, c, k) && 2 <= d < |e|
    ensures e[d] == 0 ==> FirstAfter(e, c, d)
    ensures e[d] == 1 ==> FirstAfter(e, c, 1) && HasBadEntry(e)
    ensures e[d] > 1 ==> InUseAfter(e, c, k + 1)
  {
    hide After;
  }

  lemma NothingYet(e: seq<nat>, c: nat)
    requires 1 <= c < |e|
    ensures |e| >= 2 ==> InUseAfter(e, c, 0)
  {
  }

  /** The cluster next to `c`. */
  function NextTo(n: nat, c: nat): nat {
    if c + 1 < n then c + 1 else 2
  }

  /** Which cluster is taken for a chain that ends at `c`, or for a new one if `c` is 0: the one
      next to `c` if that is free, and else the first one after the last that was taken. */
  ghost predicate Chosen(e: seq<nat>, c: nat, last: nat, r: nat)
    requires |e| >= 3 && c != 1 && c < |e|
  {
    if c != 0 && e[NextTo(|e|, c)] <= 1 then r == if e[NextTo(|e|, c)] == 0 then NextTo(|e|, c) else 1
    else FirstAfter(e, if c == 0 then (if last == 0 || last >= |e| then 1 else last)
                       else if 2 <= last < |e| then last else c, r)
  }

  // ---------------------------------------------------------------- the operations

  /** The allocator: the FAT and the two values of the FSINFO sector. A free count above
      `nFatent - 2` stands for "unknown". */
  class Allocator {
    const fs: FatFs
    var lastClst: nat
    var freeClst: nat

    ghost predicate Valid()
      reads this, fs, fs.win
    {
      fs.Valid() && 3 <= fs.at.nFatent <= EndValue(fs.at.fsType)
    }

    /** A valid free count is the number of free clusters. */
    ghost predicate FreeCountOk()
      requires Valid()
      reads this, fs, fs.win
    {
      freeClst <= fs.at.nFatent - 2 ==> freeClst == |Zeros(fs.Entries())|
    }

    constructor (fs: FatFs, lastClst: nat, freeClst: nat)
      ensures this.fs == fs && this.lastClst == lastClst && this.freeClst == freeClst
    {
      this.fs := fs;
      this.lastClst := lastClst;
      this.freeClst := freeClst;
    }

    /** `create_chain`. With `clst` zero a new chain is begun; otherwise the entry of `clst` is
        followed if it names a cluster, and else a free cluster is linked to it. 0 means that
        no cluster is free, 1 is an error. */
    method CreateChain(clst: nat) returns (r: nat)
      requires Valid() && clst < fs.at.nFatent && FreeCountOk()
      modifies this, fs, fs.win
      ensures Valid() && FreeCountOk()
      ensures var e, n := old(fs.Entries()), fs.at.nFatent;
              var end := EndValue(fs.at.fsType);
              if clst != 0 && (clst == 1 || e[clst] < 2) then r == 1 && fs.Entries() == e && lastClst == old(lastClst)
              else if clst != 0 && e[clst] < n then r == e[clst] && fs.Entries() == e && lastClst == old(lastClst)
              else
                && (if old(freeClst) == 0 then r == 0 else Chosen(e, clst, old(lastClst), r))
                && (if r == 0 then fs.Entries() == e && Zeros(e) == {} && lastClst == old(lastClst)
                    else if r == 1 then fs.Entries() == e && HasBadEntry(e) && lastClst == old(lastClst)
                    else
                      && r in Zeros(e) && lastClst == r
                      && fs.Entries() == if clst == 0 then e[r := end] else e[r := end][clst := r])
    {
      hide FatFs.Valid, FatFs.View, FatFs.Fat, FatFs.Entries, Fit, Zeros, FirstAfter;
      var n := fs.at.nFatent;
      var scl;
      if clst == 0 {
        scl := lastClst;
        if scl == 0 || scl >= n { scl := 1; }
      } else {
        var cs := fs.GetFat(clst);
        if cs < 2 { return 1; }
        if cs < n { return cs; }
        scl := clst;
      }
      if freeClst == 0 { return 0; }
      var ncl;
      ncl, scl := TryNext(clst, scl);
      if ncl == 1 { return 1; }
      if ncl == 0 {
        ncl := FindFree(scl);
        if ncl < 2 { return ncl; }
      }
      ghost var e := fs.Entries();
      InZeros(e, ncl);
      AllOnesFit(fs.at.fsType);
      var ok := fs.PutFat(ncl, ALL_ONES);
      FreeCountDown(e, ncl, EndValue(fs.at.fsType));
      if clst != 0 {
        FitCluster(ncl);
        FreeCountSame(fs.Entries(), clst, ncl);
        ok := fs.PutFat(clst, ncl);
      }
      lastClst := ncl;
      if freeClst <= n - 2 { freeClst := freeClst - 1; }
      r := ncl;
    }

    lemma FitCluster(c: nat)
      requires Valid() && c < fs.at.nFatent
      ensures Fit(fs.at.fsType, c) == c
    {
    }

    /** When a chain is stretched the cluster next to its last one is tried first; if it is
        taken, the search starts at the last allocated cluster. */
    method TryNext(clst: nat, scl0: nat) returns (ncl: nat, scl: nat)
      requires Valid() && 1 <= scl0 < fs.at.nFatent
      modifies fs`disk, fs`wflag, fs`winsect, fs.win
      ensures Valid() && fs.Entries() == old(fs.Entries()) && 1 <= scl < fs.at.nFatent
      ensures ncl == 1 ==> HasBadEntry(fs.Entries())
      ensures ncl > 1 ==> ncl in Zeros(fs.Entries())
      ensures if scl0 == clst && fs.Entries()[NextTo(fs.at.nFatent, clst)] <= 1 then
                ncl == if fs.Entries()[NextTo(fs.at.nFatent, clst)] == 0 then NextTo(fs.at.nFatent, clst) else 1
              else ncl == 0 && scl == if scl0 == clst && 2 <= lastClst < fs.at.nFatent then lastClst else scl0
    {
      hide FatFs.Valid, FatFs.View, FatFs.Fat, FatFs.Entries;
      ncl, scl := 0, scl0;
      if scl == clst {
        ncl := scl + 1;
        if ncl >= fs.at.nFatent { ncl := 2; }
        var cs := fs.GetFat(ncl);
        if cs == 1 {
          assert fs.Entries()[ncl] == 1;
          return 1, scl;
        }
        if cs != 0 {
          if 2 <= lastClst < fs.at.nFatent { scl := lastClst; }
          ncl := 0;
        }
      }
    }

    /** The search loop: all clusters from the one after `scl` round to `scl`. */
    method FindFree(scl: nat) returns (ncl: nat)
      requires Valid() && 1 <= scl < fs.at.nFatent
      modifies fs`disk, fs`wflag, fs`winsect, fs.win
      ensures Valid() && fs.Entries() == old(fs.Entries()) && FirstAfter(fs.Entries(), scl, ncl)
      ensures ncl == 0 ==> Zeros(fs.Entries()) == {}
      ensures ncl == 1 ==> HasBadEntry(fs.Entries())
      ensures ncl > 1 ==> ncl in Zeros(fs.Entries())
    {
      hide FatFs.Valid, FatFs.View, FatFs.Fat, FatFs.Entries, InUseAfter, FirstAfter, HasBadEntry, Zeros, After,
          PlaceBefore;
      ncl := scl;
      ghost var e := fs.Entries();
      ghost var k: nat := 0;
      NothingYet(e, scl);
      FirstPlace(|e|, scl);
      while true
        invariant Valid() && fs.Entries() == e == old(fs.Entries()) && k <= |e| - 2
        invariant 1 <= ncl < fs.at.nFatent && InUseAfter(e, scl, k) && ncl == PlaceBefore(|e|, scl, k)
        invariant k == |e| - 2 ==> scl == 1
        decreases |e| - k
      {
        ncl := ncl + 1;
        NextPlace(|e|, scl, k);
        if ncl >= fs.at.nFatent {
          ncl := 2;
          if ncl > scl {
            NoneFree(e, scl);
            return 0;
          }
        }
        var cs := fs.GetFat(ncl);
        LookedAt(e, scl, k, ncl);
        InZeros(e, ncl);
        if cs == 0 { return ncl; }
        if cs == 1 { return 1; }
        k := k + 1;
        if ncl == scl {
          NoneFree(e, scl);
          return 0;
        }
      }
    }

    /** `remove_chain`: frees the clusters from `clst` on and ends the chain at `pclst`, if that
        is not 0. It ends on any FAT; `ok` is false when an invalid entry or a previous cluster
        out of range stopped it. The free count stays right unless the previous cluster was
        free, which puts it in use without counting it. */
    method RemoveChain(clst: nat, pclst: nat) returns (ok: bool)
      requires Valid() && FreeCountOk()
      modifies this`freeClst, fs, fs.win
      ensures Valid()
      ensures (2 <= pclst < fs.at.nFatent && old(fs.Entries())[pclst] == 0) || FreeCountOk()
      ensures var e, n := old(fs.Entries()), fs.at.nFatent;
              if clst < 2 || clst >= n || (pclst != 0 && (pclst == 1 || pclst >= n)) then !ok && fs.Entries() == e
              else
                var e' := if pclst == 0 then e else e[pclst := EndValue(fs.at.fsType)];
                fs.Entries() == RemoveFrom(e', clst).0 && ok == RemoveFrom(e', clst).1
    {
      hide FatFs.Valid, FatFs.View, FatFs.Fat, FatFs.Entries, Fit;
      var n := fs.at.nFatent;
      if clst < 2 || clst >= n { return false; }
      ghost var counted := true;
      if pclst != 0 {
        AllOnesFit(fs.at.fsType);
        ok := fs.PutFat(pclst, ALL_ONES);
        if !ok { return; }
        counted := old(fs.Entries())[pclst] != 0;
        if counted { FreeCountSame(old(fs.Entries()), pclst, EndValue(fs.at.fsType)); }
      }
      ghost var e' := fs.Entries();
      var c := clst;
      ok := true;
      while c < n
        invariant Valid() && (counted ==> FreeCountOk()) && ok && 2 <= c
        invariant c < n ==> RemoveFrom(e', clst) == RemoveFrom(fs.Entries(), c)
        invariant c >= n ==> RemoveFrom(e', clst) == (fs.Entries(), true)
        decreases c < n, NonZeros(fs.Entries())
      {
        ghost var e := fs.Entries();
        var nxt := fs.GetFat(c);
        if nxt == 0 { break; }
        if nxt == 1 { return false; }
        FreeCountUp(e, c);
        FreeCountBound(e, c);
        ZeroFits(fs.at.fsType);
        var done := fs.PutFat(c, 0);
        assert c in NonZeros(e) && c !in NonZeros(e[c := 0]);
        if freeClst < n - 2 { freeClst := freeClst + 1; }
        c := nxt;
      }
    }

    lemma ZeroFits(t: FatType)
      ensures Fit(t, 0) == 0
    {
    }
  }

  // ---------------------------------------------------------------- whole volumes

  /** What happens to the files of a volume: a file gets its first cluster, a chain grows at its
      end, or is removed from its `i`-th cluster on. */
  datatype Op = Begin | Grow(ch: seq<nat>) | Remove(ch: seq<nat>, i: nat)

  /** The table after an operation with result `r`, where `end` is the end mark: no cluster,
      one more cluster in use, or the removed clusters free. */
  ghost predicate Done(op: Op, r: nat, e: seq<nat>, e': seq<nat>, end: nat)
    requires op.Grow? ==> IsChain(e, op.ch)
    requires op.Remove? ==> IsChain(e, op.ch) && op.i < |op.ch|
  {
    if op.Remove? then
      && e' == Cleared(if op.i == 0 then e else e[op.ch[op.i - 1] := end], op.ch[op.i..])
      && Zeros(e') == Zeros(e) + Members(op.ch[op.i..])
    else if r == 0 then e' == e && Zeros(e) == {}
    else if r == 1 then e' == e && HasBadEntry(e)
    else r in Zeros(e) && e' == if op.Begin? then e[r := end] else e[r := end][op.ch[|op.ch| - 1] := r]
  }

  /** Which cluster an allocation takes. */
  ghost predicate Chose(op: Op, r: nat, e: seq<nat>, last: nat)
    requires |e| >= 3 && (op.Grow? ==> IsChain(e, op.ch)) && !op.Remove?
  {
    if op.Begin? then Chosen(e, 0, last, r)
    else IsCluster(e, op.ch[|op.ch| - 1]) && Chosen(e, op.ch[|op.ch| - 1], last, r)
  }

  lemma RemovedTable(e: seq<nat>, op: Op, r: nat, end: nat)
    requires op.Remove? && IsChain(e, op.ch) && op.i < |op.ch| && end >= |e|
    ensures Done(op, r, e, Cleared(if op.i == 0 then e else e[op.ch[op.i - 1] := end], op.ch[op.i..]), end)
  {
    var cut := if op.i == 0 then e else e[op.ch[op.i - 1] := end];
    if op.i > 0 { assert e[op.ch[op.i - 1]] == op.ch[op.i]; }
    assert Zeros(cut) == Zeros(e);
    ClearedZeros(cut, op.ch[op.i..]);
  }

  /** One operation keeps all chains of the volume terminated and disjoint, changes the table
      and the chains exactly as it should, fails only for want of a free cluster or for an
      invalid entry, and keeps the free count right. */
  method Step(a: Allocator, op: Op, ghost chains: set<seq<nat>>) returns (r: nat, ghost chains': set<seq<nat>>)
    requires a.Valid() && a.FreeCountOk() && AllChains(a.fs.Entries(), chains)
    requires op.Grow? ==> op.ch in chains
    requires op.Remove? ==> op.ch in chains && op.i < |op.ch|
    modifies a, a.fs, a.fs.win
    ensures a.Valid() && a.FreeCountOk() && AllChains(a.fs.Entries(), chains')
    ensures match op
            case Begin => chains' == if r >= 2 then chains + {[r]} else chains
            case Grow(ch) => chains' == if r >= 2 then chains - {ch} + {ch + [r]} else chains
            case Remove(ch, i) => chains' == if i == 0 then chains - {ch} else chains - {ch} + {ch[..i]}
    ensures Done(op, r, old(a.fs.Entries()), a.fs.Entries(), EndValue(a.fs.at.fsType))
    ensures !op.Remove? && old(a.freeClst) != 0 ==> Chose(op, r, old(a.fs.Entries()), old(a.lastClst))
    ensures !op.Remove? && r >= 2 ==> a.lastClst == r
  {
    hide FatFs.Valid, FatFs.View, FatFs.Fat, FatFs.Entries, Allocator.FreeCountOk, IsChain, Zeros, HasBadEntry, Chosen;
    ghost var e := a.fs.Entries();
    ghost var end := EndValue(a.fs.at.fsType);
    chains' := chains;
    match op
    case Begin =>
      r := a.CreateChain(0);
      if r >= 2 {
        InZeros(e, r);
        NewChain(e, chains, r, end);
        chains' := chains + {[r]};
      }
    case Grow(ch) =>
      LastOfChain(e, ch);
      r := a.CreateChain(ch[|ch| - 1]);
      if r >= 2 {
        InZeros(e, r);
        GrownChain(e, chains, ch, r, end);
        chains' := chains - {ch} + {ch + [r]};
      }
    case Remove(ch, i) =>
      LinkOfChain(e, ch, i);
      RemovedTable(e, op, 0, end);
      if i == 0 {
        assert ch[i..] == ch;
        RemovedChain(e, chains, ch);
        chains' := chains - {ch};
      } else {
        ShortenedChain(e, chains, ch, i, end);
        chains' := chains - {ch} + {ch[..i]};
      }
      var ok := a.RemoveChain(ch[i], if i == 0 then 0 else ch[i - 1]);
      r := 0;
  }

  /** The `m` clusters after `c`. */
  function Following(c: nat, m: nat): seq<nat> {
    seq(m, i requires 0 <= i < m => c + 1 + i)
  }

  /** No other chain begins like this one. */
  lemma NotAnother(e: seq<nat>, chains: set<seq<nat>>, ch: seq<nat>, longer: seq<nat>)
    requires AllChains(e, chains) && ch in chains && ch != [] && ch <= longer
    ensures longer !in chains - {ch}
  {
    assert longer[0] == ch[0];
    forall other | other in chains - {ch}
      ensures other != longer
    {
      assert Disjoint(ch, other) && other != [];
      assert other[0] != ch[0];
    }
  }

  lemma OneOfAll(e: seq<nat>, chains: set<seq<nat>>, ch: seq<nat>)
    requires AllChains(e, chains) && ch in chains
    ensures IsChain(e, ch)
  {
  }

  /** With a free cluster the free count is not zero. */
  lemma HasFree(a: Allocator, c: nat)
    requires a.Valid() && a.FreeCountOk() && IsCluster(a.fs.Entries(), c) && a.fs.Entries()[c] == 0
    ensures a.freeClst != 0
  {
    hide FatFs.Valid, FatFs.View, FatFs.Fat, FatFs.Entries;
    assert c in Zeros(a.fs.Entries());
  }

  /** A chain that grows while the clusters next to its end are free grows by just these. */
  method GrowInPlace(a: Allocator, ch: seq<nat>, m: nat, ghost chains: set<seq<nat>>)
    returns (ch': seq<nat>, ghost chains': set<seq<nat>>)
    requires a.Valid() && a.FreeCountOk() && AllChains(a.fs.Entries(), chains) && ch in chains
    requires ch != [] && ch[|ch| - 1] + m < a.fs.at.nFatent
    requires forall c :: ch[|ch| - 1] < c <= ch[|ch| - 1] + m ==> a.fs.Entries()[c] == 0
    modifies a, a.fs, a.fs.win
    ensures a.Valid() && a.FreeCountOk() && AllChains(a.fs.Entries(), chains')
    ensures ch' == ch + Following(ch[|ch| - 1], m) && chains' == chains - {ch} + {ch'}
  {
    hide FatFs.Valid, FatFs.View, FatFs.Fat, FatFs.Entries, Allocator.FreeCountOk, AllChains, Fit;
    ghost var last := ch[|ch| - 1];
    ghost var e0 := a.fs.Entries();
    ch', chains' := ch, chains;
    assert chains == chains - {ch} + {ch};
    for k := 0 to m
      invariant a.Valid() && a.FreeCountOk() && AllChains(a.fs.Entries(), chains')
      invariant ch' == ch + Following(last, k) && ch'[|ch'| - 1] == last + k
      invariant chains' == chains - {ch} + {ch'}
      invariant forall c :: last + k < c <= last + m ==> a.fs.Entries()[c] == 0
    {
      OneOfAll(a.fs.Entries(), chains', ch');
      HasFree(a, last + k + 1);
      NotAnother(e0, chains, ch, ch');
      var r;
      r, chains' := Step(a, Grow(ch'), chains');
      assert r == last + k + 1;
      ch' := ch' + [r];
    }
  }

  lemma LastOfChain(e: seq<nat>, ch: seq<nat>)
    requires IsChain(e, ch)
    ensures ch != [] && IsCluster(e, ch[|ch| - 1]) && e[ch[|ch| - 1]] >= |e|
  {
  }

  lemma LinkOfChain(e: seq<nat>, ch: seq<nat>, i: nat)
    requires IsChain(e, ch) && i < |ch|
    ensures IsCluster(e, ch[i]) && (i > 0 ==> IsCluster(e, ch[i - 1]) && e[ch[i - 1]] != 0)
  {
    if i > 0 { assert e[ch[i - 1]] == ch[i]; }
  }
}
