/** The file allocation table of a FATX volume behind its cache (lib/libfatx/fatx_fat.c). */
module FatxFat {
  import opened FatWindow
  import opened FatChain

  const CACHE_ENTRIES := 512

  // ---------------------------------------------------------------- entries

  datatype EntryType = Available | Data | Reserved | Bad | Media | End | Invalid

  /** Entries of 16 bits are sign-extended, so that one set of marks serves both widths. */
  function Extended(fat16: bool, entry: nat): nat {
    if fat16 then
      var low := entry % 0x1_0000;
      if low >= 0x8000 then low + 0xFFFF_0000 else low
    else entry
  }

  function TypeOf(fat16: bool, entry: nat): EntryType {
    var e := Extended(fat16, entry);
    if e == 0 then Available
    else if e == 0xFFFF_FFF0 then Reserved
    else if e == 0xFFFF_FFF7 then Bad
    else if e == 0xFFFF_FFF8 then Media
    else if e == 0xFFFF_FFFF then End
    else if e < 0xFFFF_FFF0 then Data
    else Invalid
  }

  /** Number of values an entry can hold. */
  function Limit(fat16: bool): nat {
    if fat16 then 0x1_0000 else 0x1_0000_0000
  }

  function EndMark(fat16: bool): nat {
    if fat16 then 0xFFFF else 0xFFFF_FFFF
  }

  /** In both widths the entries that name a cluster are all between the free one and the 16
      highest. */
  lemma EntryTypes(fat16: bool, entry: nat)
    requires entry < Limit(fat16)
    ensures TypeOf(fat16, entry) == Available <==> entry == 0
    ensures TypeOf(fat16, entry) == Data <==> 0 < entry < Limit(fat16) - 16
    ensures TypeOf(fat16, entry) == End <==> entry == EndMark(fat16)
    ensures EndMark(fat16) == if fat16 then 0xFFFF else 0xFFFF_FFFF
    ensures TypeOf(fat16, entry) == if entry == 0 then Available
                                    else if entry < (if fat16 then 0xFFF0 else 0xFFFF_FFF0) then Data
                                    else match entry % 16
                                      case 0 => Reserved
                                      case 7 => Bad
                                      case 8 => Media
                                      case 15 => End
                                      case _ => Invalid
  {
    if fat16 { assert entry % 0x1_0000 == entry; }
  }

  // ---------------------------------------------------------------- tables

  /** The cluster after `c`, 0 if there is none. */
  function NextOf(fat16: bool, e: seq<nat>, c: nat): nat {
    if c < |e| && TypeOf(fat16, e[c]) == Data then e[c] else 0
  }

  /** `fatx_free_cluster_chain` on a table: frees cluster after cluster until an entry names no
      further one. Every step but the last leaves one nonzero entry fewer. */
  ghost function FreedFrom(fat16: bool, e: seq<nat>, c: nat): (r: seq<nat>)
    ensures |r| == |e|
    decreases NonZeros(e)
  {
    var next := NextOf(fat16, e, c);
    var e1 := if c < |e| then e[c := 0] else e;
    if next == 0 then e1
    else
      assert c in NonZeros(e) && c !in NonZeros(e1);
      FreedFrom(fat16, e1, next)
  }

  /** The chain of a file: it lies among the clusters with data and ends with the end mark. */
  ghost predicate FileChain(fat16: bool, e: seq<nat>, ch: seq<nat>) {
    IsChain(e, ch) && (forall i :: 0 <= i < |ch| ==> ch[i] < |e| - 1) && e[ch[|ch| - 1]] == EndMark(fat16)
  }

  lemma {:induction false} FreedIsCleared(fat16: bool, e: seq<nat>, ch: seq<nat>)
    requires FileChain(fat16, e, ch) && |e| <= Limit(fat16) - 16 && forall k :: 0 <= k < |e| ==> e[k] < Limit(fat16)
    ensures FreedFrom(fat16, e, ch[0]) == Cleared(e, ch)
    decreases |ch|
  {
    var e1 := e[ch[0] := 0];
    EntryTypes(fat16, e[ch[0]]);
    if |ch| == 1 {
      assert Cleared(e, ch) == e1;
    } else {
      var tail := ch[1..];
      assert e[ch[0]] == ch[1];
      forall i | 0 <= i < |tail|
        ensures tail[i] != ch[0] && e1[tail[i]] == e[tail[i]]
      {
        assert tail[i] == ch[i + 1];
      }
      assert FileChain(fat16, e1, tail);
      FreedIsCleared(fat16, e1, tail);
      assert Cleared(e1, tail) == Cleared(e, ch);
    }
  }

  /** Clusters that `fatx_alloc_cluster` may hand out. */
  ghost predicate Free(e: seq<nat>, c: nat) {
    2 <= c < |e| - 1 && e[c] == 0
  }

  /** A file with the chain `ch` among all other files. */
  ghost predicate World(fat16: bool, e: seq<nat>, ch: seq<nat>, others: set<seq<nat>>) {
    && ch !in others && AllChains(e, others + {ch})
    && FileChain(fat16, e, ch) && forall o :: o in others ==> FileChain(fat16, e, o)
  }

  /** A free cluster attached at the end of a chain. */
  lemma GrownWorld(fat16: bool, e: seq<nat>, ch: seq<nat>, others: set<seq<nat>>, c: nat)
    requires World(fat16, e, ch, others) && Free(e, c) && |e| <= Limit(fat16) - 16
    ensures World(fat16, e[c := EndMark(fat16)][ch[|ch| - 1] := c], ch + [c], others)
  {
    var end := EndMark(fat16);
    var e' := e[c := end][ch[|ch| - 1] := c];
    GrownChain(e, others + {ch}, ch, c, end);
    assert others + {ch} - {ch} == others;
    LongerChain(e, ch, c, end);
    FreeIsOutside(e, ch, c);
    forall o | o in others
      ensures FileChain(fat16, e', o) && o != ch + [c]
    {
      assert o in others + {ch} && ch in others + {ch} && Disjoint(o, ch);
      FreeIsOutside(e, o, c);
      assert (ch + [c])[0] == ch[0];
    }
  }

  /** The clusters of a chain from the `i`-th on freed, and its end marked before them. */
  lemma CutWorld(fat16: bool, e: seq<nat>, ch: seq<nat>, others: set<seq<nat>>, i: nat)
    requires World(fat16, e, ch, others) && 0 < i < |ch| && |e| <= Limit(fat16) - 16
    ensures World(fat16, Cleared(e, ch[i..])[ch[i - 1] := EndMark(fat16)], ch[..i], others)
  {
    var end := EndMark(fat16);
    var cut := e[ch[i - 1] := end];
    var e' := Cleared(cut, ch[i..]);
    ShortenedChain(e, others + {ch}, ch, i, end);
    assert others + {ch} - {ch} == others;
    assert ch[i - 1] !in ch[i..];
    assert e' == Cleared(e, ch[i..])[ch[i - 1] := end];
    assert e'[ch[i - 1]] == end;
    forall o | o in others
      ensures FileChain(fat16, e', o) && o != ch[..i]
    {
      assert o in others + {ch} && ch in others + {ch} && Disjoint(o, ch);
      assert o[|o| - 1] !in ch && o[|o| - 1] !in ch[i..] && o[|o| - 1] != ch[i - 1];
      assert ch[..i][0] == ch[0];
    }
  }

  // ---------------------------------------------------------------- the volume

  /** The disk with some cached entries laid over it. */
  function Overlay(disk: seq<nat>, position: nat, cache: seq<nat>): (r: seq<nat>)
    requires position + |cache| <= |disk|
    ensures |r| == |disk|
  {
    disk[..position] + cache + disk[position + |cache|..]
  }

  /** A cluster with some bytes written into it. */
  function Patched(s: Sector, o: nat, bytes: seq<byte>): (r: Sector)
    requires o + |bytes| <= |s|
    ensures |r| == |s|
  {
    s[..o] + bytes + s[o + |bytes|..]
  }

  lemma OverlayOwn(disk: seq<nat>, position: nat, n: nat)
    requires position + n <= |disk|
    ensures Overlay(disk, position, disk[position..position + n]) == disk
  {
  }

  lemma OverlayUpdate(disk: seq<nat>, position: nat, cache: seq<nat>, index: nat, v: nat)
    requires position + |cache| <= |disk| && position <= index < position + |cache|
    ensures Overlay(disk, position, cache[index - position := v]) == Overlay(disk, position, cache)[index := v]
  {
  }

  lemma OverlayPart(disk: seq<nat>, position: nat, cache: seq<nat>)
    requires position + |cache| <= |disk|
    ensures Overlay(disk, position, cache)[position..position + |cache|] == cache
    ensures Overlay(Overlay(disk, position, cache), position, cache) == Overlay(disk, position, cache)
  {
  }

  /** A mounted volume. The cache holds the entries from `position` on; `cursor` is the static
      variable of the allocator; `devCluster` and `devOffset` say where the device stands, with
      cluster 0 for anywhere in the FAT. */
  class Fatx {
    const fat16: bool
    const numClusters: nat
    const bpc: nat
    var disk: seq<nat>
    var cache: seq<nat>
    var position: nat
    var loaded: bool
    var dirty: bool
    var cursor: nat
    var data: seq<Sector>
    var devCluster: nat
    var devOffset: nat

    ghost predicate Valid()
      reads this
    {
      ValidTable() && ValidData() && (cursor == 2 || 2 < cursor < numClusters)
    }

    ghost predicate ValidData()
      reads this`data
    {
      bpc > 0 && |data| == numClusters - 1 && forall k :: 0 <= k < |data| ==> |data[k]| == bpc
    }

    ghost predicate ValidTable()
      reads this`disk, this`cache, this`position, this`loaded, this`dirty
    {
      && 1 <= numClusters < Limit(fat16) - 16 && |disk| == numClusters + 1
      && (forall k :: 0 <= k < |disk| ==> disk[k] < Limit(fat16))
      && (dirty ==> loaded)
      && (loaded ==>
            && position + |cache| <= |disk|
            && (forall k :: 0 <= k < |cache| ==> cache[k] < Limit(fat16))
            && (!dirty ==> cache == disk[position..position + |cache|]))
    }

    /** The FAT: the disk with the cache laid over it. */
    ghost function Entries(): (e: seq<nat>)
      requires ValidTable()
      reads this`disk, this`cache, this`position, this`loaded, this`dirty
      ensures |e| == numClusters + 1 <= Limit(fat16) - 16 && forall k :: 0 <= k < |e| ==> e[k] < Limit(fat16)
    {
      if loaded then Overlay(disk, position, cache) else disk
    }

    constructor (fat16: bool, numClusters: nat, bpc: nat, disk: seq<nat>, data: seq<Sector>)
      requires 1 <= numClusters < Limit(fat16) - 16 && |disk| == numClusters + 1 && bpc > 0
      requires forall k :: 0 <= k < |disk| ==> disk[k] < Limit(fat16)
      requires |data| == numClusters - 1 && forall k :: 0 <= k < |data| ==> |data[k]| == bpc
      ensures Valid() && Entries() == disk && this.data == data && this.bpc == bpc
      ensures this.fat16 == fat16 && this.numClusters == numClusters
    {
      this.fat16, this.numClusters, this.bpc, this.disk, this.data := fat16, numClusters, bpc, disk, data;
      cache, position, loaded, dirty, cursor, devCluster, devOffset := [], 0, false, false, 2, 0, 0;
    }

    // -------------------------------------------------------------- the cache

    method Flush()
      requires ValidTable()
      modifies this`disk, this`dirty, this`devCluster, this`devOffset
      ensures ValidTable() && !dirty && Entries() == old(Entries())
    {
      if !loaded || !dirty { return; }
      OverlayPart(disk, position, cache);
      disk := Overlay(disk, position, cache);
      devCluster, devOffset := 0, 0;
      dirty := false;
    }

    /** A clean cache does not matter. */
    lemma CleanCache()
      requires ValidTable() && !dirty
      ensures Entries() == disk
    {
      if loaded { OverlayOwn(disk, position, |cache|); }
    }

    method Populate(index: nat) returns (ok: bool)
      requires ValidTable()
      modifies this`disk, this`cache, this`position, this`loaded, this`dirty, this`devCluster, this`devOffset
      ensures ValidTable() && Entries() == old(Entries()) && ok == (index <= numClusters)
      ensures ok ==> loaded && position == index && |cache| > 0
    {
      hide Overlay;
      if index > numClusters { return false; }
      Flush();
      CleanCache();
      position := index;
      var n := if CACHE_ENTRIES <= numClusters + 1 - index then CACHE_ENTRIES else numClusters + 1 - index;
      cache := disk[position..position + n];
      OverlayOwn(disk, position, n);
      loaded := true;
      devCluster, devOffset := 0, 0;
      ok := true;
    }

    /** `fatx_read_fat`: the entry last written. */
    method ReadFat(index: nat) returns (ok: bool, entry: nat)
      requires ValidTable()
      modifies this`disk, this`cache, this`position, this`loaded, this`dirty, this`devCluster, this`devOffset
      ensures ValidTable() && Entries() == old(Entries())
      ensures ok == (index <= numClusters) && (ok ==> entry == Entries()[index])
    {
      ok, entry := true, 0;
      if index > numClusters { return false, 0; }
      if !loaded || index < position || index >= position + |cache| {
        ok := Populate(index);
      }
      entry := cache[index - position];
    }

    /** `fatx_write_fat`: changes exactly one entry. */
    method WriteFat(index: nat, entry: nat) returns (ok: bool)
      requires ValidTable()
      modifies this`disk, this`cache, this`position, this`loaded, this`dirty, this`devCluster, this`devOffset
      ensures ValidTable() && ok == (index <= numClusters)
      ensures Entries() == if ok then old(Entries())[index := entry % Limit(fat16)] else old(Entries())
    {
      ok := true;
      if index > numClusters { return false; }
      if !loaded || index < position || index >= position + |cache| {
        ok := Populate(index);
      }
      hide Overlay;
      OverlayUpdate(disk, position, cache, index, entry % Limit(fat16));
      cache := cache[index - position := entry % Limit(fat16)];
      dirty := true;
    }

    // -------------------------------------------------------------- chains

    method GetNextCluster(cluster: nat) returns (ok: bool, next: nat)
      requires ValidTable()
      modifies this`disk, this`cache, this`position, this`loaded, this`dirty, this`devCluster, this`devOffset
      ensures ValidTable() && Entries() == old(Entries())
      ensures ok == (NextOf(fat16, Entries(), cluster) != 0)
      ensures next == if ok then NextOf(fat16, Entries(), cluster) else cluster
    {
      hide ValidTable, Entries;
      next := cluster;
      var entry;
      ok, entry := ReadFat(cluster);
      if ok {
        ok := TypeOf(fat16, entry) == Data;
        if ok { next := entry; }
      }
    }

    method MarkAvailable(cluster: nat)
      requires ValidTable()
      modifies this`disk, this`cache, this`position, this`loaded, this`dirty, this`devCluster, this`devOffset
      ensures ValidTable()
      ensures Entries() == if cluster <= numClusters then old(Entries())[cluster := 0] else old(Entries())
    {
      var ok := WriteFat(cluster, 0);
    }

    method MarkEnd(cluster: nat)
      requires ValidTable()
      modifies this`disk, this`cache, this`position, this`loaded, this`dirty, this`devCluster, this`devOffset
      ensures ValidTable()
      ensures Entries() == if cluster <= numClusters then old(Entries())[cluster := EndMark(fat16)] else old(Entries())
    {
      var ok := WriteFat(cluster, if fat16 then 0xFFFF else 0xFFFF_FFFF);
    }

    /** `fatx_free_cluster_chain`, which ends on any contents of the FAT. */
    method FreeClusterChain(first: nat)
      requires ValidTable()
      modifies this`disk, this`cache, this`position, this`loaded, this`dirty, this`devCluster, this`devOffset
      ensures ValidTable() && Entries() == FreedFrom(fat16, old(Entries()), first)
    {
      hide ValidTable, Entries, TypeOf;
      var cluster: nat := first;
      ghost var e0 := Entries();
      var more := true;
      while more
        invariant ValidTable()
        invariant FreedFrom(fat16, e0, first) == if more then FreedFrom(fat16, Entries(), cluster) else Entries()
        decreases more, NonZeros(Entries())
      {
        ghost var e := Entries();
        var ok, next := GetNextCluster(cluster);
        if !ok { next := 0; }
        MarkAvailable(cluster);
        assert ok ==> cluster in NonZeros(e) && cluster !in NonZeros(e[cluster := 0]);
        cluster := next;
        more := cluster != 0;
      }
    }

    // -------------------------------------------------------------- allocating

    /** `fatx_dev_seek_cluster`, for the clusters that hold data. */
    method SeekCluster(cluster: nat, offset: nat) returns (ok: bool)
      modifies this`devCluster, this`devOffset
      ensures ok == (1 <= cluster < numClusters)
      ensures ok ==> devCluster == cluster && devOffset == offset
    {
      ok := 1 <= cluster < numClusters;
      if ok { devCluster, devOffset := cluster, offset; }
    }

    /** `fatx_dev_write` inside a cluster. */
    method DevWrite(bytes: seq<byte>)
      requires Valid() && 1 <= devCluster < numClusters && devOffset + |bytes| <= bpc
      modifies this`data, this`devOffset
      ensures Valid() && devOffset == old(devOffset) + |bytes|
      ensures data == old(data)[devCluster - 1 := Patched(old(data)[devCluster - 1], old(devOffset), bytes)]
    {
      data := data[devCluster - 1 := Patched(data[devCluster - 1], devOffset, bytes)];
      devOffset := devOffset + |bytes|;
    }

    /** `fatx_dev_read` inside a cluster. */
    method DevRead(n: nat) returns (bytes: seq<byte>)
      requires Valid() && 1 <= devCluster < numClusters && devOffset + n <= bpc
      modifies this`devOffset
      ensures Valid() && devOffset == old(devOffset) + n
      ensures bytes == data[devCluster - 1][old(devOffset)..old(devOffset) + n]
    {
      bytes := data[devCluster - 1][devOffset..devOffset + n];
      devOffset := devOffset + n;
    }

    /** The `i`-th cluster from `start` on, going on with the first one after the last. */
    function Round(start: nat, i: nat): int {
      if start + i < numClusters then start + i else start + i - (numClusters - 2)
    }

    /** `c` is the first available cluster from `start` on, going round. */
    ghost predicate FirstAvailable(e: seq<nat>, start: nat, c: nat) {
      exists k: nat :: k < numClusters - 2 && Round(start, k) == c && Free(e, c)
        && forall i: nat :: i < k ==> !Free(e, Round(start, i))
    }

    /** Going round once meets every cluster exactly once. */
    lemma RoundMeetsAll(start: nat, c: nat)
      requires 2 <= start < numClusters && 2 <= c < numClusters
      ensures exists i: nat :: i < numClusters - 2 && Round(start, i) == c
      ensures forall i, k :: 0 <= i < k < numClusters - 2 ==> Round(start, i) != Round(start, k)
    {
      var i: nat := if start <= c then c - start else c - start + (numClusters - 2);
      assert Round(start, i) == c;
    }

    /** The scan of `fatx_alloc_cluster`: reads the entries of `n` clusters from the cursor on and
        round to it, up to the first available one, or all when there is none. */
    method FindAvailable() returns (ok: bool, ghost n: nat)
      requires Valid()
      modifies this`disk, this`cache, this`position, this`loaded, this`dirty, this`devCluster, this`devOffset,
          this`cursor
      ensures Valid() && Entries() == old(Entries())
      ensures ok ==> Free(Entries(), cursor) && 0 < n <= numClusters - 2 && cursor == Round(old(cursor), n - 1)
      ensures forall i: nat :: i < n - (if ok then 1 else 0) ==> !Free(Entries(), Round(old(cursor), i))
      ensures !ok ==> (forall c :: !Free(Entries(), c)) && n == if numClusters > 2 then numClusters - 2 else 0
    {
      hide Entries, TypeOf, Overlay;
      var start := cursor;
      var wrapped := false;
      n := 0;
      while true
        invariant ValidTable() && ValidData() && Entries() == old(Entries())
        invariant if wrapped then 2 <= cursor <= start else start <= cursor <= numClusters || cursor == start == 2
        invariant n == if wrapped && numClusters > 2 then numClusters - start + cursor - 2 else cursor - start
        invariant forall c :: 2 <= c < numClusters ==>
                    (if wrapped then c < cursor || start <= c else start <= c < cursor) ==> Entries()[c] != 0
        decreases !wrapped, numClusters + 2 - cursor
      {
        if cursor >= numClusters {
          cursor := 2;
          wrapped := true;
        }
        if cursor == start && wrapped { return false, n; }
        var entry;
        ok, entry := ReadFat(cursor);
        n := n + 1;
        EntryTypes(fat16, entry);
        if TypeOf(fat16, entry) == Available { return true, n; }
        cursor := cursor + 1;
      }
    }

    /** `fatx_alloc_cluster`: hands out an available cluster, marked as the end of a chain and
        filled with zeros if asked; fails only if there is none. */
    method AllocCluster(zero: bool) returns (ok: bool, cluster: nat)
      requires Valid()
      modifies this
      ensures Valid()
      ensures ok ==> FirstAvailable(old(Entries()), old(cursor), cluster) && cursor == cluster
      ensures if ok then
                && Free(old(Entries()), cluster) && Entries() == old(Entries())[cluster := EndMark(fat16)]
                && data == if zero then old(data)[cluster - 1 := seq(bpc, _ => 0)] else old(data)
              else
                Entries() == old(Entries()) && data == old(data) && forall c :: !Free(Entries(), c)
    {
      hide Entries, Overlay, ValidTable;
      cluster := 0;
      ghost var n;
      ok, n := FindAvailable();
      if !ok { return; }
      MarkEnd(cursor);
      ok := SeekCluster(cursor, 0);
      if zero {
        PatchedWhole(data[cursor - 1], seq(bpc, _ => 0));
        DevWrite(seq(bpc, _ => 0));
      }
      cluster := cursor;
    }

    /** `fatx_attach_cluster`: only the end of a chain can be extended. */
    method AttachCluster(tail: nat, cluster: nat) returns (ok: bool)
      requires ValidTable()
      modifies this`disk, this`cache, this`position, this`loaded, this`dirty, this`devCluster, this`devOffset
      ensures ValidTable()
      ensures ok == (tail <= numClusters && TypeOf(fat16, old(Entries())[tail]) == End)
      ensures var e := if ok then old(Entries())[tail := cluster % Limit(fat16)] else old(Entries());
              Entries() == if ok && cluster <= numClusters then e[cluster := EndMark(fat16)] else e
    {
      hide Entries, Overlay, ValidTable, TypeOf;
      var entry;
      ok, entry := ReadFat(tail);
      if !ok { return; }
      if TypeOf(fat16, entry) != End { return false; }
      ok := WriteFat(tail, cluster);
      MarkEnd(cluster);
    }

    /** Allocating and attaching: the chain of a file gets one available cluster more, and all
        other files keep theirs. */
    method Extend(tail: nat, zero: bool, ghost ch: seq<nat>, ghost others: set<seq<nat>>)
      returns (ok: bool, cluster: nat)
      requires Valid() && World(fat16, Entries(), ch, others) && tail == ch[|ch| - 1]
      modifies this
      ensures Valid()
      ensures ok ==> FirstAvailable(old(Entries()), old(cursor), cluster) && cursor == cluster
      ensures ok ==> Free(old(Entries()), cluster) && World(fat16, Entries(), ch + [cluster], others)
      ensures ok ==> Entries() == old(Entries())[cluster := EndMark(fat16)][tail := cluster]
      ensures ok ==> data == if zero then old(data)[cluster - 1 := seq(bpc, _ => 0)] else old(data)
      ensures !ok ==> Entries() == old(Entries()) && data == old(data) && forall c :: !Free(Entries(), c)
    {
      hide Entries, Overlay, ValidTable, World, Free, TypeOf, FirstAvailable;
      ghost var e := Entries();
      EndOfChain(fat16, e, ch, others);
      ok, cluster := AllocCluster(zero);
      if !ok { return; }
      GrownWorld(fat16, e, ch, others, cluster);
      FreeIsNew(fat16, e, ch, others, cluster);
      EntryTypes(fat16, Entries()[tail]);
      ok := AttachCluster(tail, cluster);
      ghost var e1: seq<nat> := e[cluster := EndMark(fat16)];
      ghost var e2: seq<nat> := e1[tail := cluster];
      assert e2[cluster := EndMark(fat16)] == e2;
    }
  }

  lemma PatchedWhole(s: Sector, bytes: seq<byte>)
    requires |bytes| == |s|
    ensures Patched(s, 0, bytes) == bytes
  {
  }

  lemma EndOfChain(fat16: bool, e: seq<nat>, ch: seq<nat>, others: set<seq<nat>>)
    requires World(fat16, e, ch, others)
    ensures ch != [] && 2 <= ch[|ch| - 1] < |e| - 1 && e[ch[|ch| - 1]] == EndMark(fat16)
  {
    assert IsCluster(e, ch[|ch| - 1]);
  }

  lemma FreeIsNew(fat16: bool, e: seq<nat>, ch: seq<nat>, others: set<seq<nat>>, c: nat)
    requires World(fat16, e, ch, others) && Free(e, c)
    ensures c < |e| - 1 && c !in ch
  {
    FreeIsOutside(e, ch, c);
  }

  /** What `fatx_get_next_cluster` finds at the clusters of a file. */
  lemma NextInFile(fat16: bool, e: seq<nat>, ch: seq<nat>, j: nat)
    requires FileChain(fat16, e, ch) && j < |ch| && |e| <= Limit(fat16) - 16
    ensures 2 <= ch[j] < |e| - 1 && NextOf(fat16, e, ch[j]) == if j + 1 < |ch| then ch[j + 1] else 0
    ensures j + 1 == |ch| ==> TypeOf(fat16, e[ch[j]]) == End
  {
    assert IsCluster(e, ch[j]);
    if j + 1 < |ch| {
      assert e[ch[j]] == ch[j + 1] && IsCluster(e, ch[j + 1]);
    }
    EntryTypes(fat16, e[ch[j]]);
  }

  /** The rest of a chain is a chain. */
  lemma RestOfChain(fat16: bool, e: seq<nat>, ch: seq<nat>, i: nat)
    requires FileChain(fat16, e, ch) && i < |ch|
    ensures FileChain(fat16, e, ch[i..])
  {
  }
}
