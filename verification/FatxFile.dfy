/** Reading, writing and truncating files of a FATX volume (lib/libfatx/fatx_file.c). */
module FatxFile {
  import opened FatWindow
  import opened FatChain
  import opened FatxFat
  import F = FatFile

  /** The attributes of a file that matter here. */
  datatype Attr = Attr(first: nat, size: nat)

  // ---------------------------------------------------------------- the bytes of a chain

  ghost predicate Inside(bpc: nat, data: seq<Sector>, ch: seq<nat>) {
    && bpc > 0 && (forall k :: 0 <= k < |data| ==> |data[k]| == bpc)
    && forall i :: 0 <= i < |ch| ==> 1 <= ch[i] <= |data|
  }

  ghost function Clusters(bpc: nat, data: seq<Sector>, ch: seq<nat>): (r: seq<Sector>)
    requires Inside(bpc, data, ch)
    ensures |r| == |ch| && forall i :: 0 <= i < |r| ==> |r[i]| == bpc
  {
    seq(|ch|, i requires 0 <= i < |ch| => data[ch[i] - 1])
  }

  /** All bytes of the clusters of a chain. */
  ghost function Stored(bpc: nat, data: seq<Sector>, ch: seq<nat>): (r: seq<byte>)
    requires Inside(bpc, data, ch)
    ensures |r| == |ch| * bpc
  {
    F.Bytes(bpc, Clusters(bpc, data, ch))
  }

  /** Only clusters of `ch` have changed. */
  ghost predicate OnlyIn(data: seq<Sector>, data': seq<Sector>, ch: seq<nat>) {
    |data'| == |data| && forall k :: 0 <= k < |data| && k + 1 !in ch ==> data'[k] == data[k]
  }

  lemma StoredGrown(bpc: nat, data: seq<Sector>, data': seq<Sector>, ch: seq<nat>, c: nat)
    requires Inside(bpc, data, ch) && Inside(bpc, data', ch + [c]) && OnlyIn(data, data', [c]) && c !in ch
    ensures Stored(bpc, data, ch) <= Stored(bpc, data', ch + [c])
  {
    var a, b := Clusters(bpc, data, ch), Clusters(bpc, data', ch + [c]);
    forall i | 0 <= i < |ch|
      ensures b[i] == a[i]
    {
      assert (ch + [c])[i] == ch[i] && ch[i] in ch;
    }
    assert b[..|ch|] == a;
    F.BytesOfPrefix(bpc, b, |ch|, |ch| * bpc);
  }

  /** A shorter chain holds the first bytes. */
  lemma StoredCut(bpc: nat, data: seq<Sector>, ch: seq<nat>, i: nat, n: nat)
    requires Inside(bpc, data, ch) && i <= |ch| && n <= i * bpc
    ensures Inside(bpc, data, ch[..i]) && n <= |Stored(bpc, data, ch)|
    ensures Stored(bpc, data, ch[..i])[..n] == Stored(bpc, data, ch)[..n]
  {
    assert Clusters(bpc, data, ch)[..i] == Clusters(bpc, data, ch[..i]);
    F.BytesOfPrefix(bpc, Clusters(bpc, data, ch), i, n);
  }

  /** Bytes written into one cluster. */
  lemma StoredPatched(bpc: nat, data: seq<Sector>, ch: seq<nat>, j: nat, o: nat, d: seq<byte>, size: nat, p: nat)
    requires Inside(bpc, data, ch) && Distinct(ch) && j < |ch| && o + |d| <= bpc
    requires p == j * bpc + o && p <= size <= |Stored(bpc, data, ch)|
    ensures var data' := data[ch[j] - 1 := Patched(data[ch[j] - 1], o, d)];
            var size' := if p + |d| < size then size else p + |d|;
            && Inside(bpc, data', ch) && OnlyIn(data, data', ch) && size' <= |Stored(bpc, data', ch)|
            && Stored(bpc, data', ch)[..size'] == F.Splice(Stored(bpc, data, ch)[..size], p, d)
  {
    hide F.Bytes, F.Splice;
    var s := Patched(data[ch[j] - 1], o, d);
    var data' := data[ch[j] - 1 := s];
    var a, b := Clusters(bpc, data, ch), Clusters(bpc, data', ch);
    forall i | 0 <= i < |ch|
      ensures b[i] == a[j := s][i]
    {
    }
    assert b == a[j := s];
    assert ch[j] in ch;
    F.SplicedSector(bpc, a, j, o, s, d, size);
  }

  /** Files that have no cluster in `ch` keep all their bytes. */
  lemma OthersKept(fat16: bool, e: seq<nat>, bpc: nat, data: seq<Sector>, data': seq<Sector>, ch: seq<nat>,
      others: set<seq<nat>>, o: seq<nat>)
    requires World(fat16, e, ch, others) && o in others && OnlyIn(data, data', ch)
    requires Inside(bpc, data, o) && Inside(bpc, data', o)
    ensures Stored(bpc, data', o) == Stored(bpc, data, o)
  {
    assert o in others + {ch} && ch in others + {ch} && Disjoint(o, ch);
    forall i | 0 <= i < |o|
      ensures data'[o[i] - 1] == data[o[i] - 1]
    {
      assert o[i] !in ch;
    }
    assert Clusters(bpc, data', o) == Clusters(bpc, data, o);
  }

  // ---------------------------------------------------------------- a file of a volume

  /** The file with attributes `attr` has the chain `ch`; `others` are those of all other files. */
  ghost predicate HasFile(fs: Fatx, attr: Attr, ch: seq<nat>, others: set<seq<nat>>)
    reads fs
  {
    && fs.Valid() && World(fs.fat16, fs.Entries(), ch, others) && Inside(fs.bpc, fs.data, ch)
    && attr.first == ch[0] && attr.size <= |Stored(fs.bpc, fs.data, ch)|
  }

  ghost function Content(fs: Fatx, attr: Attr, ch: seq<nat>): (r: seq<byte>)
    requires Inside(fs.bpc, fs.data, ch) && attr.size <= |Stored(fs.bpc, fs.data, ch)|
    reads fs
    ensures |r| == attr.size
  {
    Stored(fs.bpc, fs.data, ch)[..attr.size]
  }

  /** No cluster can be allocated. */
  ghost predicate Full(fs: Fatx)
    requires fs.ValidTable()
    reads fs
  {
    forall c :: !Free(fs.Entries(), c)
  }

  lemma ChainInside(fs: Fatx, ch: seq<nat>, others: set<seq<nat>>)
    requires fs.Valid() && World(fs.fat16, fs.Entries(), ch, others)
    ensures Inside(fs.bpc, fs.data, ch)
  {
    forall i | 0 <= i < |ch|
      ensures 1 <= ch[i] <= |fs.data|
    {
      assert IsCluster(fs.Entries(), ch[i]);
    }
  }

  predicate Blank(s: Sector) {
    forall k :: 0 <= k < |s| ==> s[k] == 0
  }

  /** Cluster `c` has been filled with zeros, and no other has changed. */
  ghost predicate Wiped(d: seq<Sector>, d': seq<Sector>, c: nat) {
    && |d'| == |d| && 1 <= c <= |d| && Blank(d'[c - 1])
    && forall i :: 0 <= i < |d| && i != c - 1 ==> d'[i] == d[i]
  }

  /** The clusters from the `n`-th on are all zeros. */
  ghost predicate BlankFrom(d: seq<Sector>, ch: seq<nat>, n: nat) {
    forall i :: n <= i < |ch| ==> 1 <= ch[i] <= |d| && Blank(d[ch[i] - 1])
  }

  lemma BlankAfter(d: seq<Sector>, d': seq<Sector>, ch: seq<nat>, c: nat, n: nat)
    requires BlankFrom(d, ch, n) && Wiped(d, d', c)
    ensures BlankFrom(d', ch + [c], n)
  {
    hide Blank;
    forall i | n <= i < |ch + [c]|
      ensures 1 <= (ch + [c])[i] <= |d'| && Blank(d'[(ch + [c])[i] - 1])
    {
      if i < |ch| && ch[i] != c { assert d'[ch[i] - 1] == d[ch[i] - 1]; }
    }
  }

  /** One more cluster at the end of a file: the bytes it has stay. */
  method Grow(fs: Fatx, tail: nat, zero: bool, ghost attr: Attr, ghost ch: seq<nat>, ghost others: set<seq<nat>>)
    returns (ok: bool, cluster: nat, ghost ch': seq<nat>)
    requires HasFile(fs, attr, ch, others) && tail == ch[|ch| - 1]
    modifies fs
    ensures HasFile(fs, attr, ch', others) && ch' == if ok then ch + [cluster] else ch
    ensures OnlyIn(old(fs.data), fs.data, ch')
    ensures old(Stored(fs.bpc, fs.data, ch)) <= Stored(fs.bpc, fs.data, ch')
    ensures !ok ==> Full(fs)
    ensures ok ==> cluster !in ch && forall c :: 0 <= c <= fs.numClusters && c !in ch' ==>
        fs.Entries()[c] == old(fs.Entries())[c]
    ensures !ok ==> fs.Entries() == old(fs.Entries()) && fs.data == old(fs.data)
    ensures ok && zero ==> Wiped(old(fs.data), fs.data, cluster)
  {
    hide World, Fatx.Entries, Fatx.ValidTable, Stored, Clusters, Free, Inside;
    EndOfChain(fs.fat16, fs.Entries(), ch, others);
    ok, cluster := fs.Extend(tail, zero, ch, others);
    ch' := ch;
    if ok {
      ch' := ch + [cluster];
      FreeIsNew(fs.fat16, old(fs.Entries()), ch, others, cluster);
      ChainInside(fs, ch', others);
      StoredGrown(fs.bpc, old(fs.data), fs.data, ch, cluster);
      assert tail in ch' && cluster in ch';
    }
  }

  /** `fatx_find_cluster_for_file_offset_alloc`: walks to the cluster of a position up to the end
      of the file, allocating what is missing if asked. */
  method FindCluster(fs: Fatx, attr: Attr, offset: nat, alloc: bool, ghost ch: seq<nat>, ghost others: set<seq<nat>>)
    returns (ok: bool, cluster: nat, ghost ch': seq<nat>)
    requires HasFile(fs, attr, ch, others)
    modifies fs
    ensures HasFile(fs, attr, ch', others) && OnlyIn(old(fs.data), fs.data, ch') && ch <= ch'
    ensures Content(fs, attr, ch') == old(Content(fs, attr, ch))
    ensures !alloc ==> ch' == ch && fs.data == old(fs.data) && fs.Entries() == old(fs.Entries())
    ensures ok ==> offset <= attr.size && offset / fs.bpc < |ch'| && cluster == ch'[offset / fs.bpc]
    ensures !ok ==> offset > attr.size || if alloc then Full(fs) else |ch| <= offset / fs.bpc
  {
    hide World, Fatx.Entries, Fatx.ValidTable, Stored, Clusters, Free, Inside, FileChain, TypeOf;
    ok, cluster, ch' := true, attr.first, ch;
    if offset > attr.size { return false, 0, ch; }
    var rest: nat := offset;
    ghost var j: nat := 0;
    EndOfChain(fs.fat16, fs.Entries(), ch, others);
    while rest >= fs.bpc
      invariant HasFile(fs, attr, ch', others) && OnlyIn(old(fs.data), fs.data, ch') && ch <= ch' && ok
      invariant Content(fs, attr, ch') == old(Content(fs, attr, ch))
      invariant !alloc ==> ch' == ch && fs.data == old(fs.data) && fs.Entries() == old(fs.Entries())
      invariant offset == j * fs.bpc + rest && j < |ch'| && cluster == ch'[j]
    {
      LinkInFile(fs, attr, ch', others, j);
      var entry;
      ok, entry := fs.ReadFat(cluster);
      EntryTypes(fs.fat16, entry);
      if TypeOf(fs.fat16, entry) == Data {
        cluster := entry;
      } else if alloc && TypeOf(fs.fat16, entry) == End {
        ghost var was, data := ch', fs.data;
        ok, cluster, ch' := Grow(fs, cluster, true, attr, ch', others);
        OnlyInBoth(old(fs.data), data, fs.data, was, ch');
        if !ok { return; }
      } else {
        Beyond(offset, j, rest, fs.bpc);
        return false, 0, ch';
      }
      StepOver(j, fs.bpc);
      rest := rest - fs.bpc;
      j := j + 1;
    }
    DivisionIsUnique(offset, fs.bpc, j, rest);
  }

  lemma StepOver(j: nat, bpc: nat)
    ensures (j + 1) * bpc == j * bpc + bpc
  {
  }

  lemma Beyond(offset: nat, j: nat, rest: nat, bpc: nat)
    requires bpc > 0 && offset == j * bpc + rest && rest >= bpc
    ensures offset / bpc >= j + 1
  {
    F.SectorBound(offset, j + 1, bpc);
    assert (j + 1) * bpc == j * bpc + bpc;
  }

  lemma OnlyInBoth(d0: seq<Sector>, d1: seq<Sector>, d2: seq<Sector>, ch: seq<nat>, ch': seq<nat>)
    requires OnlyIn(d0, d1, ch) && OnlyIn(d1, d2, ch') && ch <= ch'
    ensures OnlyIn(d0, d2, ch')
  {
    assert forall c :: c in ch ==> c in ch';
  }

  lemma LinkInFile(fs: Fatx, attr: Attr, ch: seq<nat>, others: set<seq<nat>>, j: nat)
    requires HasFile(fs, attr, ch, others) && j < |ch|
    ensures 2 <= ch[j] < fs.numClusters
    ensures NextOf(fs.fat16, fs.Entries(), ch[j]) == if j + 1 < |ch| then ch[j + 1] else 0
    ensures j + 1 < |ch| ==> ch[j + 1] != 0
    ensures j + 1 == |ch| ==> TypeOf(fs.fat16, fs.Entries()[ch[j]]) == End
  {
    NextInFile(fs.fat16, fs.Entries(), ch, j);
    if j + 1 < |ch| { assert IsCluster(fs.Entries(), ch[j + 1]); }
  }

  /** Part of a cluster is part of the file. */
  lemma PartOfFile(bpc: nat, data: seq<Sector>, ch: seq<nat>, j: nat, o: nat, p: nat, n: nat, size: nat)
    requires Inside(bpc, data, ch) && j < |ch| && o + n <= bpc && p == j * bpc + o
    requires p + n <= size <= |Stored(bpc, data, ch)|
    ensures data[ch[j] - 1][o..o + n] == Stored(bpc, data, ch)[..size][p..p + n]
  {
    hide F.Bytes;
    F.SliceOfSector(bpc, Clusters(bpc, data, ch), j, o, p, n);
    F.SliceOfPrefix(Stored(bpc, data, ch), size, p, p + n);
  }

  lemma InChain(offset: nat, bpc: nat, n: nat)
    requires bpc > 0 && offset < n * bpc
    ensures offset / bpc < n
  {
    F.SectorBound(offset, n, bpc);
  }

  lemma LengthOfStored(bpc: nat, data: seq<Sector>, ch: seq<nat>)
    requires Inside(bpc, data, ch)
    ensures |Stored(bpc, data, ch)| == |ch| * bpc
  {
  }

  lemma NotTheLast(fs: Fatx, attr: Attr, ch: seq<nat>, others: set<seq<nat>>, j: nat, p: nat)
    requires HasFile(fs, attr, ch, others) && At(p, j, fs.bpc, fs.bpc) && p < attr.size
    ensures j + 1 < |ch| && At(p, j + 1, fs.bpc, 0)
  {
    LengthOfStored(fs.bpc, fs.data, ch);
    StepOver(j, fs.bpc);
    AtLeast(j + 1, |ch|, fs.bpc);
  }

  /** Position `p` is byte `o` of cluster `j`. */
  ghost predicate At(p: nat, j: nat, bpc: nat, o: nat) {
    p == j * bpc + o
  }

  /** The device stands at byte `o` of the `j`-th cluster of the file. */
  ghost predicate Standing(fs: Fatx, cluster: nat, ch: seq<nat>, j: nat, o: nat)
    reads fs`devCluster, fs`devOffset
  {
    j < |ch| && cluster == ch[j] && fs.devCluster == cluster && fs.devOffset == o && 1 <= cluster < fs.numClusters
  }

  /** To the start of the next cluster of a file. */
  method MoveOn(fs: Fatx, cluster: nat, ghost attr: Attr, ghost ch: seq<nat>, ghost others: set<seq<nat>>, ghost j: nat)
    returns (ok: bool, next: nat)
    requires HasFile(fs, attr, ch, others) && j + 1 < |ch| && cluster == ch[j]
    modifies fs
    ensures HasFile(fs, attr, ch, others) && fs.data == old(fs.data) && fs.Entries() == old(fs.Entries())
    ensures ok && Standing(fs, next, ch, j + 1, 0)
  {
    hide World, Fatx.Entries, Fatx.ValidTable, Stored, Clusters, Free, Inside, NextOf, TypeOf;
    LinkInFile(fs, attr, ch, others, j);
    LinkInFile(fs, attr, ch, others, j + 1);
    ok, next := fs.GetNextCluster(cluster);
    if !ok { return; }
    ok := fs.SeekCluster(next, 0);
  }

  method ReadPiece(fs: Fatx, n: nat, ghost cluster: nat, ghost attr: Attr, ghost ch: seq<nat>,
      ghost others: set<seq<nat>>, ghost j: nat, ghost o: nat, ghost p: nat)
    returns (bytes: seq<byte>)
    requires HasFile(fs, attr, ch, others) && Standing(fs, cluster, ch, j, o) && o + n <= fs.bpc
    requires At(p, j, fs.bpc, o) && p + n <= attr.size
    modifies fs`devOffset
    ensures HasFile(fs, attr, ch, others) && Standing(fs, cluster, ch, j, o + n) && At(p + n, j, fs.bpc, o + n)
    ensures fs.data == old(fs.data) && fs.Entries() == old(fs.Entries())
        && Content(fs, attr, ch) == old(Content(fs, attr, ch))
    ensures |bytes| == n && bytes == Content(fs, attr, ch)[p..p + n]
  {
    hide World, Fatx.Entries, Fatx.ValidTable, Stored, Clusters, Free, Inside;
    PartOfFile(fs.bpc, fs.data, ch, j, o, p, n, attr.size);
    bytes := fs.DevRead(n);
  }

  /** Finding the cluster of a position and moving the device there. */
  method StandAt(fs: Fatx, attr: Attr, offset: nat, ghost ch: seq<nat>,
      ghost others: set<seq<nat>>) returns (ok: bool, cluster: nat)
    requires HasFile(fs, attr, ch, others) && offset < attr.size
    modifies fs
    ensures HasFile(fs, attr, ch, others) && fs.data == old(fs.data) && fs.Entries() == old(fs.Entries())
    ensures ok && Standing(fs, cluster, ch, offset / fs.bpc, offset % fs.bpc)
  {
    hide World, Fatx.Entries, Fatx.ValidTable, Stored, Clusters, Free, Inside, NextOf, TypeOf;
    LengthOfStored(fs.bpc, fs.data, ch);
    InChain(offset, fs.bpc, |ch|);
    ghost var ch';
    ok, cluster, ch' := FindCluster(fs, attr, offset, false, ch, others);
    LinkInFile(fs, attr, ch, others, offset / fs.bpc);
    ok := fs.SeekCluster(cluster, offset % fs.bpc);
  }

  /** `fatx_read`: the bytes from `offset` on, up to the end of the file. */
  method Read(fs: Fatx, attr: Attr, offset: nat, size: nat, ghost ch: seq<nat>, ghost others: set<seq<nat>>)
    returns (ok: bool, buf: seq<byte>)
    requires HasFile(fs, attr, ch, others)
    modifies fs
    ensures HasFile(fs, attr, ch, others) && fs.data == old(fs.data) && fs.Entries() == old(fs.Entries())
    ensures ok && |buf| == if offset >= attr.size then 0
                           else if size < attr.size - offset then size else attr.size - offset
    ensures offset < attr.size ==> buf == old(Content(fs, attr, ch))[offset..offset + |buf|]
  {
    hide World, Fatx.Entries, Fatx.ValidTable, Stored, Clusters, Free, Inside;
    ghost var c := Content(fs, attr, ch);
    ok, buf := true, [];
    if offset >= attr.size { return; }
    var cluster;
    ok, cluster := StandAt(fs, attr, offset, ch, others);
    var o: nat := offset % fs.bpc;
    ghost var j: nat := offset / fs.bpc;
    Position(offset, fs.bpc);
    var remaining := attr.size - offset;
    while true
      invariant HasFile(fs, attr, ch, others) && fs.data == old(fs.data) && fs.Entries() == old(fs.Entries()) && ok
      invariant Standing(fs, cluster, ch, j, o) && o < fs.bpc && At(offset + |buf|, j, fs.bpc, o)
      invariant |buf| <= size && remaining == attr.size - offset - |buf| >= 0
      invariant buf == c[offset..offset + |buf|]
      decreases remaining
    {
      hide HasFile, Content, Standing, At;
      if remaining == 0 { break; }
      var n := if fs.bpc - o <= size - |buf| then fs.bpc - o else size - |buf|;
      if n > remaining { n := remaining; }
      if n == 0 { break; }
      assert 0 < n <= remaining && o + n <= fs.bpc && |buf| + n <= size;
      ghost var p := offset + |buf|;
      var bytes := ReadPiece(fs, n, cluster, attr, ch, others, j, o, p);
      Adjacent(c, offset, p, p + n);
      buf := buf + bytes;
      assert p + n == offset + |buf|;
      remaining := remaining - n;
      o := o + n;
      if remaining == 0 { break; }
      if o >= fs.bpc {
        NotTheLast(fs, attr, ch, others, j, p + n);
        ok, cluster := MoveOn(fs, cluster, attr, ch, others, j);
        if !ok { return; }
        o := 0;
        j := j + 1;
      }
    }
  }

  lemma Position(p: nat, bpc: nat)
    requires bpc > 0
    ensures At(p, p / bpc, bpc, p % bpc) && p % bpc < bpc
  {
  }

  lemma Adjacent(c: seq<byte>, a: nat, b: nat, d: nat)
    requires a <= b <= d <= |c|
    ensures c[a..b] + c[b..d] == c[a..d]
  {
  }

  // ---------------------------------------------------------------- writing

  ghost function Max(a: nat, b: nat): nat {
    if a < b then b else a
  }

  /** Bytes written where the device stands, at position `p` of the file. */
  method WritePiece(fs: Fatx, bytes: seq<byte>, ghost cluster: nat, ghost attr: Attr, ghost ch: seq<nat>,
      ghost others: set<seq<nat>>, ghost j: nat, ghost o: nat, ghost p: nat)
    returns (ghost attr': Attr)
    requires HasFile(fs, attr, ch, others) && Standing(fs, cluster, ch, j, o) && o + |bytes| <= fs.bpc
    requires At(p, j, fs.bpc, o) && p <= attr.size
    modifies fs`data, fs`devOffset
    ensures attr' == attr.(size := Max(attr.size, p + |bytes|)) && HasFile(fs, attr', ch, others)
    ensures Standing(fs, cluster, ch, j, o + |bytes|) && At(p + |bytes|, j, fs.bpc, o + |bytes|)
    ensures OnlyIn(old(fs.data), fs.data, ch) && fs.Entries() == old(fs.Entries())
    ensures Content(fs, attr', ch) == F.Splice(old(Content(fs, attr, ch)), p, bytes)
  {
    hide Fatx.Entries, Fatx.ValidTable, Stored, Clusters, Free, FileChain, AllChains, Patched, F.Splice;
    DistinctChain(fs.fat16, fs.Entries(), ch, others);
    StoredPatched(fs.bpc, fs.data, ch, j, o, bytes, attr.size, p);
    fs.DevWrite(bytes);
    attr' := attr.(size := Max(attr.size, p + |bytes|));
  }

  lemma DistinctChain(fat16: bool, e: seq<nat>, ch: seq<nat>, others: set<seq<nat>>)
    requires World(fat16, e, ch, others)
    ensures Distinct(ch)
  {
  }

  /** The next cluster of a file, or a new one at its end. */
  method NextOrNew(fs: Fatx, cluster: nat, zero: bool, ghost attr: Attr, ghost ch: seq<nat>,
      ghost others: set<seq<nat>>, ghost j: nat)
    returns (ok: bool, next: nat, ghost ch': seq<nat>)
    requires HasFile(fs, attr, ch, others) && j < |ch| && cluster == ch[j]
    modifies fs
    ensures HasFile(fs, attr, ch', others) && OnlyIn(old(fs.data), fs.data, ch')
    ensures Content(fs, attr, ch') == old(Content(fs, attr, ch))
    ensures ch' == ch ==> fs.data == old(fs.data)
    ensures forall c :: 0 <= c <= fs.numClusters && c !in ch' ==> fs.Entries()[c] == old(fs.Entries())[c]
    ensures if ok then j + 1 < |ch'| && next == ch'[j + 1] && ch' == if j + 1 < |ch| then ch else ch + [next]
            else Full(fs) && ch' == ch
    ensures zero && ch' != ch ==> Wiped(old(fs.data), fs.data, next)
  {
    hide World, Fatx.Entries, Fatx.ValidTable, Stored, Clusters, Free, Inside, FileChain, TypeOf, NextOf, Wiped;
    LinkInFile(fs, attr, ch, others, j);
    ch' := ch;
    ok, next := fs.GetNextCluster(cluster);
    if !ok {
      ok, next, ch' := Grow(fs, cluster, zero, attr, ch, others);
    }
  }

  /** The loop of `fatx_write`; `w` bytes have been written when it ends. */
  method WriteClusters(fs: Fatx, cluster0: nat, offset: nat, buf: seq<byte>, ghost attr: Attr, ghost ch: seq<nat>,
      ghost others: set<seq<nat>>)
    returns (ok: bool, ghost w: nat, ghost attr': Attr, ghost ch': seq<nat>)
    requires HasFile(fs, attr, ch, others) && offset <= attr.size
    requires Standing(fs, cluster0, ch, offset / fs.bpc, offset % fs.bpc)
    modifies fs
    ensures w <= |buf| && attr' == attr.(size := Max(attr.size, offset + w)) && HasFile(fs, attr', ch', others)
    ensures OnlyIn(old(fs.data), fs.data, ch') && ch <= ch'
    ensures Content(fs, attr', ch') == F.Splice(old(Content(fs, attr, ch)), offset, buf[..w])
    ensures if ok then w == |buf| else Full(fs)
  {
    hide World, Fatx.Entries, Fatx.ValidTable, Stored, Clusters, Free, Inside, F.Splice;
    ghost var c0, data0 := Content(fs, attr, ch), fs.data;
    Position(offset, fs.bpc);
    F.SpliceNothing(c0, offset);
    ok, w, attr', ch' := true, 0, attr, ch;
    var cluster, total, o: nat := cluster0, 0, offset % fs.bpc;
    ghost var j: nat := offset / fs.bpc;
    assert buf[..0] == [];
    while true
      invariant HasFile(fs, attr', ch', others) && OnlyIn(data0, fs.data, ch') && ch <= ch' && ok
      invariant Standing(fs, cluster, ch', j, o) && o < fs.bpc && At(offset + total, j, fs.bpc, o)
      invariant 0 <= total <= |buf| && attr' == attr.(size := Max(attr.size, offset + total)) && w == total
      invariant Content(fs, attr', ch') == F.Splice(c0, offset, buf[..total])
      decreases |buf| - total
    {
      hide HasFile, Content, Standing, At, OnlyIn, Full;
      var n := if fs.bpc - o <= |buf| - total then fs.bpc - o else |buf| - total;
      if n > 0 {
        ghost var data := fs.data;
        attr' := WritePiece(fs, buf[total..total + n], cluster, attr', ch', others, j, o, offset + total);
        F.SpliceTwice(c0, offset, buf[..total], buf[total..total + n]);
        assert buf[..total] + buf[total..total + n] == buf[..total + n];
        OnlyInBoth(data0, data, fs.data, ch', ch');
        total, o, w := total + n, o + n, total + n;
      }
      if |buf| - total == 0 { break; }
      if o >= fs.bpc {
        ghost var was, data := ch', fs.data;
        ok, cluster, ch' := NextToWrite(fs, cluster, |buf| - total < fs.bpc, attr', ch', others, j, offset + total);
        OnlyInBoth(data0, data, fs.data, was, ch');
        if !ok { return; }
        o := 0;
        j := j + 1;
      }
    }
  }

  method NextToWrite(fs: Fatx, cluster: nat, zero: bool, ghost attr: Attr, ghost ch: seq<nat>,
      ghost others: set<seq<nat>>, ghost j: nat, ghost p: nat)
    returns (ok: bool, next: nat, ghost ch': seq<nat>)
    requires HasFile(fs, attr, ch, others) && Standing(fs, cluster, ch, j, fs.bpc) && At(p, j, fs.bpc, fs.bpc)
    modifies fs
    ensures HasFile(fs, attr, ch', others) && OnlyIn(old(fs.data), fs.data, ch') && ch <= ch'
    ensures Content(fs, attr, ch') == old(Content(fs, attr, ch))
    ensures if ok then Standing(fs, next, ch', j + 1, 0) && At(p, j + 1, fs.bpc, 0) else Full(fs)
  {
    hide World, Fatx.Entries, Fatx.ValidTable, Stored, Clusters, Free, Inside, NextOf, TypeOf;
    ok, next, ch' := NextOrNew(fs, cluster, zero, attr, ch, others, j);
    if ok {
      StepOver(j, fs.bpc);
      LinkInFile(fs, attr, ch', others, j + 1);
      ok := fs.SeekCluster(next, 0);
    }
  }

  // ---------------------------------------------------------------- truncating

  /** The fewest clusters, but at least one, that hold `n` bytes. */
  ghost predicate Fewest(k: nat, n: nat, bpc: nat) {
    k >= 1 && n <= k * bpc && (k == 1 || (k - 1) * bpc < n)
  }

  /** All clusters of `ch` from the `k`-th on are free. */
  ghost predicate Released(e: seq<nat>, ch: seq<nat>, k: nat) {
    forall i :: k <= i < |ch| ==> 0 <= ch[i] < |e| && e[ch[i]] == 0
  }

  /** Entries outside two chains are as before. */
  ghost predicate EntriesKept(e: seq<nat>, e': seq<nat>, ch: seq<nat>, ch': seq<nat>) {
    |e'| == |e| && forall c :: 0 <= c < |e| && c !in ch && c !in ch' ==> e'[c] == e[c]
  }

  /** Frees what follows the first `k` clusters of a file and marks its end. */
  method CutFile(fs: Fatx, cluster: nat, ghost attr: Attr, ghost ch: seq<nat>, ghost others: set<seq<nat>>,
      ghost k: nat)
    requires HasFile(fs, attr, ch, others) && 0 < k <= |ch| && cluster == ch[k - 1]
    modifies fs`disk, fs`cache, fs`position, fs`loaded, fs`dirty, fs`devCluster, fs`devOffset
    ensures fs.Valid() && World(fs.fat16, fs.Entries(), ch[..k], others)
    ensures Released(fs.Entries(), ch, k) && EntriesKept(old(fs.Entries()), fs.Entries(), ch, ch)
  {
    hide World, Fatx.Entries, Fatx.ValidTable, Stored, Clusters, Inside, FileChain, TypeOf, NextOf, FreedFrom, Cleared;
    ghost var e := fs.Entries();
    LinkInFile(fs, attr, ch, others, k - 1);
    CutEntries(fs.fat16, e, ch, others, k);
    var ok, next := fs.GetNextCluster(cluster);
    if ok { fs.FreeClusterChain(next); }
    fs.MarkEnd(cluster);
  }

  lemma CutEntries(fat16: bool, e: seq<nat>, ch: seq<nat>, others: set<seq<nat>>, k: nat)
    requires World(fat16, e, ch, others) && 0 < k <= |ch| && |e| <= Limit(fat16) - 16
    requires forall c :: 0 <= c < |e| ==> e[c] < Limit(fat16)
    ensures ch[k - 1] < |e|
    ensures var cut := if k < |ch| then FreedFrom(fat16, e, ch[k]) else e;
            var e' := cut[ch[k - 1] := EndMark(fat16)];
            World(fat16, e', ch[..k], others) && Released(e', ch, k) && EntriesKept(e, e', ch, ch)
  {
    assert IsCluster(e, ch[k - 1]);
    if k < |ch| {
      RestOfChain(fat16, e, ch, k);
      FreedIsCleared(fat16, e, ch[k..]);
      CutWorld(fat16, e, ch, others, k);
      var e' := Cleared(e, ch[k..])[ch[k - 1] := EndMark(fat16)];
      forall i | k <= i < |ch|
        ensures 0 <= ch[i] < |e| && e'[ch[i]] == 0
      {
        assert IsCluster(e, ch[i]) && ch[k..][i - k] == ch[i];
      }
      assert forall c :: c in ch[k..] ==> c in ch;
      assert ch[k - 1] in ch;
    } else {
      assert e[ch[k - 1] := EndMark(fat16)] == e && ch[..k] == ch;
    }
  }

  /** The loop of `fatx_truncate`: walks to the last cluster that is needed, adding what is
      missing. */
  method WalkTo(fs: Fatx, n: nat, ghost attr: Attr, first: nat, ghost ch: seq<nat>, ghost others: set<seq<nat>>)
    returns (ok: bool, cluster: nat, ghost k: nat, ghost ch': seq<nat>)
    requires HasFile(fs, attr, ch, others) && first == attr.first
    modifies fs
    ensures HasFile(fs, attr, ch', others) && OnlyIn(old(fs.data), fs.data, ch') && ch <= ch'
    ensures Content(fs, attr, ch') == old(Content(fs, attr, ch))
    ensures ch' == ch ==> fs.data == old(fs.data)
    ensures EntriesKept(old(fs.Entries()), fs.Entries(), ch, ch')
    ensures if ok then
              0 < k <= |ch'| && cluster == ch'[k - 1] && Fewest(k, n, fs.bpc) && (k == |ch'| || ch' == ch)
            else Full(fs)
    ensures BlankFrom(fs.data, ch', |ch|)
  {
    hide World, Fatx.Entries, Fatx.ValidTable, Stored, Clusters, Free, Inside;
    var enc := 1;
    ok, cluster, k, ch' := true, first, 1, ch;
    StartOfFile(fs, attr, ch, others);
    while enc * fs.bpc < n
      invariant HasFile(fs, attr, ch', others) && OnlyIn(old(fs.data), fs.data, ch') && ch <= ch' && ok
      invariant Content(fs, attr, ch') == old(Content(fs, attr, ch))
      invariant ch' == ch ==> fs.data == old(fs.data)
      invariant EntriesKept(old(fs.Entries()), fs.Entries(), ch, ch')
      invariant BlankFrom(fs.data, ch', |ch|)
      invariant enc == k && 0 < k <= |ch'| && cluster == ch'[k - 1] && (k == |ch'| || ch' == ch)
      invariant k == 1 || (k - 1) * fs.bpc < n
      decreases n - enc * fs.bpc
    {
      hide HasFile, Content, OnlyIn, Full, BlankFrom, Wiped;
      ghost var was, data := ch', fs.data;
      HasBytes(fs, attr, ch', others);
      ok, cluster, ch' := NextOrNew(fs, cluster, true, attr, ch', others, k - 1);
      OnlyInBoth(old(fs.data), data, fs.data, was, ch');
      if ch' != was { BlankAfter(data, fs.data, was, cluster, |ch|); }
      if !ok { return; }
      StepOver(enc, fs.bpc);
      enc := enc + 1;
      k := k + 1;
    }
  }

  lemma StartOfFile(fs: Fatx, attr: Attr, ch: seq<nat>, others: set<seq<nat>>)
    requires HasFile(fs, attr, ch, others)
    ensures |ch| > 0 && attr.first == ch[0]
  {
  }

  lemma HasBytes(fs: Fatx, attr: Attr, ch: seq<nat>, others: set<seq<nat>>)
    requires HasFile(fs, attr, ch, others)
    ensures fs.bpc > 0
  {
  }

  /** `fatx_truncate`: the file gets `n` bytes in as few clusters as hold them. The clusters it
      does not need any more are free then, and what is common to both lengths stays. */
  method Truncate(fs: Fatx, attr: Attr, n: nat, ghost ch: seq<nat>, ghost others: set<seq<nat>>)
    returns (ok: bool, attr': Attr, ghost ch': seq<nat>)
    requires HasFile(fs, attr, ch, others)
    modifies fs
    ensures HasFile(fs, attr', ch', others) && OnlyIn(old(fs.data), fs.data, ch') && (ch <= ch' || ch' <= ch)
    ensures EntriesKept(old(fs.Entries()), fs.Entries(), ch, ch')
    ensures BlankFrom(fs.data, ch', |ch|)
    ensures ok ==> attr' == attr.(size := n) && Fewest(|ch'|, n, fs.bpc) && Released(fs.Entries(), ch, |ch'|)
    ensures ok ==> forall i :: 0 <= i < n && i < attr.size ==>
        Content(fs, attr', ch')[i] == old(Content(fs, attr, ch))[i]
    ensures !ok ==> Full(fs) && attr' == attr && ch <= ch' && Content(fs, attr, ch') == old(Content(fs, attr, ch))
  {
    hide World, Fatx.Entries, Fatx.ValidTable, Stored, Clusters, Free, Inside, Released, EntriesKept;
    var cluster;
    ghost var k;
    ok, cluster, k, ch' := WalkTo(fs, n, attr, attr.first, ch, others);
    attr' := attr;
    if !ok { return; }
    ghost var long, e, c1 := ch', fs.Entries(), Stored(fs.bpc, fs.data, ch');
    CutFile(fs, cluster, attr, long, others, k);
    ch' := long[..k];
    attr' := attr.(size := n);
    KeptBoth(old(fs.Entries()), e, fs.Entries(), ch, long, k);
    ReleasedAlso(fs.Entries(), ch, long, k);
    StoredCut(fs.bpc, fs.data, long, k, n);
    LengthOfStored(fs.bpc, fs.data, ch');
  }

  lemma KeptBoth(e0: seq<nat>, e1: seq<nat>, e2: seq<nat>, ch: seq<nat>, long: seq<nat>, k: nat)
    requires EntriesKept(e0, e1, ch, long) && EntriesKept(e1, e2, long, long)
    requires k <= |long| && (k == |long| || long == ch)
    ensures EntriesKept(e0, e2, ch, long[..k])
  {
    if k == |long| { assert long[..k] == long; }
  }

  lemma ReleasedAlso(e: seq<nat>, ch: seq<nat>, long: seq<nat>, k: nat)
    requires Released(e, long, k) && ch <= long
    ensures Released(e, ch, k)
  {
  }

  // ---------------------------------------------------------------- writing anywhere

  /** Bytes of `c` before its end and outside [p, p + n) are in `c'` too. */
  ghost predicate KeptAround(c: seq<byte>, c': seq<byte>, p: nat, n: nat) {
    forall i :: 0 <= i < |c| && !(p <= i < p + n) ==> i < |c'| && c'[i] == c[i]
  }

  lemma SpliceKeeps(c: seq<byte>, p: nat, d: seq<byte>, d0: seq<byte>, n: nat)
    requires p <= |c| && d <= d0 && n <= |F.Splice(c, p, d)| && |c| <= n
    ensures KeptAround(c, F.Splice(c, p, d)[..n], p, |d0|)
  {
  }

  lemma SpliceHolds(c: seq<byte>, p: nat, d: seq<byte>)
    requires p <= |c|
    ensures p + |d| <= |F.Splice(c, p, d)| && F.Splice(c, p, d)[p..p + |d|] == d
    ensures KeptAround(c, F.Splice(c, p, d), p, |d|)
  {
  }

  /** A file seen with a smaller size. */
  lemma Smaller(fs: Fatx, attr: Attr, size: nat, ch: seq<nat>, others: set<seq<nat>>)
    requires HasFile(fs, attr, ch, others) && size <= attr.size
    ensures HasFile(fs, attr.(size := size), ch, others)
    ensures Content(fs, attr.(size := size), ch) == Content(fs, attr, ch)[..size]
  {
  }

  /** `fatx_write` at a position up to the end of the file. */
  method WriteInFile(fs: Fatx, attr: Attr, offset: nat, buf: seq<byte>, ghost ch: seq<nat>, ghost others: set<seq<nat>>)
    returns (ok: bool, attr': Attr, ghost ch': seq<nat>)
    requires HasFile(fs, attr, ch, others) && offset <= attr.size
    modifies fs
    ensures HasFile(fs, attr', ch', others) && OnlyIn(old(fs.data), fs.data, ch') && ch <= ch'
    ensures ok ==> attr' == attr.(size := Max(attr.size, offset + |buf|))
    ensures ok ==> Content(fs, attr', ch') == F.Splice(old(Content(fs, attr, ch)), offset, buf)
    ensures !ok ==> Full(fs) && attr' == attr
    ensures KeptAround(old(Content(fs, attr, ch)), Content(fs, attr', ch'), offset, |buf|)
  {
    hide World, Fatx.Entries, Fatx.ValidTable, Stored, Clusters, Free, Inside, F.Splice, KeptAround;
    ghost var c0 := Content(fs, attr, ch);
    attr' := attr;
    var cluster;
    ok, cluster, ch' := FindCluster(fs, attr, offset, true, ch, others);
    F.SpliceNothing(c0, offset);
    SpliceKeeps(c0, offset, [], buf, |c0|);
    assert c0[..|c0|] == c0;
    if !ok { return; }
    LinkInFile(fs, attr, ch', others, offset / fs.bpc);
    ok := fs.SeekCluster(cluster, offset % fs.bpc);
    ghost var mid, data := ch', fs.data;
    ghost var w, now;
    ok, w, now, ch' := WriteClusters(fs, cluster, offset, buf, attr, mid, others);
    OnlyInBoth(old(fs.data), data, fs.data, mid, ch');
    if ok {
      assert buf[..w] == buf;
      SpliceHolds(c0, offset, buf);
      if offset + |buf| > attr.size { attr' := attr.(size := attr.size + (offset + |buf| - attr.size)); }
      assert attr' == now;
    } else {
      Smaller(fs, now, attr.size, ch', others);
      SpliceKeeps(c0, offset, buf[..w], buf, attr.size);
      assert now.(size := attr.size) == attr;
    }
  }

  /** `fatx_write`. At or before the end of the file the given bytes take the place of the old
      ones or make the file longer. Past the end the file is first made one byte longer than
      `offset`, and the bytes in the gap are left unspecified. It fails only when no cluster is
      free; the size is then the old one, or that of the file made longer. */
  method Write(fs: Fatx, attr: Attr, offset: nat, buf: seq<byte>, ghost ch: seq<nat>, ghost others: set<seq<nat>>)
    returns (ok: bool, attr': Attr, ghost ch': seq<nat>)
    requires HasFile(fs, attr, ch, others)
    modifies fs
    ensures HasFile(fs, attr', ch', others) && OnlyIn(old(fs.data), fs.data, ch')
    ensures ok ==> attr' == attr.(size := Max(if offset > attr.size then offset + 1 else attr.size, offset + |buf|))
    ensures ok && offset <= attr.size ==> Content(fs, attr', ch') == F.Splice(old(Content(fs, attr, ch)), offset, buf)
    ensures ok ==> Content(fs, attr', ch')[offset..offset + |buf|] == buf
    ensures !ok ==> Full(fs) && (attr' == attr || (offset > attr.size && attr' == attr.(size := offset + 1)))
    ensures KeptAround(old(Content(fs, attr, ch)), Content(fs, attr', ch'), offset, |buf|)
  {
    hide World, Fatx.Entries, Fatx.ValidTable, Stored, Clusters, Free, Inside, F.Splice, EntriesKept, Released, Fewest;
    ok, attr', ch' := true, attr, ch;
    if offset > attr.size {
      ok, attr', ch' := Truncate(fs, attr, offset + 1, ch, others);
      if !ok { return; }
    }
    ghost var c1, mid, data := Content(fs, attr', ch'), ch', fs.data;
    ok, attr', ch' := WriteInFile(fs, attr', offset, buf, mid, others);
    OnlyInBoth(old(fs.data), data, fs.data, mid, ch');
    if ok { SpliceHolds(c1, offset, buf); }
  }

  /** What one file does, no other sees: writing leaves the contents of all other files alone. */
  lemma OtherContents(fs: Fatx, data: seq<Sector>, attr: Attr, ch: seq<nat>, others: set<seq<nat>>, other: Attr,
      o: seq<nat>)
    requires HasFile(fs, attr, ch, others) && o in others && OnlyIn(data, fs.data, ch)
    requires Inside(fs.bpc, data, o) && other.size <= |Stored(fs.bpc, data, o)|
    ensures Inside(fs.bpc, fs.data, o) && other.size <= |Stored(fs.bpc, fs.data, o)|
    ensures Content(fs, other, o) == Stored(fs.bpc, data, o)[..other.size]
  {
    OthersKept(fs.fat16, fs.Entries(), fs.bpc, data, fs.data, ch, others, o);
  }

  /** A read after a write gives the bytes written. */
  method WriteThenRead(fs: Fatx, attr: Attr, offset: nat, buf: seq<byte>, ghost ch: seq<nat>,
      ghost others: set<seq<nat>>)
    returns (ok: bool, back: seq<byte>)
    requires HasFile(fs, attr, ch, others) && buf != []
    modifies fs
    ensures ok ==> back == buf
  {
    var attr';
    ghost var ch';
    back := [];
    ok, attr', ch' := Write(fs, attr, offset, buf, ch, others);
    if ok {
      ghost var c := Content(fs, attr', ch');
      ok, back := Read(fs, attr', offset, |buf|, ch', others);
    }
  }
}
