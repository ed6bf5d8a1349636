/** Reading, writing and seeking in one open file of a FAT volume (`f_read`, `f_write`, `f_lseek`
    and the data part of `f_sync`), with the private sector buffer of the file object. */
module FatFile {
  import opened FatWindow
  import opened FatChain

  const MAX_SIZE := 0xFFFF_FFFF

  function Min(a: int, b: int): int {
    if a < b then a else b
  }

  // ---------------------------------------------------------------- positions

  /** Sector sizes of the volume and where its data area starts. */
  datatype Geometry = Geometry(ss: nat, csize: nat, database: nat) {
    ghost predicate Valid() {
      ss > 0 && csize > 0 && database > 0
    }

    /** Bytes in a cluster. */
    function Bcs(): nat {
      csize * ss
    }

    /** The sector of the data area that holds sector `k` of a cluster. */
    function DataSector(c: nat, k: nat): int {
      csize * (c - 2) + k
    }
  }

  /** Cluster of a chain and sector in it for the `n`-th sector of a file. */
  function ClusterOf(g: Geometry, n: nat): nat
    requires g.Valid()
  {
    n / g.csize
  }

  function SectorIn(g: Geometry, n: nat): (r: nat)
    requires g.Valid()
    ensures r < g.csize
  {
    n % g.csize
  }

  /** The sector of the data area that holds the `n`-th sector of the file with the chain `ch`. */
  function Place(g: Geometry, ch: seq<nat>, n: nat): int
    requires g.Valid() && ClusterOf(g, n) < |ch|
  {
    g.DataSector(ch[ClusterOf(g, n)], SectorIn(g, n))
  }

  lemma ClusterBound(g: Geometry, n: nat, clusters: nat)
    requires g.Valid()
    ensures n < Count(g, clusters) <==> ClusterOf(g, n) < clusters
  {
    var q := n / g.csize;
    assert n == q * g.csize + n % g.csize;
    AtLeast(q, clusters, g.csize);
    AtLeast(clusters, q + 1, g.csize);
    assert (q + 1) * g.csize == q * g.csize + g.csize;
  }

  /** Different sectors of a file are at different places of the data area. */
  lemma PlacesDiffer(g: Geometry, ch: seq<nat>, n: nat, m: nat)
    requires g.Valid() && ClusterOf(g, n) < |ch| && ClusterOf(g, m) < |ch| && Distinct(ch)
    ensures Place(g, ch, n) == Place(g, ch, m) ==> n == m
  {
    var a := ch[ClusterOf(g, n)] as int - 2;
    var b := ch[ClusterOf(g, m)] as int - 2;
    var d := SectorIn(g, m) - SectorIn(g, n);
    assert n == n / g.csize * g.csize + n % g.csize && m == m / g.csize * g.csize + m % g.csize;
    if Place(g, ch, n) == Place(g, ch, m) {
      assert (a - b) * g.csize == d by {
        assert g.csize * a - g.csize * b == d;
        assert (a - b) * g.csize == g.csize * a - g.csize * b;
      }
      MultipleBounds(a - b, g.csize);
    }
  }

  lemma PlaceInData(g: Geometry, ch: seq<nat>, n: nat, fatents: nat)
    requires g.Valid() && ClusterOf(g, n) < |ch| && 2 <= ch[ClusterOf(g, n)] < fatents
    ensures 0 <= Place(g, ch, n) < g.csize * (fatents - 2)
  {
    var c := ch[ClusterOf(g, n)] - 2;
    AtLeast(fatents - 2, c + 1, g.csize);
    assert (c + 1) * g.csize == g.csize * c + g.csize && (fatents - 2) * g.csize == g.csize * (fatents - 2);
  }

  // ---------------------------------------------------------------- sectors of a file

  /** Every sector of the chain has its place in the data area. */
  ghost predicate Placed(g: Geometry, data: seq<Sector>, ch: seq<nat>) {
    && g.Valid() && Distinct(ch)
    && (forall k :: 0 <= k < |data| ==> |data[k]| == g.ss)
    && forall n: nat :: ClusterOf(g, n) < |ch| ==> 0 <= Place(g, ch, n) < |data|
  }

  ghost function SectorOrBuffer(g: Geometry, data: seq<Sector>, ch: seq<nat>, held: int, buf: Sector,
      n: nat): (s: Sector)
    requires Placed(g, data, ch) && |buf| == g.ss && ClusterOf(g, n) < |ch|
    ensures |s| == g.ss
  {
    if n == held then buf else data[Place(g, ch, n)]
  }

  /** Number of sectors of `n` clusters. */
  function Count(g: Geometry, n: nat): nat {
    n * g.csize
  }

  /** Number of bytes of `n` clusters. */
  function Room(g: Geometry, n: nat): nat {
    n * g.Bcs()
  }

  /** The sectors of a file: those of its chain in the data area, except that sector `held` is
      the one in the buffer. */
  ghost function SectorsOf(g: Geometry, data: seq<Sector>, ch: seq<nat>, held: int, buf: Sector): (r: seq<Sector>)
    requires Placed(g, data, ch) && |buf| == g.ss
    ensures |r| == Count(g, |ch|) && forall n :: 0 <= n < |r| ==> |r[n]| == g.ss
  {
    seq(Count(g, |ch|), n requires 0 <= n < Count(g, |ch|) =>
      ClusterBound(g, n, |ch|); SectorOrBuffer(g, data, ch, held, buf, n))
  }

  lemma SectorAt(g: Geometry, data: seq<Sector>, ch: seq<nat>, held: int, buf: Sector, n: nat)
    requires Placed(g, data, ch) && |buf| == g.ss && n < Count(g, |ch|)
    ensures ClusterOf(g, n) < |ch| && 0 <= Place(g, ch, n) < |data|
    ensures SectorsOf(g, data, ch, held, buf)[n] == if n == held then buf else data[Place(g, ch, n)]
  {
    ClusterBound(g, n, |ch|);
  }

  /** Storing a sector in the data area changes that sector of the file and no other, unless
      the buffer covers it. */
  lemma StoredSector(g: Geometry, data: seq<Sector>, ch: seq<nat>, held: int, buf: Sector, n: nat, s: Sector)
    requires Placed(g, data, ch) && |buf| == g.ss && |s| == g.ss && n < Count(g, |ch|)
    ensures ClusterOf(g, n) < |ch| && 0 <= Place(g, ch, n) < |data|
    ensures var data' := data[Place(g, ch, n) := s];
            && Placed(g, data', ch)
            && SectorsOf(g, data', ch, held, buf)
               == if n == held then SectorsOf(g, data, ch, held, buf) else SectorsOf(g, data, ch, held, buf)[n := s]
  {
    hide Place, ClusterOf, SectorsOf;
    SectorAt(g, data, ch, held, buf, n);
    var data' := data[Place(g, ch, n) := s];
    assert Placed(g, data', ch);
    var old_, new_ := SectorsOf(g, data, ch, held, buf), SectorsOf(g, data', ch, held, buf);
    forall m: nat | m < Count(g, |ch|)
      ensures new_[m] == if n == held then old_[m] else old_[n := s][m]
    {
      SectorAt(g, data, ch, held, buf, m);
      SectorAt(g, data', ch, held, buf, m);
      if m != n { PlacesDiffer(g, ch, n, m); }
    }
    assert new_ == if n == held then old_ else old_[n := s];
  }

  /** Changing the buffer changes the sector it holds. */
  lemma ChangedBuffer(g: Geometry, data: seq<Sector>, ch: seq<nat>, held: nat, buf: Sector, buf': Sector)
    requires Placed(g, data, ch) && |buf| == |buf'| == g.ss && held < Count(g, |ch|)
    ensures SectorsOf(g, data, ch, held, buf') == SectorsOf(g, data, ch, held, buf)[held := buf']
  {
  }

  /** A buffer that agrees with the data area does not matter. */
  lemma CleanBuffer(g: Geometry, data: seq<Sector>, ch: seq<nat>, held: int, buf: Sector, buf': Sector)
    requires Placed(g, data, ch) && |buf| == |buf'| == g.ss
    requires 0 <= held < Count(g, |ch|) ==>
               ClusterOf(g, held) < |ch| && 0 <= Place(g, ch, held) < |data| && data[Place(g, ch, held)] == buf
    ensures SectorsOf(g, data, ch, held, buf) == SectorsOf(g, data, ch, -1, buf')
  {
  }

  /** A longer chain has the sectors of the shorter one, and more. */
  lemma GrownFile(g: Geometry, data: seq<Sector>, ch: seq<nat>, c: nat, held: int, buf: Sector)
    requires Placed(g, data, ch) && Placed(g, data, ch + [c]) && |buf| == g.ss
    ensures Count(g, |ch|) <= Count(g, |ch + [c]|)
    ensures SectorsOf(g, data, ch + [c], held, buf)[..Count(g, |ch|)] == SectorsOf(g, data, ch, held, buf)
  {
    var a, b := SectorsOf(g, data, ch, held, buf), SectorsOf(g, data, ch + [c], held, buf);
    AtLeast(|ch + [c]|, |ch|, g.csize);
    forall n: nat | n < Count(g, |ch|)
      ensures b[n] == a[n]
    {
      SectorAt(g, data, ch, held, buf, n);
      SectorAt(g, data, ch + [c], held, buf, n);
      assert Place(g, ch + [c], n) == Place(g, ch, n);
    }
    assert b[..Count(g, |ch|)] == a;
  }

  /** The clusters of a terminated chain are in the data area. */
  lemma ChainPlaced(g: Geometry, data: seq<Sector>, e: seq<nat>, ch: seq<nat>)
    requires g.Valid() && |e| >= 2 && |data| == g.csize * (|e| - 2)
    requires (forall k :: 0 <= k < |data| ==> |data[k]| == g.ss) && (ch == [] || IsChain(e, ch))
    ensures Placed(g, data, ch)
  {
    forall n: nat | ClusterOf(g, n) < |ch|
      ensures 0 <= Place(g, ch, n) < |data|
    {
      assert IsCluster(e, ch[ClusterOf(g, n)]);
      PlaceInData(g, ch, n, |e|);
    }
  }

  // ---------------------------------------------------------------- the rest of the volume

  /** Sector `i` of the data area is none of those of the chain. */
  ghost predicate Apart(g: Geometry, ch: seq<nat>, i: int)
    requires g.Valid()
  {
    forall n: nat :: ClusterOf(g, n) < |ch| ==> Place(g, ch, n) != i
  }

  /** Only sectors of the chain have changed. */
  ghost predicate DataKept(g: Geometry, ch: seq<nat>, d: seq<Sector>, d': seq<Sector>) {
    g.Valid() && |d'| == |d| && forall i :: 0 <= i < |d| && Apart(g, ch, i) ==> d'[i] == d[i]
  }

  /** The chain has grown from `ch` to `ch'` by clusters that were free, and only entries of its
      own clusters have changed. */
  ghost predicate FatKept(ch: seq<nat>, ch': seq<nat>, e: seq<nat>, e': seq<nat>) {
    && ch <= ch' && |e'| == |e|
    && (forall c :: 0 <= c < |e| && c !in ch' ==> e'[c] == e[c])
    && forall i :: |ch| <= i < |ch'| ==> ch'[i] < |e| && e[ch'[i]] == 0
  }

  lemma DataKeptTwice(g: Geometry, ch: seq<nat>, ch': seq<nat>, d0: seq<Sector>, d1: seq<Sector>, d2: seq<Sector>)
    requires DataKept(g, ch, d0, d1) && DataKept(g, ch', d1, d2) && ch <= ch'
    ensures DataKept(g, ch', d0, d2)
  {
    forall i | 0 <= i < |d0| && Apart(g, ch', i)
      ensures d2[i] == d0[i]
    {
      forall n: nat | ClusterOf(g, n) < |ch|
        ensures Place(g, ch, n) != i
      {
        assert Place(g, ch', n) == Place(g, ch, n);
      }
      assert Apart(g, ch, i);
    }
  }

  lemma LaterIsNew(ch: seq<nat>, ch': seq<nat>, i: nat)
    requires Distinct(ch') && ch <= ch' && |ch| <= i < |ch'|
    ensures ch'[i] !in ch
  {
    assert forall k :: 0 <= k < |ch| ==> ch[k] == ch'[k];
  }

  lemma FatKeptTwice(ch0: seq<nat>, ch1: seq<nat>, ch2: seq<nat>, e0: seq<nat>, e1: seq<nat>, e2: seq<nat>)
    requires FatKept(ch0, ch1, e0, e1) && FatKept(ch1, ch2, e1, e2) && Distinct(ch2)
    ensures FatKept(ch0, ch2, e0, e2)
  {
    assert forall c :: c in ch1 ==> c in ch2;
    forall i | |ch0| <= i < |ch2|
      ensures ch2[i] < |e0| && e0[ch2[i]] == 0
    {
      if i >= |ch1| { LaterIsNew(ch1, ch2, i); }
    }
  }

  /** `ch` is the chain of a file, which may have none. */
  ghost predicate IsFileChain(e: seq<nat>, ch: seq<nat>) {
    ch == [] || IsChain(e, ch)
  }

  /** A file grows only by free clusters and no others get free: what it has gained the volume
      has lost. */
  lemma Conservation(ch: seq<nat>, ch': seq<nat>, e: seq<nat>, e': seq<nat>)
    requires FatKept(ch, ch', e, e') && IsFileChain(e, ch) && IsFileChain(e', ch')
    ensures |ch'| + |Zeros(e')| == |ch| + |Zeros(e)|
  {
    hide FatKept, IsFileChain, IsChain;
    AddedClusters(ch, ch', e, e');
    var added := ch'[|ch|..];
    forall c: nat
      ensures c in Zeros(e') <==> c in Zeros(e) && c !in added
    {
      FreeAfter(ch, ch', e, e', c);
    }
    GainedCount(added);
    assert Zeros(e') == Zeros(e) - Members(added) && Members(added) <= Zeros(e);
  }

  lemma AddedClusters(ch: seq<nat>, ch': seq<nat>, e: seq<nat>, e': seq<nat>)
    requires FatKept(ch, ch', e, e') && IsFileChain(e', ch')
    ensures |ch| <= |ch'| && Distinct(ch'[|ch|..])
    ensures forall c :: c in ch'[|ch|..] ==> c in Zeros(e)
  {
    forall i | 0 <= i < |ch'[|ch|..]|
      ensures ch'[|ch|..][i] in Zeros(e)
    {
      assert ch'[|ch|..][i] == ch'[|ch| + i];
      assert IsCluster(e', ch'[|ch| + i]);
    }
  }

  lemma FreeAfter(ch: seq<nat>, ch': seq<nat>, e: seq<nat>, e': seq<nat>, c: nat)
    requires FatKept(ch, ch', e, e') && IsFileChain(e, ch) && IsFileChain(e', ch') && |ch| <= |ch'|
    ensures c in Zeros(e') <==> c in Zeros(e) && c !in ch'[|ch|..]
  {
    if c in ch' {
      OwnEntry(e', ch', c);
      assert ch' == ch + ch'[|ch|..];
      if c in ch { OwnEntry(e, ch, c); }
    }
  }

  /** An entry of a file's own is neither free nor bad. */
  lemma OwnEntry(e: seq<nat>, ch: seq<nat>, c: nat)
    requires IsFileChain(e, ch) && c in ch
    ensures c < |e| && e[c] >= 2
  {
    var i :| 0 <= i < |ch| && ch[i] == c;
    assert IsCluster(e, ch[i]);
    if i < |ch| - 1 { assert IsCluster(e, ch[i + 1]); }
  }

  /** Bad entries are not the file's, so they come from elsewhere and stay. */
  lemma SameBadEntries(ch: seq<nat>, ch': seq<nat>, e: seq<nat>, e': seq<nat>)
    requires FatKept(ch, ch', e, e') && IsFileChain(e, ch) && IsFileChain(e', ch')
    ensures HasBadEntry(e') <==> HasBadEntry(e)
  {
    if c :| 2 <= c < |e'| && e'[c] == 1 {
      if c in ch' { OwnEntry(e', ch', c); }
      assert e[c] == 1;
    }
    if c :| 2 <= c < |e| && e[c] == 1 {
      if c in ch { OwnEntry(e, ch, c); }
      assert e'[c] == 1;
    }
  }

  lemma {:induction false} GainedCount(s: seq<nat>)
    requires Distinct(s)
    ensures |Members(s)| == |s|
  {
    if s == [] {
      assert Members(s) == {};
    } else {
      var last := |s| - 1;
      GainedCount(s[..last]);
      assert s[last] !in s[..last] && s == s[..last] + [s[last]];
      assert Members(s) == Members(s[..last]) + {s[last]};
    }
  }

  /** Sectors that follow each other in a cluster are the file's own. */
  lemma ApartFromRun(g: Geometry, ch: seq<nat>, q: nat, cc: nat, i: int)
    requires g.Valid() && Apart(g, ch, i) && ClusterOf(g, q) < |ch| && SectorIn(g, q) + cc <= g.csize
    ensures !(Place(g, ch, q) <= i < Place(g, ch, q) + cc)
  {
    if Place(g, ch, q) <= i < Place(g, ch, q) + cc {
      SameCluster(g, ch, q, i - Place(g, ch, q));
    }
  }

  /** Another file, whose chain has no cluster in common with this one at first, keeps its chain
      and all its bytes, and still shares no cluster with it. */
  lemma OtherFile(g: Geometry, ch: seq<nat>, ch': seq<nat>, other: seq<nat>, d: seq<Sector>, d': seq<Sector>,
      e: seq<nat>, e': seq<nat>, buf: Sector)
    requires DataKept(g, ch', d, d') && FatKept(ch, ch', e, e') && Disjoint(ch, other) && |buf| == g.ss
    requires IsChain(e, other) && Placed(g, d, other) && Placed(g, d', other)
    ensures IsChain(e', other) && Disjoint(ch', other)
    ensures SectorsOf(g, d', other, -1, buf) == SectorsOf(g, d, other, -1, buf)
  {
    hide SectorsOf, Count;
    forall i, k | 0 <= i < |ch'| && 0 <= k < |other|
      ensures ch'[i] != other[k]
    {
      if i >= |ch| { FreeIsOutside(e, other, ch'[i]); }
    }
    ChainKept(e, e', other);
    forall n: nat | n < Count(g, |other|)
      ensures SectorsOf(g, d', other, -1, buf)[n] == SectorsOf(g, d, other, -1, buf)[n]
    {
      SectorAt(g, d, other, -1, buf, n);
      SectorAt(g, d', other, -1, buf, n);
      forall m: nat | ClusterOf(g, m) < |ch'|
        ensures Place(g, ch', m) != Place(g, other, n)
      {
        OtherPlace(g, ch', other, m, n);
      }
      assert Apart(g, ch', Place(g, other, n));
    }
  }

  lemma OtherPlace(g: Geometry, ch: seq<nat>, other: seq<nat>, m: nat, n: nat)
    requires g.Valid() && ClusterOf(g, m) < |ch| && ClusterOf(g, n) < |other| && Disjoint(ch, other)
    ensures Place(g, ch, m) != Place(g, other, n)
  {
    var a, b := ch[ClusterOf(g, m)], other[ClusterOf(g, n)];
    InFirstAndSecond(g, [a, b], SectorIn(g, m));
    InFirstAndSecond(g, [a, b], SectorIn(g, n));
    PlacesDiffer(g, [a, b], SectorIn(g, m), g.csize + SectorIn(g, n));
  }

  lemma InFirstAndSecond(g: Geometry, two: seq<nat>, k: nat)
    requires g.Valid() && k < g.csize && |two| == 2
    ensures ClusterOf(g, k) == 0 && SectorIn(g, k) == k
    ensures ClusterOf(g, g.csize + k) == 1 && SectorIn(g, g.csize + k) == k
  {
    DivisionIsUnique(g.csize + k, g.csize, 1, k);
  }

  // ---------------------------------------------------------------- bytes of a file

  /** The bytes of sectors one after the other. */
  function Bytes(ss: nat, secs: seq<Sector>): (r: seq<byte>)
    requires ss > 0 && forall n :: 0 <= n < |secs| ==> |secs[n]| == ss
    ensures |r| == |secs| * ss
  {
    Flat(secs, 0, |secs|, ss)
  }

  /** `c` with the bytes `d` put at position `p`, and longer if they reach past its end. */
  function Splice(c: seq<byte>, p: nat, d: seq<byte>): (r: seq<byte>)
    requires p <= |c|
    ensures |r| == if p + |d| < |c| then |c| else p + |d|
  {
    c[..p] + d + (if p + |d| < |c| then c[p + |d|..] else [])
  }

  lemma SpliceNothing(c: seq<byte>, p: nat)
    requires p <= |c|
    ensures Splice(c, p, []) == c
  {
  }

  lemma SpliceTwice(c: seq<byte>, p: nat, d: seq<byte>, d': seq<byte>)
    requires p <= |c|
    ensures p + |d| <= |Splice(c, p, d)| && Splice(Splice(c, p, d), p + |d|, d') == Splice(c, p, d + d')
  {
  }

  /** The first `size` bytes when one sector is replaced by one that has `d` at place `o` and
      otherwise differs from it only past `size`. */
  lemma SplicedSector(ss: nat, secs: seq<Sector>, q: nat, o: nat, s: Sector, d: seq<byte>, size: nat)
    requires ss > 0 && (forall n :: 0 <= n < |secs| ==> |secs[n]| == ss) && q < |secs| && |s| == ss
    requires o + |d| <= ss && q * ss + o <= size <= |secs| * ss
    requires forall k :: 0 <= k < |d| ==> s[o + k] == d[k]
    requires forall k :: 0 <= k < ss && (k < o || o + |d| <= k) && q * ss + k < size ==> s[k] == secs[q][k]
    ensures var p := q * ss + o;
            var size' := if p + |d| < size then size else p + |d|;
            size' <= |secs| * ss && Bytes(ss, secs[q := s])[..size'] == Splice(Bytes(ss, secs)[..size], p, d)
  {
    var p := q * ss + o;
    var size' := if p + |d| < size then size else p + |d|;
    AtLeast(|secs|, q + 1, ss);
    assert (q + 1) * ss == q * ss + ss;
    var b, b' := Bytes(ss, secs), Bytes(ss, secs[q := s]);
    forall i | 0 <= i < size'
      ensures b'[i] == Splice(b[..size], p, d)[i]
    {
      SplicedByte(ss, secs, q, o, s, d, size, i);
    }
  }

  /** The `k`-th sector of the data of a transfer. */
  function Piece(ss: nat, d: seq<byte>, k: nat): (s: Sector)
    requires ss > 0 && k < |d| / ss
    ensures |s| == ss
  {
    PieceInside(ss, d, k);
    d[k * ss..k * ss + ss]
  }

  lemma PieceInside(ss: nat, d: seq<byte>, k: nat)
    requires ss > 0 && k < |d| / ss
    ensures k * ss + ss <= |d|
  {
    AtLeast(|d| / ss, k + 1, ss);
    assert (k + 1) * ss == k * ss + ss;
  }

  /** The sectors from `q` on are replaced by the data `d` of a transfer. */
  ghost predicate Replaced(ss: nat, secs: seq<Sector>, secs': seq<Sector>, q: nat, d: seq<byte>)
    requires ss > 0
  {
    && |secs'| == |secs|
    && forall n :: 0 <= n < |secs| ==> secs'[n] == if q <= n < q + |d| / ss then Piece(ss, d, n - q) else secs[n]
  }

  /** The first `size` bytes when whole sectors are replaced, from position `p` on. */
  lemma SplicedSectors(ss: nat, secs: seq<Sector>, secs': seq<Sector>, q: nat, cc: nat, d: seq<byte>, size: nat, p: nat)
    requires ss > 0 && (forall n :: 0 <= n < |secs| ==> |secs[n]| == ss)
        && (forall n :: 0 <= n < |secs'| ==> |secs'[n]| == ss)
    requires Replaced(ss, secs, secs', q, d) && q + cc <= |secs| && |d| == cc * ss
    requires p == q * ss && p <= size <= |Bytes(ss, secs)|
    ensures var size' := if p + |d| < size then size else p + |d|;
            size' <= |Bytes(ss, secs')| && Bytes(ss, secs')[..size'] == Splice(Bytes(ss, secs)[..size], p, d)
  {
    hide Flat, Sec, Off, Bytes, Piece;
    AtLeast(|secs|, q + cc, ss);
    assert (q + cc) * ss == p + cc * ss;
    DivisionIsUnique(|d|, ss, cc, 0);
    assert |Bytes(ss, secs')| == |Bytes(ss, secs)|;
    hide Replaced;
    var size' := if p + |d| < size then size else p + |d|;
    var b, b' := Bytes(ss, secs), Bytes(ss, secs');
    forall i | 0 <= i < size'
      ensures b'[i] == Splice(b[..size], p, d)[i]
    {
      SplicedSectorsByte(ss, secs, secs', q, d, i, p);
    }
  }

  lemma SplicedSectorsByte(ss: nat, secs: seq<Sector>, secs': seq<Sector>, q: nat, d: seq<byte>, i: nat, p: nat)
    requires ss > 0 && (forall n :: 0 <= n < |secs| ==> |secs[n]| == ss)
        && (forall n :: 0 <= n < |secs'| ==> |secs'[n]| == ss)
    requires Replaced(ss, secs, secs', q, d) && |d| == |d| / ss * ss && p == q * ss
    requires i < |Bytes(ss, secs)| == |Bytes(ss, secs')|
    ensures Bytes(ss, secs')[i] == if p <= i < p + |d| then d[i - p] else Bytes(ss, secs)[i]
  {
    hide Flat, Sec, Off, Piece;
    FlatAt(secs, 0, |secs|, ss, i);
    FlatAt(secs', 0, |secs|, ss, i);
    SectorRange(i, q, |d| / ss, ss);
    var n := Sec(i, ss);
    if q <= n < q + |d| / ss {
      Relative(i, q, ss);
      PieceByte(ss, d, n - q, Off(i, ss));
    }
  }

  lemma SectorRange(i: nat, q: nat, cc: nat, ss: nat)
    requires ss > 0
    ensures q <= Sec(i, ss) < q + cc <==> q * ss <= i < q * ss + cc * ss
  {
    SectorBound(i, q, ss);
    SectorBound(i, q + cc, ss);
    assert (q + cc) * ss == q * ss + cc * ss;
  }

  lemma PieceByte(ss: nat, d: seq<byte>, k: nat, o: nat)
    requires ss > 0 && k < |d| / ss && o < ss
    ensures k * ss + o < |d| && Piece(ss, d, k)[o] == d[k * ss + o]
  {
    PieceInside(ss, d, k);
  }

  lemma Relative(i: nat, q: nat, ss: nat)
    requires ss > 0 && q <= Sec(i, ss)
    ensures i - q * ss == (Sec(i, ss) - q) * ss + Off(i, ss)
  {
    var n := i / ss;
    assert i == n * ss + i % ss;
    assert (n - q) * ss == n * ss - q * ss;
  }

  /** Storing whole sectors in the data area changes just these sectors of the file. */
  lemma StoredSectors(g: Geometry, data: seq<Sector>, data': seq<Sector>, ch: seq<nat>, q: nat, cc: nat,
      d: seq<byte>, other: Sector, n: nat)
    requires Placed(g, data, ch) && Placed(g, data', ch) && |other| == g.ss && |data'| == |data|
    requires ClusterOf(g, q) < |ch| && SectorIn(g, q) + cc <= g.csize && cc == |d| / g.ss
    requires var a := Place(g, ch, q);
             forall i :: 0 <= i < |data| ==> data'[i] == if a <= i < a + cc then Piece(g.ss, d, i - a) else data[i]
    requires n < Count(g, |ch|)
    ensures SectorsOf(g, data', ch, -1, other)[n]
            == if q <= n < q + cc then Piece(g.ss, d, n - q) else SectorsOf(g, data, ch, -1, other)[n]
  {
    hide Place, ClusterOf, SectorsOf, SectorIn, Count, Piece;
    SectorAt(g, data, ch, -1, other, n);
    SectorAt(g, data', ch, -1, other, n);
    PlaceAmong(g, ch, q, cc, n);
  }

  /** Places among those of consecutive sectors of a cluster. */
  lemma PlaceAmong(g: Geometry, ch: seq<nat>, q: nat, cc: nat, n: nat)
    requires g.Valid() && Distinct(ch) && ClusterOf(g, q) < |ch| && ClusterOf(g, n) < |ch|
    requires SectorIn(g, q) + cc <= g.csize
    ensures Place(g, ch, q) <= Place(g, ch, n) < Place(g, ch, q) + cc <==> q <= n < q + cc
    ensures q <= n < q + cc ==> Place(g, ch, n) == Place(g, ch, q) + (n - q)
  {
    hide Place, ClusterOf, SectorIn, Distinct;
    if q <= n < q + cc {
      SameCluster(g, ch, q, n - q);
    } else if Place(g, ch, q) <= Place(g, ch, n) < Place(g, ch, q) + cc {
      var k := Place(g, ch, n) - Place(g, ch, q);
      SameCluster(g, ch, q, k);
      PlacesDiffer(g, ch, n, q + k);
      assert false;
    }
  }

  lemma SplicedByte(ss: nat, secs: seq<Sector>, q: nat, o: nat, s: Sector, d: seq<byte>, size: nat, i: nat)
    requires ss > 0 && (forall n :: 0 <= n < |secs| ==> |secs[n]| == ss) && q < |secs| && |s| == ss
    requires o + |d| <= ss && q * ss + o <= size <= |secs| * ss
    requires forall k :: 0 <= k < |d| ==> s[o + k] == d[k]
    requires forall k :: 0 <= k < ss && (k < o || o + |d| <= k) && q * ss + k < size ==> s[k] == secs[q][k]
    requires i < |secs| * ss && (i < size || i < q * ss + o + |d|)
    ensures i < |Splice(Bytes(ss, secs)[..size], q * ss + o, d)|
    ensures Bytes(ss, secs[q := s])[i] == Splice(Bytes(ss, secs)[..size], q * ss + o, d)[i]
  {
    hide Flat, Sec, Off;
    var base := q * ss;
    PositionCases(i, q, ss, base);
    FlatAt(secs, 0, |secs|, ss, i);
    FlatAt(secs[q := s], 0, |secs|, ss, i);
    var k := Off(i, ss);
    if Sec(i, ss) == q && base + o <= i < base + o + |d| {
      assert s[o + (k - o)] == d[k - o];
    }
  }

  lemma PositionCases(i: nat, q: nat, ss: nat, base: nat)
    requires ss > 0 && base == q * ss
    ensures if Sec(i, ss) == q then i == base + Off(i, ss) else i < base || base + ss <= i
  {
    var n, k := i / ss, i % ss;
    assert i == n * ss + k;
    if n != q { OtherSector(n, q, k, ss); }
  }

  lemma OtherSector(n: nat, q: nat, k: nat, ss: nat)
    requires n != q && k < ss
    ensures n * ss + k < q * ss || q * ss + ss <= n * ss + k
  {
    AtLeast(q, n + 1, ss);
    AtLeast(n, q + 1, ss);
    assert (n + 1) * ss == n * ss + ss && (q + 1) * ss == q * ss + ss;
  }

  /** More sectors do not change the bytes of the first ones. */
  lemma BytesOfPrefix(ss: nat, secs: seq<Sector>, n: nat, size: nat)
    requires ss > 0 && (forall n :: 0 <= n < |secs| ==> |secs[n]| == ss) && n <= |secs| && size <= n * ss
    ensures size <= |secs| * ss && Bytes(ss, secs)[..size] == Bytes(ss, secs[..n])[..size]
  {
    hide Flat;
    AtLeast(|secs|, n, ss);
    forall i | 0 <= i < size
      ensures Bytes(ss, secs)[i] == Bytes(ss, secs[..n])[i]
    {
      FlatAt(secs, 0, |secs|, ss, i);
      FlatAt(secs[..n], 0, n, ss, i);
    }
  }

  /** The sector before a sector boundary, and its cluster. */
  lemma Before(g: Geometry, p: nat)
    requires g.Valid() && p > 0 && Off(p, g.ss) == 0
    ensures var q := Sec(p, g.ss);
            && q > 0 && Sec(p - 1, g.ss) == q - 1
            && ClusterOf(g, q - 1) == if SectorIn(g, q) == 0 then ClusterOf(g, q) - 1 else ClusterOf(g, q)
  {
    var q := p / g.ss;
    assert p == q * g.ss;
    AtLeast(1, q, g.ss);
    assert q == 0 ==> q * g.ss == 0;
    assert p - 1 == (q - 1) * g.ss + (g.ss - 1);
    DivisionIsUnique(p - 1, g.ss, q - 1, g.ss - 1);
    var c, k := q / g.csize, q % g.csize;
    assert q == c * g.csize + k;
    if k == 0 {
      assert q - 1 == (c - 1) * g.csize + (g.csize - 1);
      DivisionIsUnique(q - 1, g.csize, c - 1, g.csize - 1);
    } else {
      DivisionIsUnique(q - 1, g.csize, c, k - 1);
    }
  }

  /** Position and sector. */
  lemma PositionIs(g: Geometry, p: nat)
    requires g.Valid()
    ensures p == Sec(p, g.ss) * g.ss + Off(p, g.ss)
  {
  }

  /** A position before the end of the sectors is in one of their clusters. */
  lemma InCluster(g: Geometry, p: nat, clusters: nat)
    requires g.Valid()
    ensures p < Count(g, clusters) * g.ss <==> Sec(p, g.ss) < Count(g, clusters)
    ensures p < Count(g, clusters) * g.ss <==> ClusterOf(g, Sec(p, g.ss)) < clusters
  {
    hide Count;
    SectorBound(p, Count(g, clusters), g.ss);
    ClusterBound(g, Sec(p, g.ss), clusters);
  }

  lemma SectorBound(p: nat, n: nat, ss: nat)
    requires ss > 0
    ensures p < n * ss <==> Sec(p, ss) < n
  {
    var q := p / ss;
    assert p == q * ss + p % ss;
    AtLeast(q, n, ss);
    AtLeast(n, q + 1, ss);
    assert (q + 1) * ss == q * ss + ss;
  }

  /** A sector boundary up to the end of the sectors is in one of their clusters or just past
      the last one. */
  lemma UpToCluster(g: Geometry, p: nat, clusters: nat)
    requires g.Valid() && p <= Count(g, clusters) * g.ss && Off(p, g.ss) == 0
    ensures ClusterOf(g, Sec(p, g.ss)) <= clusters
    ensures ClusterOf(g, Sec(p, g.ss)) == clusters ==> SectorIn(g, Sec(p, g.ss)) == 0
  {
    var q, n := p / g.ss, Count(g, clusters);
    assert p == q * g.ss;
    AtLeast(q, n + 1, g.ss);
    assert (n + 1) * g.ss == n * g.ss + g.ss;
    var c := q / g.csize;
    assert q == c * g.csize + q % g.csize;
    AtLeast(c, clusters + 1, g.csize);
    assert (clusters + 1) * g.csize == clusters * g.csize + g.csize;
  }

  /** Where a transfer of `w` bytes inside sector `q` ends. */
  lemma AfterPart(ss: nat, p: nat, w: nat)
    requires ss > 0 && 0 < w && Off(p, ss) + w <= ss
    ensures Sec(p + w - 1, ss) == Sec(p, ss)
    ensures Off(p + w, ss) != 0 ==> Sec(p + w, ss) == Sec(p, ss)
  {
    var q, o := p / ss, p % ss;
    assert p == q * ss + o;
    PlaceOf(p + w - 1, q, o + w - 1, ss);
    if o + w < ss {
      PlaceOf(p + w, q, o + w, ss);
    } else {
      assert p + w == (q + 1) * ss + 0 by { assert (q + 1) * ss == q * ss + ss; }
      PlaceOf(p + w, q + 1, 0, ss);
    }
  }

  /** Where a transfer of `cc` whole sectors from the boundary `p` ends. */
  lemma AfterSectors(ss: nat, p: nat, cc: nat)
    requires ss > 0 && 0 < cc && Off(p, ss) == 0
    ensures cc * ss > 0 && Sec(p + cc * ss - 1, ss) == Sec(p, ss) + cc - 1 && Off(p + cc * ss, ss) == 0
  {
    var q := p / ss;
    assert p == q * ss;
    AtLeast(cc, 1, ss);
    assert p + cc * ss == (q + cc) * ss + 0 by { assert (q + cc) * ss == q * ss + cc * ss; }
    PlaceOf(p + cc * ss, q + cc, 0, ss);
    assert p + cc * ss - 1 == (q + cc - 1) * ss + (ss - 1) by { assert (q + cc - 1) * ss == (q + cc) * ss - ss; }
    PlaceOf(p + cc * ss - 1, q + cc - 1, ss - 1, ss);
  }

  lemma PlaceOf(i: nat, q: nat, k: nat, ss: nat)
    requires ss > 0 && i == q * ss + k && k < ss
    ensures Sec(i, ss) == q && Off(i, ss) == k
  {
    DivisionIsUnique(i, ss, q, k);
  }

  /** The bytes of some sectors in the middle. */
  lemma BytesOfMiddle(ss: nat, secs: seq<Sector>, q: nat, cc: nat)
    requires ss > 0 && (forall n :: 0 <= n < |secs| ==> |secs[n]| == ss) && q + cc <= |secs|
    ensures q * ss + cc * ss <= |secs| * ss
    ensures Bytes(ss, secs)[q * ss..q * ss + cc * ss] == Bytes(ss, secs[q..q + cc])
  {
    hide Flat, Sec, Off;
    AtLeast(|secs|, q + cc, ss);
    assert (q + cc) * ss == q * ss + cc * ss;
    var a, b := Bytes(ss, secs)[q * ss..q * ss + cc * ss], Bytes(ss, secs[q..q + cc]);
    forall i | 0 <= i < cc * ss
      ensures a[i] == b[i]
    {
      FlatAt(secs, 0, |secs|, ss, q * ss + i);
      FlatAt(secs[q..q + cc], 0, cc, ss, i);
      Shifted(ss, q, i);
    }
  }

  lemma Shifted(ss: nat, q: nat, i: nat)
    requires ss > 0
    ensures Sec(q * ss + i, ss) == q + Sec(i, ss) && Off(q * ss + i, ss) == Off(i, ss)
  {
    var n, k := i / ss, i % ss;
    assert i == n * ss + k && (q + n) * ss == q * ss + n * ss;
    PlaceOf(q * ss + i, q + n, k, ss);
  }

  /** `b` is byte `i` of the file with the chain `ch`: the bytes of a file go through its clusters
      sector by sector, and the data area begins with cluster 2. */
  ghost predicate IsByte(g: Geometry, data: seq<Sector>, ch: seq<nat>, i: nat, b: byte) {
    && g.ss > 0 && g.csize > 0
    && var k := i / g.ss / g.csize;
    && k < |ch|
    && var at := g.csize * (ch[k] as int - 2) + i / g.ss % g.csize;
    && 0 <= at < |data| && i % g.ss < |data[at]| && data[at][i % g.ss] == b
  }

  // ---------------------------------------------------------------- the open file

  /** A file object. `clust` is the cluster of the byte before the pointer, `sect` the sector in
      the buffer. The data area is kept apart from the FAT, which the allocator owns. Ghost
      fields name the chain and the number of the buffered sector in the file (-1 for none). */
  class File {
    const g: Geometry
    const alloc: Allocator
    const buf: array<byte>
    const readable: bool
    const writable: bool
    var data: seq<Sector>
    var fptr: nat
    var objsize: nat
    var sclust: nat
    var clust: nat
    var sect: nat
    var dirty: bool
    var modified: bool
    var err: bool
    ghost var chain: seq<nat>
    ghost var held: int

    /** The FAT knows the chain of the file, and its clusters lie in the data area. */
    ghost predicate ValidChain()
      reads this`data, this`chain, this`sclust, alloc, alloc.fs, alloc.fs.win
    {
      && alloc.Valid() && alloc.FreeCountOk()
      && |data| == g.csize * (alloc.fs.at.nFatent - 2) && Placed(g, data, chain)
      && if chain == [] then sclust == 0 else sclust == chain[0] && IsChain(alloc.fs.Entries(), chain)
    }

    /** The entries of the FAT. */
    ghost function Table(): (e: seq<nat>)
      requires ValidChain()
      reads this`data, this`chain, this`sclust, alloc, alloc.fs, alloc.fs.win
    {
      alloc.fs.Entries()
    }

    /** The size the file can grow to: its own clusters and all free ones. */
    ghost function Capacity(): nat
      requires ValidChain()
      reads this`data, this`chain, this`sclust, alloc, alloc.fs, alloc.fs.win
    {
      Room(g, |chain| + |Zeros(Table())|)
    }

    /** No cluster is free, and the pointer is at the end of the last one. */
    ghost predicate Full()
      requires ValidChain()
      reads this`data, this`chain, this`sclust, this`fptr, alloc, alloc.fs, alloc.fs.win
    {
      Zeros(Table()) == {} && fptr == |chain| * g.Bcs()
    }

    /** Changes in the buffer are known to the file object, unless an operation was aborted. */
    ghost predicate Marked()
      reads this`dirty, this`modified, this`err
    {
      dirty ==> modified || err
    }

    /** The buffer holds sector `held` of the file, or nothing yet; unless it is dirty the data
        area holds the same. */
    ghost predicate ValidBuffer()
      reads this`data, this`chain, this`held, this`sect, this`dirty, buf
    {
      && Placed(g, data, chain) && buf.Length == g.ss
      && (held < 0 ==> sect == 0 && !dirty)
      && (held >= 0 ==>
            && ClusterOf(g, held) < |chain|
            && sect == g.database + Place(g, chain, held)
            && (!dirty ==> buf[..] == data[Place(g, chain, held)]))
    }

    /** The sectors of the file as the program sees them. */
    ghost function Sectors(): (r: seq<Sector>)
      requires ValidBuffer()
      reads this`data, this`chain, this`held, this`sect, this`dirty, buf
      ensures |r| == Count(g, |chain|) && forall n :: 0 <= n < |r| ==> |r[n]| == g.ss
    {
      SectorsOf(g, data, chain, held, buf[..])
    }

    ghost predicate ValidSize()
      reads this`chain, this`fptr, this`objsize
    {
      g.Valid() && fptr <= objsize <= Count(g, |chain|) * g.ss && objsize <= MAX_SIZE
    }

    /** The contents of the file. */
    ghost function Content(): (r: seq<byte>)
      requires ValidBuffer() && ValidSize()
      reads this`data, this`chain, this`held, this`sect, this`dirty, this`fptr, this`objsize, buf
      ensures |r| == objsize
    {
      Bytes(g.ss, Sectors())[..objsize]
    }

    /** What the data area has of the contents, whatever is in the buffer. */
    ghost function Stored(): (r: seq<byte>)
      requires ValidBuffer() && ValidSize()
      reads this`data, this`chain, this`held, this`sect, this`dirty, this`fptr, this`objsize, buf
      ensures |r| == objsize
    {
      Bytes(g.ss, SectorsOf(g, data, chain, -1, buf[..]))[..objsize]
    }

    /** The current cluster is that of the byte before the pointer, and inside a sector the
        buffer holds that sector. */
    ghost predicate ValidPointer()
      reads this`chain, this`fptr, this`clust, this`held
    {
      && g.Valid()
      && (fptr > 0 ==> ClusterOf(g, Sec(fptr - 1, g.ss)) < |chain| && clust == chain[ClusterOf(g, Sec(fptr - 1, g.ss))])
      && (Off(fptr, g.ss) != 0 ==> held == Sec(fptr, g.ss))
    }

    /** Everything but the current cluster. */
    ghost predicate Sound()
      reads this`data, this`chain, this`sclust, this`held, this`sect, this`dirty, this`fptr, this`objsize, buf, alloc,
          alloc.fs, alloc.fs.win
    {
      buf != alloc.fs.win && ValidChain() && ValidBuffer() && ValidSize()
    }

    ghost predicate Valid()
      reads this`data, this`chain, this`sclust, this`clust, this`held, this`sect, this`dirty, this`fptr, this`objsize,
          buf, alloc, alloc.fs, alloc.fs.win
    {
      Sound() && ValidPointer()
    }

    /** A file just opened: the pointer is at the start and no sector is in the buffer. */
    constructor (g: Geometry, alloc: Allocator, readable: bool, writable: bool,
                 data: seq<Sector>, sclust: nat, objsize: nat, ghost chain: seq<nat>)
      requires alloc.Valid() && alloc.FreeCountOk() && g.Valid()
      requires |data| == g.csize * (alloc.fs.at.nFatent - 2) && forall k :: 0 <= k < |data| ==> |data[k]| == g.ss
      requires if chain == [] then sclust == 0 else sclust == chain[0] && IsChain(alloc.fs.Entries(), chain)
      requires objsize <= Count(g, |chain|) * g.ss && objsize <= MAX_SIZE
      ensures Valid() && fresh(buf) && this.g == g && this.alloc == alloc
      ensures this.readable == readable && this.writable == writable
      ensures fptr == 0 && this.objsize == objsize && this.chain == chain && this.data == data && held < 0 && !err
          && Marked()
    {
      ChainPlaced(g, data, alloc.fs.Entries(), chain);
      this.g, this.alloc, this.readable, this.writable := g, alloc, readable, writable;
      this.data, this.sclust, this.objsize, this.chain := data, sclust, objsize, chain;
      buf := new byte[g.ss](_ => 0);
      fptr, clust, sect, dirty, modified, err, held := 0, 0, 0, false, false, false, -1;
    }

    // -------------------------------------------------------------- the buffer

    lemma HeldInFile()
      requires ValidBuffer() && held >= 0
      ensures held < Count(g, |chain|) && ClusterOf(g, held) < |chain| && 0 <= Place(g, chain, held) < |data|
    {
      ClusterBound(g, held, |chain|);
    }

    /** A clean buffer can be left out of account. */
    lemma WithoutBuffer(other: Sector)
      requires ValidBuffer() && !dirty && |other| == g.ss
      ensures Sectors() == SectorsOf(g, data, chain, -1, other)
    {
      if held >= 0 { HeldInFile(); }
      CleanBuffer(g, data, chain, held, buf[..], other);
    }

    /** `disk_write` of the buffer, if it is dirty. */
    method Flush()
      requires ValidBuffer()
      modifies this`data, this`dirty
      ensures ValidBuffer() && !dirty && Sectors() == old(Sectors()) && |data| == |old(data)|
      ensures DataKept(g, chain, old(data), data)
    {
      GeometryOk();
      hide SectorsOf, Placed, Place, ClusterOf;
      if dirty {
        HeldInFile();
        StoredSector(g, data, chain, held, buf[..], held, buf[..]);
        data := data[sect - g.database := buf[..]];
        dirty := false;
      }
    }

    /** Brings sector `n` of the file, at `at`, into the buffer (`fp->sect != sect` and after). */
    method Hold(at: nat, ghost n: nat)
      requires ValidBuffer() && ClusterOf(g, n) < |chain| && at == g.database + Place(g, chain, n)
      modifies this`data, this`dirty, this`sect, this`held, buf
      ensures ValidBuffer() && held == n && Sectors() == old(Sectors()) && |data| == |old(data)|
      ensures dirty ==> old(dirty)
      ensures DataKept(g, chain, old(data), data)
    {
      hide SectorsOf, Place, ClusterOf;
      assert 0 <= Place(g, chain, n) < |data|;
      if sect != at {
        Flush();
        WithoutBuffer(buf[..]);
        forall i | 0 <= i < g.ss { buf[i] := data[at - g.database][i]; }
        assert buf[..] == data[at - g.database];
        sect := at;
        held := n;
        WithoutBuffer(old(buf[..]));
      } else if held != n {
        if held >= 0 { PlacesDiffer(g, chain, held, n); }
        assert false;
      }
    }

    // -------------------------------------------------------------- reading

    /** `clst2sect`: first sector of a cluster, 0 if it is none. */
    function ClustToSect(clst: nat): nat
      requires g.Valid() && alloc.fs.at.nFatent >= 2
    {
      if clst < 2 || clst >= alloc.fs.at.nFatent then 0 else g.database + g.csize * (clst - 2)
    }

    /** At a sector boundary before the end of the file: makes the cluster of the pointer the
        current one, following the chain at a cluster boundary. */
    method FollowCluster()
      requires Valid() && Off(fptr, g.ss) == 0 && fptr < objsize
      modifies this`clust, alloc.fs, alloc.fs.win
      ensures AtCluster() && Sectors() == old(Sectors()) && held == old(held)
      ensures Table() == old(Table())
    {
      hide SectorsOf, Placed, Place, ClusterOf, SectorIn, Sec, Off, Count, FatFs.Valid, FatFs.View, FatFs.Fat,
          FatFs.Entries;
      InCluster(g, fptr, |chain|);
      var q := Sec(fptr, g.ss);
      var csect := SectorIn(g, q);
      if fptr > 0 { Before(g, fptr); } else { StartsAtZero(g); }
      if csect == 0 {
        var clst;
        if fptr == 0 {
          clst := sclust;
        } else {
          NextInChain(alloc.fs.Entries(), chain, ClusterOf(g, q));
          clst := alloc.fs.GetFat(clust);
        }
        clust := clst;
      }
    }

    /** The bytes of the file from the pointer to the end of its sector. */
    lemma BytesHere(w: nat)
      requires ValidBuffer() && ValidSize() && fptr + w <= objsize && Off(fptr, g.ss) + w <= g.ss
      ensures w > 0 ==> Sec(fptr, g.ss) < |Sectors()|
      ensures w > 0 ==>
                Content()[fptr..fptr + w] == Sectors()[Sec(fptr, g.ss)][Off(fptr, g.ss)..Off(fptr, g.ss) + w]
    {
      hide SectorsOf, Placed, Count, Flat;
      if w > 0 {
        InCluster(g, fptr, |chain|);
        PositionIs(g, fptr);
        SliceOfSector(g.ss, Sectors(), Sec(fptr, g.ss), Off(fptr, g.ss), fptr, w);
        assert Content()[fptr..fptr + w] == Bytes(g.ss, Sectors())[fptr..fptr + w];
      }
    }

    /** `disk_read` of `cc` whole sectors from sector `q` of the file, with the dirty buffer put
        in its place. */
    method DirectRead(at: nat, cc: nat, ghost q: nat) returns (out: seq<byte>)
      requires ValidBuffer() && ClusterOf(g, q) < |chain| && at == g.database + Place(g, chain, q)
      requires SectorIn(g, q) + cc <= g.csize
      ensures q + cc <= |Sectors()|
      ensures out == Bytes(g.ss, Sectors()[q..q + cc])
    {
      hide SectorsOf, Placed, Sec, Off, Count, Flat, Bytes, Place, ClusterOf, SectorIn, ValidBuffer;
      ClusterAhead(q, cc);
      out := [];
      var k := 0;
      BytesOfNone(g.ss);
      while k < cc
        invariant 0 <= k <= cc
        invariant out == Bytes(g.ss, Sectors()[q..q + k])
      {
        var s := ReadSector(at, k, q);
        BytesAppend(g.ss, Sectors()[q..q + k], s);
        assert Sectors()[q..q + k + 1] == Sectors()[q..q + k] + [s];
        out := out + s;
        k := k + 1;
      }
    }

    lemma ClusterAhead(q: nat, cc: nat)
      requires ValidBuffer() && ClusterOf(g, q) < |chain| && SectorIn(g, q) + cc <= g.csize
      ensures q + cc <= |Sectors()| && g.ss > 0
    {
      SameCluster(g, chain, q, cc);
    }

    /** One sector of a direct transfer: from the buffer if it is there and dirty. */
    method ReadSector(at: nat, k: nat, ghost q: nat) returns (s: Sector)
      requires ValidBuffer() && ClusterOf(g, q) < |chain| && at == g.database + Place(g, chain, q)
      requires SectorIn(g, q) + k < g.csize
      ensures q + k < |Sectors()| && s == Sectors()[q + k]
    {
      hide SectorsOf, Sec, Off, Count;
      SameCluster(g, chain, q, k);
      InData(q + k);
      s := data[at - g.database + k];
      if dirty && sect == at + k {
        HeldHere(q + k);
        s := buf[..];
      }
    }

    /** The current cluster is that of the pointer, not of the byte before it. */
    ghost predicate AtCluster()
      reads this, buf, alloc, alloc.fs, alloc.fs.win
    {
      && Sound()
      && ClusterOf(g, Sec(fptr, g.ss)) < |chain| && clust == chain[ClusterOf(g, Sec(fptr, g.ss))]
    }

    lemma InsideSector()
      requires Valid() && Off(fptr, g.ss) != 0
      ensures AtCluster() && held == Sec(fptr, g.ss)
    {
      PositionIs(g, fptr);
      PlaceOf(fptr - 1, Sec(fptr, g.ss), Off(fptr, g.ss) - 1, g.ss);
    }

    /** The end of a transfer within the sector of the pointer. */
    lemma PointerAfterPart(w: nat)
      requires AtCluster() && held == Sec(fptr, g.ss) && 0 < w && Off(fptr, g.ss) + w <= g.ss
      ensures ClusterOf(g, Sec(fptr + w - 1, g.ss)) == ClusterOf(g, Sec(fptr, g.ss))
      ensures Off(fptr + w, g.ss) != 0 ==> held == Sec(fptr + w, g.ss)
    {
      AfterPart(g.ss, fptr, w);
    }

    /** Part of the sector in the buffer (`f_read`). */
    method ReadPart(btr: nat) returns (out: seq<byte>)
      requires AtCluster() && held == Sec(fptr, g.ss) && 0 < btr && fptr + btr <= objsize
      modifies this`fptr
      ensures Valid() && Sectors() == old(Sectors()) && fptr == old(fptr) + |out|
      ensures 0 < |out| <= btr && out == Content()[old(fptr)..fptr]
    {
      hide SectorsOf, Placed, Place, ClusterOf, SectorIn, Sec, Off, Count, Bytes, FatFs.Valid, FatFs.View, FatFs.Fat,
          FatFs.Entries;
      var o := Off(fptr, g.ss);
      var rcnt := g.ss - o;
      if rcnt > btr { rcnt := btr; }
      BytesHere(rcnt);
      PointerAfterPart(rcnt);
      HeldInFile();
      InData(held);
      out := buf[o..o + rcnt];
      fptr := fptr + rcnt;
    }

    /** Whole sectors without the buffer (`f_read`). */
    method ReadSectors(at: nat, btr: nat) returns (out: seq<byte>)
      requires AtCluster() && Off(fptr, g.ss) == 0 && g.ss <= btr && fptr + btr <= objsize
      requires at == g.database + Place(g, chain, Sec(fptr, g.ss))
      modifies this`fptr
      ensures Valid() && Sectors() == old(Sectors()) && fptr == old(fptr) + |out|
      ensures 0 < |out| <= btr && out == Content()[old(fptr)..fptr]
    {
      hide SectorsOf, Placed, Place, ClusterOf, SectorIn, Sec, Off, Count, Bytes, FatFs.Valid, FatFs.View, FatFs.Fat,
          FatFs.Entries;
      var csect := SectorIn(g, Sec(fptr, g.ss));
      var cc := btr / g.ss;
      if csect + cc > g.csize { cc := g.csize - csect; }
      out := DirectRead(at, cc, Sec(fptr, g.ss));
      SectorsAmong(cc, btr);
      WholeSectors(cc, btr);
      PointerAfterSectors(fptr, cc);
      fptr := fptr + |out|;
    }

    /** One round of the loop of `f_read`: at a sector boundary the current cluster is found and
        either whole sectors are transferred or the sector is brought into the buffer, from
        which a part is then taken. */
    method ReadChunk(btr: nat) returns (out: seq<byte>)
      requires Valid() && 0 < btr && fptr + btr <= objsize
      modifies this`clust, this`data, this`dirty, this`sect, this`held, this`fptr, buf, alloc.fs, alloc.fs.win
      ensures Valid() && Content() == old(Content()) && fptr == old(fptr) + |out|
      ensures 0 < |out| <= btr && out == Content()[old(fptr)..fptr] && (dirty ==> old(dirty))
      ensures DataKept(g, chain, old(data), data)
      ensures Table() == old(Table()) && chain == old(chain)
    {
      hide SectorsOf, ClusterOf, SectorIn, Sec, Off, Bytes, ValidChain, ValidBuffer, ValidSize, ValidPointer;
      GeometryOk();
      if Off(fptr, g.ss) == 0 {
        FollowCluster();
        var at := CurrentSector();
        if btr / g.ss > 0 {
          OneSector(btr);
          out := ReadSectors(at, btr);
          return;
        }
        HoldCurrent(at);
      } else {
        InsideSector();
      }
      out := ReadPart(btr);
    }

    lemma GeometryOk()
      requires ValidBuffer()
      ensures g.Valid()
    {
    }

    lemma OneSector(btr: nat)
      requires g.ss > 0 && btr / g.ss > 0
      ensures g.ss <= btr
    {
      SectorsAmong(1, btr);
    }

    /** The sector of the pointer, from the current cluster. */
    method CurrentSector() returns (at: nat)
      requires AtCluster()
      ensures Placed(g, data, chain) && at == g.database + Place(g, chain, Sec(fptr, g.ss))
    {
      PlaceOfCluster(Sec(fptr, g.ss));
      at := ClustToSect(clust) + SectorIn(g, Sec(fptr, g.ss));
    }

    method HoldCurrent(at: nat)
      requires AtCluster() && at == g.database + Place(g, chain, Sec(fptr, g.ss))
      modifies this`data, this`dirty, this`sect, this`held, buf
      ensures AtCluster() && held == Sec(fptr, g.ss) && Sectors() == old(Sectors()) && (dirty ==> old(dirty))
      ensures DataKept(g, chain, old(data), data)
    {
      hide SectorsOf, Place, ClusterOf, Sec, Placed, FatFs.Valid, FatFs.View, FatFs.Fat, FatFs.Entries;
      Hold(at, Sec(fptr, g.ss));
    }

    /** The sector computed from the current cluster is that of the pointer. */
    lemma PlaceOfCluster(n: nat)
      requires g.Valid() && ValidChain() && ClusterOf(g, n) < |chain| && clust == chain[ClusterOf(g, n)]
      ensures ClustToSect(clust) > 0 && ClustToSect(clust) + SectorIn(g, n) == g.database + Place(g, chain, n)
    {
      hide Placed, IsChain, FatFs.Valid, FatFs.View, FatFs.Fat, FatFs.Entries;
      MemberIsCluster(alloc.fs.Entries(), chain, ClusterOf(g, n));
    }

    /** Whole sectors from a boundary on are a part of the contents. */
    lemma WholeSectors(cc: nat, btr: nat)
      requires ValidBuffer() && ValidSize() && Off(fptr, g.ss) == 0 && fptr + btr <= objsize
      requires 0 < cc && cc * g.ss <= btr && ClusterOf(g, Sec(fptr, g.ss)) < |chain|
      requires SectorIn(g, Sec(fptr, g.ss)) + cc <= g.csize
      ensures var q := Sec(fptr, g.ss);
              && q + cc <= |Sectors()| && |Bytes(g.ss, Sectors()[q..q + cc])| == cc * g.ss
              && 0 < cc * g.ss <= btr
              && Bytes(g.ss, Sectors()[q..q + cc]) == Content()[fptr..fptr + cc * g.ss]
    {
      hide SectorsOf, Placed, Place, Count, Flat, Bytes, Sec, Off, SectorIn, ClusterOf;
      var q := Sec(fptr, g.ss);
      SameCluster(g, chain, q, cc);
      BytesOfMiddle(g.ss, Sectors(), q, cc);
      PositionIs(g, fptr);
      AtLeast(cc, 1, g.ss);
      var all := Bytes(g.ss, Sectors());
      SliceOfPrefix(all, objsize, fptr, fptr + cc * g.ss);
    }

    /** Whole sectors among `btr` bytes. */
    lemma SectorsAmong(cc: nat, btr: nat)
      requires g.ss > 0 && cc <= btr / g.ss
      ensures cc * g.ss <= btr
    {
      AtLeast(btr / g.ss, cc, g.ss);
      assert btr == btr / g.ss * g.ss + btr % g.ss;
    }

    /** The pointer after whole sectors. */
    lemma PointerAfterSectors(p: nat, cc: nat)
      requires ValidBuffer() && Off(p, g.ss) == 0 && 0 < cc && ClusterOf(g, Sec(p, g.ss)) < |chain|
      requires SectorIn(g, Sec(p, g.ss)) + cc <= g.csize
      ensures cc * g.ss > 0 && ClusterOf(g, Sec(p + cc * g.ss - 1, g.ss)) == ClusterOf(g, Sec(p, g.ss))
      ensures Off(p + cc * g.ss, g.ss) == 0
    {
      AfterSectors(g.ss, p, cc);
      SameCluster(g, chain, Sec(p, g.ss), cc - 1);
    }

    lemma InData(n: nat)
      requires ValidBuffer() && ClusterOf(g, n) < |chain|
      ensures 0 <= Place(g, chain, n) < |data| && n < |Sectors()|
      ensures Sectors()[n] == if n == held then buf[..] else data[Place(g, chain, n)]
    {
      ClusterBound(g, n, |chain|);
      SectorAt(g, data, chain, held, buf[..], n);
    }

    lemma HeldHere(n: nat)
      requires ValidBuffer() && ClusterOf(g, n) < |chain| && sect == g.database + Place(g, chain, n) && g.database > 0
      ensures held == n
    {
      if held < 0 {
        InData(n);
      } else {
        PlacesDiffer(g, chain, held, n);
      }
    }

    /** Every byte of the contents lies where its position says. */
    lemma ContentAt(i: nat)
      requires ValidChain() && ValidBuffer() && ValidSize() && i < objsize && !dirty
      ensures IsByte(g, data, chain, i, Content()[i])
    {
      hide SectorsOf, Flat, FatFs.Valid, FatFs.View, FatFs.Fat, FatFs.Entries, Allocator.FreeCountOk, IsChain, Count,
          Place, Sec, Off, ClusterOf, SectorIn, Geometry.DataSector;
      var n := Sec(i, g.ss);
      InCluster(g, i, |chain|);
      MemberIsCluster(alloc.fs.Entries(), chain, ClusterOf(g, n));
      WithoutBuffer(buf[..]);
      InData(n);
      ByteOf(i);
      InNumbers(g, i);
      PlaceIs(g, chain, n);
    }

    lemma ByteOf(i: nat)
      requires ValidBuffer() && ValidSize() && i < objsize
      ensures Sec(i, g.ss) < |Sectors()| && Content()[i] == Sectors()[Sec(i, g.ss)][Off(i, g.ss)]
    {
      hide SectorsOf, Flat, Count, Sec, Off;
      FlatAt(Sectors(), 0, |Sectors()|, g.ss, i);
    }

    /** `f_read`: reads at the pointer, up to the end of the file. */
    method Read(btr0: nat) returns (ok: bool, out: seq<byte>)
      requires Valid()
      modifies this`clust, this`data, this`dirty, this`sect, this`held, this`fptr, buf, alloc.fs, alloc.fs.win
      ensures Valid() && Content() == old(Content()) && fptr == old(fptr) + |out|
      ensures ok == (readable && !err) && (!ok ==> out == [])
      ensures ok ==> |out| == (if btr0 < objsize - old(fptr) then btr0 else objsize - old(fptr))
      ensures out == old(Content())[old(fptr)..old(fptr) + |out|]
      ensures old(Marked()) ==> Marked()
      ensures DataKept(g, chain, old(data), data)
      ensures Table() == old(Table())
      ensures chain == old(chain)
    {
      hide ValidChain, ValidBuffer, ValidSize, ValidPointer, Content, DataKept, Table, FatFs.Entries;
      PointerInFile();
      Untouched();
      if err || !readable { return false, []; }
      var btr := btr0;
      if btr > objsize - fptr { btr := objsize - fptr; }
      ghost var c, start, data0 := Content(), fptr, data;
      out := [];
      while |out| < btr
        invariant Valid() && Content() == c && |out| <= btr
        invariant fptr == start + |out|
        invariant out == c[start..start + |out|]
        invariant DataKept(g, chain, data0, data) && Table() == old(Table()) && chain == old(chain)
        invariant dirty ==> old(dirty)
      {
        ghost var data1 := data;
        var chunk := ReadChunk(btr - |out|);
        DataKeptTwice(g, chain, chain, data0, data1, data);
        out := out + chunk;
      }
      ok := true;
    }

    lemma DistinctChain()
      requires ValidChain()
      ensures Distinct(chain)
    {
    }

    lemma PrefixOfChain(ch: seq<nat>, e: seq<nat>)
      requires ValidChain() && FatKept(ch, chain, e, Table())
      ensures ch <= chain
    {
    }

    lemma Untouched()
      requires ValidBuffer() && ValidChain()
      ensures DataKept(g, chain, data, data) && FatKept(chain, chain, Table(), Table())
    {
    }

    lemma PointerInFile()
      requires ValidSize()
      ensures fptr <= objsize <= MAX_SIZE
    {
    }

    // -------------------------------------------------------------- writing

    /** The contents do not change when the chain grows. */
    lemma ContentOfGrown(c: nat)
      requires ValidBuffer() && ValidSize() && Placed(g, data, chain + [c])
      ensures objsize <= Count(g, |chain + [c]|) * g.ss
      ensures Bytes(g.ss, SectorsOf(g, data, chain + [c], held, buf[..]))[..objsize] == Content()
    {
      hide SectorsOf, Placed, Bytes;
      GrownFile(g, data, chain, c, held, buf[..]);
      BytesOfPrefix(g.ss, SectorsOf(g, data, chain + [c], held, buf[..]), Count(g, |chain|), objsize);
    }

    /** What is known when the FAT has just linked cluster `c` to the chain. */
    lemma Lengthened(c: nat)
      requires ValidBuffer() && ValidSize() && alloc.Valid()
      requires |data| == g.csize * (alloc.fs.at.nFatent - 2)
      requires IsChain(alloc.fs.Entries(), chain + [c])
      ensures Placed(g, data, chain + [c])
      ensures objsize <= Count(g, |chain + [c]|) * g.ss
      ensures Bytes(g.ss, SectorsOf(g, data, chain + [c], held, buf[..]))[..objsize] == Content()
      ensures held >= 0 ==> ClusterOf(g, held) < |chain| && Place(g, chain + [c], held) == Place(g, chain, held)
    {
      hide SectorsOf, Bytes, Count;
      ChainPlaced(g, data, alloc.fs.Entries(), chain + [c]);
      ContentOfGrown(c);
      if held >= 0 { SamePlace(g, chain, c, held); }
    }

    /** The first cluster of an empty chain. */
    method Begin() returns (clst: nat)
      requires Sound() && chain == []
      modifies this`chain, this`sclust, alloc, alloc.fs, alloc.fs.win
      ensures Sound() && Content() == old(Content())
      ensures clst == 0 ==> Zeros(Table()) == {}
      ensures clst == 1 ==> HasBadEntry(Table())
      ensures if clst >= 2 then chain == [clst] else chain == []
      ensures FatKept(old(chain), chain, old(Table()), Table())
    {
      hide SectorsOf, Bytes, Count, Placed, Place, ClusterOf, FatFs.Valid, FatFs.View, FatFs.Fat, FatFs.Entries, Fit,
          Allocator.FreeCountOk, FatKept, IsChain, Zeros, HasBadEntry;
      ghost var e := alloc.fs.Entries();
      FatSame(chain, e);
      clst := alloc.CreateChain(0);
      if clst >= 2 {
        InZeros(e, clst);
        OneCluster(e, clst, EndValue(alloc.fs.at.fsType));
        assert chain == [];
        assert chain + [clst] == [clst];
        Lengthened(clst);
        chain, sclust := [clst], clst;
      }
    }

    /** The cluster after the `j`-th of the chain, which is made longer if need be. */
    method Stretch(from: nat, ghost j: nat) returns (clst: nat)
      requires Sound() && j < |chain| && from == chain[j]
      modifies this`chain, alloc, alloc.fs, alloc.fs.win
      ensures Sound() && Content() == old(Content())
      ensures clst == 0 ==> j + 1 == |chain| && Zeros(Table()) == {}
      ensures clst == 1 ==> HasBadEntry(Table())
      ensures if clst >= 2 then j + 1 < |chain| && clst == chain[j + 1] else j + 1 == |chain|
      ensures chain == if j + 1 < |old(chain)| || clst < 2 then old(chain) else old(chain) + [clst]
      ensures FatKept(old(chain), chain, old(Table()), Table())
    {
      hide SectorsOf, Bytes, Count, Placed, Place, ClusterOf, FatFs.Valid, FatFs.View, FatFs.Fat, FatFs.Entries, Fit,
          Allocator.FreeCountOk, FatKept, HasBadEntry;
      ghost var e := alloc.fs.Entries();
      FatSame(chain, e);
      if j + 1 < |chain| { NextInChain(e, chain, j + 1); } else { LastOfChain(e, chain); }
      clst := alloc.CreateChain(from);
      if j + 1 == |chain| && clst >= 2 {
        InZeros(e, clst);
        FatStretched(e, chain, clst, EndValue(alloc.fs.at.fsType));
        LongerChain(e, chain, clst, EndValue(alloc.fs.at.fsType));
        Lengthened(clst);
        chain := chain + [clst];
      }
    }

    /** At a sector boundary: makes the cluster of the pointer the current one, allocating it if
        the file has none yet (`f_write`). 0 when no cluster is free, 1 on a bad entry. */
    method ReachCluster() returns (clst: nat)
      requires Valid() && Off(fptr, g.ss) == 0
      modifies this`chain, this`sclust, this`clust, alloc, alloc.fs, alloc.fs.win
      ensures if clst >= 2 then AtCluster() else Valid()
      ensures Content() == old(Content())
      ensures clst == 0 ==> Full()
      ensures clst == 1 ==> HasBadEntry(Table())
      ensures FatKept(old(chain), chain, old(Table()), Table())
    {
      hide SectorsOf, Place, ClusterOf, SectorIn, Sec, Off, Count, Zeros, Content, ValidChain, ValidBuffer,
          ValidSize, ValidPointer, FatKept, HasBadEntry, Geometry.Bcs;
      FatSame(chain, Table());
      GeometryOk();
      Boundary();
      ghost var c := ClusterOf(g, Sec(fptr, g.ss));
      clst := clust;
      if SectorIn(g, Sec(fptr, g.ss)) == 0 {
        if fptr == 0 {
          clst := sclust;
          if clst == 0 { clst := Begin(); }
        } else {
          clst := Stretch(clust, c - 1);
        }
        if clst < 2 {
          PointerKept(old(chain));
          return;
        }
      }
      MakeCurrent(clst);
    }

    method MakeCurrent(clst: nat)
      requires Sound() && ClusterOf(g, Sec(fptr, g.ss)) < |chain| && clst == chain[ClusterOf(g, Sec(fptr, g.ss))]
      modifies this`clust
      ensures AtCluster() && Content() == old(Content())
    {
      hide SectorsOf, Place, ClusterOf, Sec, Count, Placed, FatFs.Valid, FatFs.View, FatFs.Fat, FatFs.Entries, Bytes;
      clust := clst;
    }

    /** The current cluster at a sector boundary. */
    lemma Boundary()
      requires Valid() && Off(fptr, g.ss) == 0
      ensures g.Valid() && (if chain == [] then sclust == 0 else sclust == chain[0] >= 2)
      ensures var c, csect := ClusterOf(g, Sec(fptr, g.ss)), SectorIn(g, Sec(fptr, g.ss));
              && c <= |chain|
              && (csect == 0 && fptr > 0 ==> c > 0 && clust == chain[c - 1])
              && (fptr == 0 ==> c == 0 && csect == 0)
              && (csect == 0 ==> fptr == c * g.Bcs())
              && (csect != 0 ==> c < |chain| && clust == chain[c] >= 2)
      ensures fptr > 0 ==>
                ClusterOf(g, Sec(fptr - 1, g.ss)) < |chain| && clust == chain[ClusterOf(g, Sec(fptr - 1, g.ss))]
    {
      hide SectorsOf, Placed, Place, ClusterOf, SectorIn, Sec, Off, Count, FatFs.Valid, FatFs.View, FatFs.Fat,
          FatFs.Entries;
      UpToCluster(g, fptr, |chain|);
      Layers(g, fptr);
      if fptr > 0 { Before(g, fptr); } else { StartsAtZero(g); }
      if chain != [] { MemberIsCluster(alloc.fs.Entries(), chain, 0); }
      var c := ClusterOf(g, Sec(fptr, g.ss));
      if c < |chain| { MemberIsCluster(alloc.fs.Entries(), chain, c); }
    }

    /** Nothing about the pointer changes while the chain stays. */
    lemma PointerKept(ch: seq<nat>)
      requires Sound() && chain == ch && g.Valid()
      requires fptr > 0 ==> ClusterOf(g, Sec(fptr - 1, g.ss)) < |ch| && clust == ch[ClusterOf(g, Sec(fptr - 1, g.ss))]
      requires Off(fptr, g.ss) == 0
      ensures Valid()
    {
    }

    /** `disk_write` of whole sectors. */
    method StoreSectors(a: nat, d: seq<byte>, cc: nat)
      requires g.ss > 0 && cc == |d| / g.ss && a + cc <= |data|
      requires forall k :: 0 <= k < |data| ==> |data[k]| == g.ss
      modifies this`data
      ensures |data| == |old(data)| && forall k :: 0 <= k < |data| ==> |data[k]| == g.ss
      ensures forall i :: 0 <= i < |data| ==> data[i] == if a <= i < a + cc then Piece(g.ss, d, i - a) else old(data)[i]
    {
      hide Piece;
      var k := 0;
      while k < cc
        invariant 0 <= k <= cc && |data| == |old(data)|
        invariant forall i :: 0 <= i < |data| ==> |data[i]| == g.ss
        invariant forall i :: 0 <= i < |data| ==>
                    data[i] == if a <= i < a + k then Piece(g.ss, d, i - a) else old(data)[i]
      {
        data := data[a + k := Piece(g.ss, d, k)];
        k := k + 1;
      }
    }

    /** `disk_write` of `cc` whole sectors from sector `q` of the file on; the buffer is refilled
        if it holds one of them. */
    method DirectWrite(at: nat, d: seq<byte>, cc: nat, ghost q: nat)
      requires ValidBuffer() && !dirty && ClusterOf(g, q) < |chain| && at == g.database + Place(g, chain, q)
      requires cc == |d| / g.ss && SectorIn(g, q) + cc <= g.csize
      modifies this`data, this`dirty, buf
      ensures ValidBuffer() && !dirty && |data| == |old(data)|
      ensures Replaced(g.ss, old(Sectors()), Sectors(), q, d)
      ensures DataKept(g, chain, old(data), data)
    {
      hide SectorsOf, Place, ClusterOf, SectorIn, Count, Piece, Apart;
      ghost var other := buf[..];
      WithoutBuffer(other);
      ghost var before := SectorsOf(g, data, chain, -1, other);
      PlacesAhead(q, cc);
      StoreSectors(at - g.database, d, cc);
      ghost var stored := SectorsOf(g, data, chain, -1, other);
      forall n: nat | n < |stored|
        ensures stored[n] == if q <= n < q + cc then Piece(g.ss, d, n - q) else before[n]
      {
        StoredSectors(g, old(data), data, chain, q, cc, d, other, n);
      }
      forall i | 0 <= i < |data| && Apart(g, chain, i)
        ensures data[i] == old(data)[i]
      {
        ApartFromRun(g, chain, q, cc, i);
      }
      if held >= 0 { PlaceAmong(g, chain, q, cc, held); }
      if at <= sect < at + cc {
        var s := Piece(g.ss, d, sect - at);
        forall i | 0 <= i < g.ss { buf[i] := s[i]; }
        assert buf[..] == s;
        dirty := false;
      }
      WithoutBuffer(other);
    }

    lemma PlacesAhead(q: nat, cc: nat)
      requires ValidBuffer() && ClusterOf(g, q) < |chain| && SectorIn(g, q) + cc <= g.csize
      ensures 0 <= Place(g, chain, q) && Place(g, chain, q) + cc <= |data|
    {
      if cc > 0 { SameCluster(g, chain, q, cc - 1); }
    }

    /** Whole sectors without the buffer (`f_write`). */
    method WriteSectors(at: nat, d: seq<byte>, cc: nat)
      requires AtCluster() && !dirty && Off(fptr, g.ss) == 0 && fptr + |d| <= MAX_SIZE
      requires 0 < cc == |d| / g.ss && |d| == cc * g.ss && SectorIn(g, Sec(fptr, g.ss)) + cc <= g.csize
      requires at == g.database + Place(g, chain, Sec(fptr, g.ss))
      modifies this`data, this`dirty, this`fptr, this`objsize, buf
      ensures Valid() && fptr == old(fptr) + |d| && Content() == Splice(old(Content()), old(fptr), d)
      ensures DataKept(g, chain, old(data), data)
    {
      hide SectorsOf, Placed, Place, ClusterOf, SectorIn, Sec, Off, Count, Bytes, FatFs.Valid, FatFs.View, FatFs.Fat,
          FatFs.Entries, Replaced, Splice;
      ghost var q := Sec(fptr, g.ss);
      ghost var s0 := Sectors();
      PositionIs(g, fptr);
      DirectWrite(at, d, cc, q);
      SameCluster(g, chain, q, cc);
      SplicedSectors(g.ss, s0, Sectors(), q, cc, d, objsize, fptr);
      PointerAfterSectors(fptr, cc);
      fptr := fptr + |d|;
      if fptr > objsize { objsize := fptr; }
    }

    /** Sector `q` is in the buffer, which may differ from the sector in `s0` past the end of the
        file; the other sectors of the file are those of `s0`. */
    ghost predicate Filled(s0: seq<Sector>, q: nat)
      reads this, buf
    {
      && Placed(g, data, chain) && buf.Length == g.ss && held == q
      && ClusterOf(g, q) < |chain| && sect == g.database + Place(g, chain, q)
      && |s0| == Count(g, |chain|) && q < |s0| && (forall n :: 0 <= n < |s0| ==> |s0[n]| == g.ss)
      && SectorsOf(g, data, chain, q, buf[..]) == s0[q := buf[..]]
      && forall k :: 0 <= k < g.ss && q * g.ss + k < objsize ==> buf[k] == s0[q][k]
    }

    /** Brings the sector of the pointer into the buffer to be written, but does not read it on
        the growing edge of the file (`f_write`). */
    method Fill(at: nat, ghost s0: seq<Sector>)
      requires AtCluster() && !dirty && Off(fptr, g.ss) == 0 && s0 == Sectors()
      requires at == g.database + Place(g, chain, Sec(fptr, g.ss))
      modifies this`sect, this`held, buf
      ensures Filled(s0, Sec(fptr, g.ss))
    {
      hide SectorsOf, Place, ClusterOf, Count, Sec, Off, ValidChain;
      ghost var q := Sec(fptr, g.ss);
      PositionIs(g, fptr);
      InData(q);
      ghost var other := buf[..];
      WithoutBuffer(other);
      if sect != at {
        if fptr < objsize {
          forall i | 0 <= i < g.ss { buf[i] := data[at - g.database][i]; }
          assert buf[..] == data[at - g.database];
        }
      } else {
        HeldHere(q);
      }
      sect := at;
      held := q;
      BufferInstead(s0, q, other);
    }

    lemma BufferInstead(s0: seq<Sector>, q: nat, other: Sector)
      requires Placed(g, data, chain) && buf.Length == g.ss == |other| && s0 == SectorsOf(g, data, chain, -1, other)
      requires ClusterOf(g, q) < |chain|
      ensures q < |s0| && SectorsOf(g, data, chain, q, buf[..]) == s0[q := buf[..]]
    {
      hide Place, ClusterOf, SectorsOf, Count;
      ClusterBound(g, q, |chain|);
      var s := SectorsOf(g, data, chain, q, buf[..]);
      forall n: nat | n < |s0|
        ensures s[n] == s0[q := buf[..]][n]
      {
        SectorAt(g, data, chain, q, buf[..], n);
        SectorAt(g, data, chain, -1, other, n);
      }
    }

    /** Inside a sector the buffer holds it already. */
    lemma FilledAlready()
      requires AtCluster() && held == Sec(fptr, g.ss)
      ensures Filled(Sectors(), held)
    {
      hide Place, ClusterOf, SectorsOf, Count, Sec, Off;
      InData(held);
      BufferBytes(held);
      assert Sectors() == Sectors()[held := buf[..]];
    }

    lemma BufferBytes(q: nat)
      requires ValidBuffer() && q < |Sectors()| && Sectors()[q] == buf[..]
      ensures forall k :: 0 <= k < g.ss ==> buf[k] == Sectors()[q][k]
    {
    }

    /** Part of the sector in the buffer (`f_write`). */
    method WritePart(wbuff: seq<byte>, ghost s0: seq<Sector>) returns (wcnt: nat)
      requires buf != alloc.fs.win && ValidChain() && ValidSize() && Filled(s0, Sec(fptr, g.ss))
      requires clust == chain[ClusterOf(g, Sec(fptr, g.ss))] && 0 < |wbuff| && fptr + |wbuff| <= MAX_SIZE
      modifies this`dirty, this`fptr, this`objsize, buf
      ensures Valid() && 0 < wcnt <= |wbuff| && fptr == old(fptr) + wcnt
      ensures old(objsize) <= |s0| * g.ss
      ensures Content() == Splice(Bytes(g.ss, s0)[..old(objsize)], old(fptr), wbuff[..wcnt])
    {
      hide SectorsOf, Placed, Place, ClusterOf, SectorIn, Sec, Off, Count, Bytes, FatFs.Valid, FatFs.View, FatFs.Fat,
          FatFs.Entries, Splice, Allocator.FreeCountOk, IsChain;
      ghost var q := Sec(fptr, g.ss);
      var o := Off(fptr, g.ss);
      PositionIs(g, fptr);
      wcnt := g.ss - o;
      if wcnt > |wbuff| { wcnt := |wbuff|; }
      StorePart(o, wbuff[..wcnt], s0, q);
      SplicedSector(g.ss, s0, q, o, buf[..], wbuff[..wcnt], objsize);
      AfterPart(g.ss, fptr, wcnt);
      fptr := fptr + wcnt;
      if fptr > objsize { objsize := fptr; }
    }

    /** Bytes stored in the buffer from place `o` on. */
    method StorePart(o: nat, d: seq<byte>, ghost s0: seq<Sector>, ghost q: nat)
      requires Filled(s0, q) && o + |d| <= g.ss
      modifies this`dirty, buf
      ensures ValidBuffer() && Sectors() == s0[q := buf[..]]
      ensures forall k :: 0 <= k < |d| ==> buf[..][o + k] == d[k]
      ensures forall k :: 0 <= k < g.ss && (k < o || o + |d| <= k) && q * g.ss + k < objsize ==> buf[..][k] == s0[q][k]
    {
      hide SectorsOf, Placed, Place, ClusterOf, Count;
      ghost var before := buf[..];
      forall i | 0 <= i < |d| { buf[o + i] := d[i]; }
      assert forall k :: 0 <= k < |d| ==> buf[o + k] == d[k];
      dirty := true;
      ChangedSector(s0, q, before);
    }

    lemma ChangedSector(s0: seq<Sector>, q: nat, before: Sector)
      requires Placed(g, data, chain) && buf.Length == g.ss == |before| && |s0| == Count(g, |chain|)
      requires q < |s0| && SectorsOf(g, data, chain, q, before) == s0[q := before]
      ensures SectorsOf(g, data, chain, q, buf[..]) == s0[q := buf[..]]
    {
      hide SectorsOf, Placed, Count;
      ChangedBuffer(g, data, chain, q, before, buf[..]);
    }

    /** One round of the loop of `f_write`. `clst` is 0 when no cluster is free and 1 on a bad
        entry; nothing is written then. */
    method WriteChunk(wbuff: seq<byte>) returns (wcnt: nat, clst: nat)
      requires Valid() && 0 < |wbuff| && fptr + |wbuff| <= MAX_SIZE
      modifies this`chain, this`sclust, this`clust, this`data, this`dirty, this`sect, this`held, this`fptr, this`objsize
      modifies buf, alloc, alloc.fs, alloc.fs.win
      ensures Valid() && wcnt <= |wbuff| && fptr == old(fptr) + wcnt
      ensures Content() == Splice(old(Content()), old(fptr), wbuff[..wcnt])
      ensures clst >= 2 <==> wcnt > 0
      ensures clst == 0 ==> Full()
      ensures clst == 1 ==> HasBadEntry(Table())
      ensures DataKept(g, chain, old(data), data)
      ensures FatKept(old(chain), chain, old(Table()), Table())
    {
      hide SectorsOf, ClusterOf, SectorIn, Sec, Off, Bytes, ValidChain, ValidBuffer, ValidSize, ValidPointer, Count,
          Zeros, Splice, FatFs.Entries, FatKept, HasBadEntry, Full;
      FatSame(chain, Table());
      GeometryOk();
      PointerInFile();
      SpliceNothing(Content(), fptr);
      wcnt, clst := 0, 2;
      if Off(fptr, g.ss) == 0 {
        clst := ReachCluster();
        if clst < 2 {
          assert wbuff[..0] == [];
          return;
        }
        FlushCurrent();
        var at := CurrentSector();
        wcnt := WriteAligned(at, wbuff);
      } else {
        InsideSector();
        FilledAlready();
        wcnt := WritePart(wbuff, Sectors());
      }
    }

    /** From a sector boundary on: whole sectors directly, or a part of one. */
    method WriteAligned(at: nat, wbuff: seq<byte>) returns (wcnt: nat)
      requires AtCluster() && !dirty && Off(fptr, g.ss) == 0 && 0 < |wbuff| && fptr + |wbuff| <= MAX_SIZE
      requires at == g.database + Place(g, chain, Sec(fptr, g.ss))
      modifies this`data, this`dirty, this`sect, this`held, this`fptr, this`objsize, buf
      ensures Valid() && 0 < wcnt <= |wbuff| && fptr == old(fptr) + wcnt
      ensures Content() == Splice(old(Content()), old(fptr), wbuff[..wcnt])
      ensures DataKept(g, chain, old(data), data)
    {
      hide SectorsOf, ClusterOf, Place, SectorIn, Sec, Off, Bytes, Count, Splice, FatFs.Entries, FatFs.Valid,
          FatFs.View, FatFs.Fat, Placed, Filled, IsChain, Allocator.FreeCountOk;
      var cc := |wbuff| / g.ss;
      if cc > 0 {
        var csect := SectorIn(g, Sec(fptr, g.ss));
        if csect + cc > g.csize { cc := g.csize - csect; }
        SectorsAmong(cc, |wbuff|);
        wcnt := cc * g.ss;
        WholeCount(cc);
        WriteSectors(at, wbuff[..wcnt], cc);
      } else {
        ghost var s0 := Sectors();
        Fill(at, s0);
        wcnt := WritePart(wbuff, s0);
      }
    }

    lemma WholeCount(cc: nat)
      requires g.ss > 0 && cc > 0
      ensures cc * g.ss > 0 && cc * g.ss / g.ss == cc
    {
      AtLeast(cc, 1, g.ss);
      DivisionIsUnique(cc * g.ss, g.ss, cc, 0);
    }

    method FlushCurrent()
      requires AtCluster()
      modifies this`data, this`dirty
      ensures AtCluster() && !dirty && Content() == old(Content())
      ensures DataKept(g, chain, old(data), data)
    {
      hide SectorsOf, Place, ClusterOf, Sec, Placed, FatFs.Valid, FatFs.View, FatFs.Fat, FatFs.Entries;
      Flush();
    }

    /** The clusters of the file and the free ones, now and when the table was `e`. */
    lemma CapacityKept(ch: seq<nat>, e: seq<nat>)
      requires ValidChain() && FatKept(ch, chain, e, Table()) && IsFileChain(e, ch)
      ensures Capacity() == Room(g, |ch| + |Zeros(e)|)
      ensures HasBadEntry(Table()) <==> HasBadEntry(e)
    {
      hide Zeros, FatKept, IsChain, Placed, Room, HasBadEntry;
      Conservation(ch, chain, e, Table());
      SameBadEntries(ch, chain, e, Table());
    }

    lemma FileChain()
      requires ValidChain()
      ensures IsFileChain(Table(), chain)
    {
    }

    /** The file never gets longer than its capacity, and reaches it when it is full. */
    lemma CapacityBound()
      requires ValidChain() && ValidSize()
      ensures fptr <= objsize <= Capacity() && (Full() ==> fptr == Capacity())
    {
      hide Zeros, Placed, IsChain;
      ClusterBytes(g, |chain|);
      AtLeast(|chain| + |Zeros(Table())|, |chain|, g.Bcs());
    }

    /** The loop of `f_write`: ends early when the volume is full, and fails on a bad entry. */
    method WriteAll(wbuff: seq<byte>) returns (ok: bool, bw: nat)
      requires Valid() && fptr + |wbuff| <= MAX_SIZE
      modifies this`chain, this`sclust, this`clust, this`data, this`dirty, this`sect, this`held, this`fptr, this`objsize
      modifies buf, alloc, alloc.fs, alloc.fs.win
      ensures Valid() && bw <= |wbuff| && fptr == old(fptr) + bw
      ensures Content() == Splice(old(Content()), old(fptr), wbuff[..bw])
      ensures if ok then bw == |wbuff| || Full() else HasBadEntry(Table())
      ensures DataKept(g, chain, old(data), data)
      ensures FatKept(old(chain), chain, old(Table()), Table())
    {
      hide ValidChain, ValidBuffer, ValidSize, ValidPointer, Content, Splice, DataKept, FatKept, Table, Full,
          HasBadEntry;
      PointerInFile();
      SpliceNothing(Content(), fptr);
      Untouched();
      ghost var data0, e0 := data, Table();
      bw := 0;
      assert wbuff[..0] == [];
      ghost var c, start := Content(), fptr;
      while bw < |wbuff|
        invariant Valid() && bw <= |wbuff| && fptr == start + bw
        invariant Content() == Splice(c, start, wbuff[..bw])
        invariant DataKept(g, chain, data0, data) && FatKept(old(chain), chain, e0, Table())
      {
        ghost var ch1, data1, e1 := chain, data, Table();
        var wcnt, clst := WriteChunk(wbuff[bw..]);
        SpliceTwice(c, start, wbuff[..bw], wbuff[bw..][..wcnt]);
        Joined(wbuff, bw, wcnt);
        PrefixOfChain(ch1, e1);
        DataKeptTwice(g, ch1, chain, data0, data1, data);
        DistinctChain();
        FatKeptTwice(old(chain), ch1, chain, e0, e1, Table());
        bw := bw + wcnt;
        if clst == 0 { break; }
        if clst == 1 { return false, bw; }
      }
      ok := true;
    }

    /** `f_write`: writes at the pointer, as much as the capacity of the volume and 4 GiB - 1
        allow. It is aborted only by a bad entry, and later operations then fail. */
    method Write(wbuff: seq<byte>) returns (ok: bool, bw: nat)
      requires Valid() && |wbuff| <= MAX_SIZE
      modifies this, buf, alloc, alloc.fs, alloc.fs.win
      ensures Valid() && bw <= |wbuff| && fptr == old(fptr) + bw
      ensures Content() == Splice(old(Content()), old(fptr), wbuff[..bw])
      ensures !writable || old(err) ==> !ok && bw == 0
      ensures ok ==> bw == Min(|wbuff|, Min(Capacity(), MAX_SIZE) - old(fptr))
      ensures !ok && writable && !old(err) ==> HasBadEntry(old(Table()))
      ensures err == (old(err) || (writable && !ok))
      ensures modified == (ok || old(modified))
      ensures Capacity() == old(Capacity()) && (HasBadEntry(Table()) <==> HasBadEntry(old(Table())))
      ensures old(Marked()) ==> Marked()
      ensures DataKept(g, chain, old(data), data)
      ensures FatKept(old(chain), chain, old(Table()), Table())
    {
      hide ValidChain, ValidBuffer, ValidSize, ValidPointer, Content, Zeros, Splice, FatFs.Entries, DataKept, FatKept,
          Table, Full, HasBadEntry, Geometry.Bcs, IsFileChain, Capacity;
      PointerInFile();
      SpliceNothing(Content(), fptr);
      Untouched();
      FileChain();
      ghost var e0 := Table();
      CapacityKept(chain, e0);
      bw := 0;
      assert wbuff[..0] == [];
      if err || !writable { return false, 0; }
      var btw := |wbuff|;
      if (fptr + btw) % 0x1_0000_0000 < fptr { btw := MAX_SIZE - fptr; }
      ok, bw := WriteAll(wbuff[..btw]);
      assert wbuff[..btw][..bw] == wbuff[..bw];
      CapacityKept(old(chain), e0);
      CapacityBound();
      if !ok {
        err := true;
        return;
      }
      modified := true;
    }

    // -------------------------------------------------------------- seeking

    /** The first `n` bytes of the clusters of the file. */
    ghost function Prefix(n: nat): (r: seq<byte>)
      requires ValidBuffer() && n <= Count(g, |chain|) * g.ss
      reads this`data, this`chain, this`held, this`sect, this`dirty, buf
      ensures |r| == n
    {
      Bytes(g.ss, Sectors())[..n]
    }

    /** Where `f_lseek` starts: at the cluster of the pointer if the target is not before it, and
        else at the first one, which may have to be allocated. */
    method StartSeek(ofs: nat) returns (clst: nat, ghost j: nat)
      requires Valid() && 0 < ofs && g.Bcs() > 0
      modifies this`chain, this`sclust, this`clust, this`fptr, alloc, alloc.fs, alloc.fs.win
      ensures Sound() && Content() == old(Content())
      ensures if clst >= 2 then j < |chain| && clst == clust == chain[j] && fptr == j * g.Bcs() < ofs
              else fptr == 0 && chain == []
      ensures clst == 0 ==> Full()
      ensures clst == 1 ==> HasBadEntry(Table())
      ensures FatKept(old(chain), chain, old(Table()), Table())
    {
      hide SectorsOf, Bytes, Count, Placed, Place, IsChain, FatFs.Valid, FatFs.View, FatFs.Fat, FatFs.Entries,
          Allocator.FreeCountOk, Zeros, ClusterOf, Sec, Off, Geometry.Bcs, FatKept, HasBadEntry;
      FatSame(chain, Table());
      var ifptr := fptr;
      var bcs := g.Bcs();
      fptr, j := 0, 0;
      if ifptr > 0 && (ofs - 1) / bcs >= (ifptr - 1) / bcs {
        StartOfCluster(g, ifptr - 1, ofs - 1);
        j := (ifptr - 1) / bcs;
        ChainClusters(j);
        fptr := (ifptr - 1) / bcs * bcs;
        clst := clust;
      } else {
        ChainClusters(0);
        clst := sclust;
        if clst == 0 {
          clst := Begin();
          if clst == 1 { return; }
        }
        clust := clst;
      }
    }

    lemma ChainClusters(i: nat)
      requires ValidChain()
      ensures if chain == [] then sclust == 0 else sclust == chain[0]
      ensures i < |chain| ==> chain[i] >= 2
    {
      if i < |chain| { MemberIsCluster(alloc.fs.Entries(), chain, i); }
    }

    /** One round of the loop of `f_lseek`: from the start of cluster `j` to that of the next. */
    method NextCluster(from: nat, ghost j: nat) returns (clst: nat)
      requires Sound() && j < |chain| && from == clust == chain[j] && fptr == j * g.Bcs()
      requires fptr + g.Bcs() <= MAX_SIZE && (writable || fptr + g.Bcs() < objsize)
      modifies this`chain, this`clust, this`fptr, this`objsize, this`modified, alloc, alloc.fs, alloc.fs.win
      ensures Sound() && fptr == (j + 1) * g.Bcs() == old(fptr) + g.Bcs()
      ensures objsize == if fptr > old(objsize) then fptr else old(objsize)
      ensures Content()[..old(objsize)] == old(Content())
      ensures modified == (old(modified) || objsize != old(objsize))
      ensures if clst >= 2 then j + 1 < |chain| && clst == clust == chain[j + 1]
              else writable && j < |chain| && clust == chain[j]
      ensures clst == 0 ==> Full()
      ensures clst == 1 ==> HasBadEntry(Table())
      ensures FatKept(old(chain), chain, old(Table()), Table())
    {
      hide SectorsOf, Bytes, Count, Placed, Place, IsChain, FatFs.Valid, FatFs.View, FatFs.Fat, FatFs.Entries, Zeros,
          ClusterOf, Sec, Off, Geometry.Bcs, FatKept, HasBadEntry;
      FatSame(chain, Table());
      EndOfCluster(g, j, |chain|);
      fptr := fptr + g.Bcs();
      if writable {
        if fptr > objsize {
          objsize := fptr;
          modified := true;
        }
        assert Content()[..old(objsize)] == old(Content());
        clst := Stretch(from, j);
        if clst < 2 { return; }
      } else {
        LinkOf(j);
        clst := alloc.fs.GetFat(from);
      }
      clust := clst;
    }

    lemma LinkOf(j: nat)
      requires ValidChain() && ValidSize() && g.Valid() && (j + 1) * g.Bcs() < objsize
      ensures j + 1 < |chain| && 2 <= chain[j] < alloc.fs.at.nFatent
      ensures alloc.fs.Entries()[chain[j]] == chain[j + 1] && 2 <= chain[j + 1] < alloc.fs.at.nFatent
    {
      hide Placed, FatFs.Valid, FatFs.View, FatFs.Fat, FatFs.Entries, Allocator.FreeCountOk, Geometry.Bcs;
      EndOfClusters(g, j + 1, |chain|);
      NextInChain(alloc.fs.Entries(), chain, j + 1);
    }

    /** The end of `f_lseek`: the file gets longer if the pointer is past its end, and the sector
        of the pointer is brought into the buffer if the pointer is inside it. */
    method Settle(nsect: nat)
      requires Found(nsect)
      modifies this`data, this`dirty, this`sect, this`held, this`objsize, this`modified, buf
      ensures Valid() && objsize == if fptr > old(objsize) then fptr else old(objsize)
      ensures Content()[..old(objsize)] == old(Prefix(objsize))
      ensures (dirty ==> old(dirty)) && modified == (old(modified) || objsize != old(objsize))
      ensures DataKept(g, chain, old(data), data)
    {
      hide SectorsOf, Bytes, Count, Place, ClusterOf, Sec, Off, IsChain, FatFs.Valid, FatFs.View, FatFs.Fat,
          FatFs.Entries, Allocator.FreeCountOk;
      if fptr > objsize {
        objsize := fptr;
        modified := true;
      }
      if Off(fptr, g.ss) != 0 { Hold(nsect, Sec(fptr, g.ss)); }
    }

    /** What is known when the target of a seek has been found and its sector is `nsect`. */
    ghost predicate Found(nsect: nat)
      reads this`data, this`chain, this`sclust, this`clust, this`held, this`sect, this`dirty, this`fptr, this`objsize,
          buf, alloc, alloc.fs, alloc.fs.win
    {
      && buf != alloc.fs.win && ValidChain() && ValidBuffer()
      && fptr <= Count(g, |chain|) * g.ss && objsize <= Count(g, |chain|) * g.ss
      && fptr <= MAX_SIZE && objsize <= MAX_SIZE
      && (fptr > 0 ==> ClusterOf(g, Sec(fptr - 1, g.ss)) < |chain| && clust == chain[ClusterOf(g, Sec(fptr - 1, g.ss))])
      && (Off(fptr, g.ss) != 0 ==>
            ClusterOf(g, Sec(fptr, g.ss)) < |chain| && nsect == g.database + Place(g, chain, Sec(fptr, g.ss)))
    }

    /** The pointer goes to `ofs` bytes from the start of cluster `j` (`f_lseek`). */
    method Land(clst: nat, ofs: nat, ghost j: nat) returns (nsect: nat)
      requires Sound() && j < |chain| && clst == clust == chain[j] && 0 < ofs <= g.Bcs()
      requires fptr == j * g.Bcs() && fptr + ofs <= MAX_SIZE
      modifies this`fptr
      ensures Found(nsect) && fptr == old(fptr) + ofs
    {
      hide ClusterOf, Sec, Off, Count, Placed, IsChain, FatFs.Valid, FatFs.View, FatFs.Fat, FatFs.Entries,
          Allocator.FreeCountOk, Geometry.Bcs, SectorIn;
      nsect := 0;
      EndOfCluster(g, j, |chain|);
      IntoCluster(g, j, ofs);
      fptr := fptr + ofs;
      if Off(ofs, g.ss) != 0 {
        MemberIsCluster(alloc.fs.Entries(), chain, j);
        nsect := ClustToSect(clst) + Sec(ofs, g.ss);
      }
    }

    /** The loop of `f_lseek`. */
    method SeekFrom(target: nat) returns (ok: bool, nsect: nat)
      requires Valid() && 0 < target <= MAX_SIZE && (writable || target <= objsize)
      modifies this`chain, this`sclust, this`clust, this`fptr, this`objsize, this`modified, this`err
      modifies alloc, alloc.fs, alloc.fs.win
      ensures if ok then Found(nsect) && err == old(err) else Valid() && err && HasBadEntry(Table())
      ensures modified == (old(modified) || objsize != old(objsize))
      ensures old(objsize) <= objsize && (objsize == old(objsize) || objsize <= fptr)
      ensures objsize <= Count(g, |chain|) * g.ss && Prefix(old(objsize)) == old(Content())
      ensures ok ==> fptr == target || (writable && fptr < target && Full())
      ensures FatKept(old(chain), chain, old(Table()), Table())
    {
      hide SectorsOf, Bytes, Count, Place, ClusterOf, Sec, Off, IsChain, FatFs.Valid, FatFs.View, FatFs.Fat,
          FatFs.Entries, Allocator.FreeCountOk, Geometry.Bcs, Zeros, Placed, ValidChain, ValidBuffer, Prefix,
          Content, FatKept, Found, ValidPointer, HasBadEntry, Full;
      ghost var size, c0, e0 := objsize, Content(), Table();
      BcsPositive();
      ok, nsect := true, 0;
      var clst, j := StartSeek(target);
      PrefixOfContent(size);
      if clst < 2 {
        EmptyFile();
        AtStart();
        if clst == 1 { ok, err := false, true; }
        return;
      }
      var ofs := target - fptr;
      while ofs > g.Bcs()
        invariant Sound() && clst >= 2 && 0 <= j < |chain| && clst == clust == chain[j] && fptr == j * g.Bcs()
        invariant fptr + ofs == target && ofs > 0
        invariant objsize == if fptr > size then fptr else size
        invariant size <= Count(g, |chain|) * g.ss && Prefix(size) == Content()[..size] == c0
        invariant FatKept(old(chain), chain, e0, Table()) && err == old(err)
        invariant modified == (old(modified) || objsize != size)
      {
        ofs := ofs - g.Bcs();
        ghost var ch1, e1 := chain, Table();
        clst := NextCluster(clst, j);
        DistinctChain();
        FatKeptTwice(old(chain), ch1, chain, e0, e1, Table());
        PrefixOfContent(size);
        if clst < 2 {
          AtBoundary(j);
          if clst == 1 { ok, err := false, true; }
          return;
        }
        j := j + 1;
      }
      nsect := Land(clst, ofs, j);
    }

    lemma AtStart()
      requires Sound() && fptr == 0
      ensures Found(0) && Valid()
    {
      StartsAtZero(g);
    }

    /** At the end of cluster `j`, which is still the current one. */
    lemma AtBoundary(j: nat)
      requires Sound() && j < |chain| && clust == chain[j] && fptr == (j + 1) * g.Bcs() && g.Bcs() > 0
      ensures Found(0) && Valid()
    {
      hide Place, ClusterOf, Sec, Off, IsChain, FatFs.Valid, FatFs.View, FatFs.Fat, FatFs.Entries,
          Allocator.FreeCountOk, Geometry.Bcs, Placed;
      IntoCluster(g, j, g.Bcs());
      assert (j + 1) * g.Bcs() == j * g.Bcs() + g.Bcs();
    }

    lemma PrefixOfContent(n: nat)
      requires ValidBuffer() && ValidSize() && n <= objsize
      ensures n <= Count(g, |chain|) * g.ss && Prefix(n) == Content()[..n]
    {
    }

    lemma EmptyFile()
      requires ValidSize() && chain == []
      ensures objsize == 0
    {
    }

    lemma BcsPositive()
      requires ValidBuffer()
      ensures g.Valid() && g.Bcs() > 0
    {
      AtLeast(g.csize, 1, g.ss);
    }

    /** `f_lseek`: moves the pointer to the target, or as far towards it as the size of the file
        allows in read-only mode, and as the capacity of the volume does otherwise: seeking past
        the end makes the file longer, by bytes left unspecified. It is aborted only by a bad
        entry, and later operations then fail. */
    method Seek(ofs0: nat) returns (ok: bool)
      requires Valid()
      modifies this, buf, alloc, alloc.fs, alloc.fs.win
      ensures Valid() && objsize == if fptr > old(objsize) then fptr else old(objsize)
      ensures Content()[..old(objsize)] == old(Content())
      ensures old(err) ==> !ok && fptr == old(fptr)
      ensures ok ==> fptr == Min(ofs0, if writable then Min(Capacity(), MAX_SIZE) else old(objsize))
      ensures !ok && !old(err) ==> HasBadEntry(old(Table()))
      ensures err == (old(err) || !ok)
      ensures modified == (old(modified) || objsize != old(objsize))
      ensures Capacity() == old(Capacity()) && (HasBadEntry(Table()) <==> HasBadEntry(old(Table())))
      ensures old(Marked()) ==> Marked()
      ensures DataKept(g, chain, old(data), data)
      ensures FatKept(old(chain), chain, old(Table()), Table())
    {
      hide ValidChain, ValidBuffer, ValidSize, ValidPointer, Content, Zeros, FatFs.Entries, DataKept, FatKept,
          Table, Full, HasBadEntry, Geometry.Bcs, IsFileChain, Capacity;
      Untouched();
      PointerInFile();
      FileChain();
      CapacityBound();
      ghost var e0 := Table();
      CapacityKept(chain, e0);
      if err { return false; }
      var ofs := if ofs0 >= 0x1_0000_0000 then MAX_SIZE else ofs0;
      if ofs > objsize && !writable { ofs := objsize; }
      ok := MoveTo(ofs);
      CapacityKept(old(chain), e0);
      CapacityBound();
    }

    /** `f_lseek` from where the target is known on. */
    method MoveTo(ofs: nat) returns (ok: bool)
      requires Valid() && ofs <= MAX_SIZE && (writable || ofs <= objsize)
      modifies this, buf, alloc, alloc.fs, alloc.fs.win
      ensures Valid() && objsize == if fptr > old(objsize) then fptr else old(objsize)
      ensures Content()[..old(objsize)] == old(Content())
      ensures ok ==> fptr == ofs || (writable && fptr < ofs && Full())
      ensures if ok then err == old(err) else err && HasBadEntry(Table())
      ensures modified == (old(modified) || objsize != old(objsize))
      ensures old(Marked()) ==> Marked()
      ensures DataKept(g, chain, old(data), data)
      ensures FatKept(old(chain), chain, old(Table()), Table())
    {
      hide SectorsOf, Bytes, Count, Place, ClusterOf, Sec, Off, IsChain, FatFs.Valid, FatFs.View, FatFs.Fat,
          FatFs.Entries, Allocator.FreeCountOk, Geometry.Bcs, Zeros, Placed, ValidChain, ValidBuffer, FatKept,
          HasBadEntry;
      FatSame(chain, Table());
      PointerInFile();
      ok := true;
      var nsect := 0;
      if ofs > 0 {
        ok, nsect := SeekFrom(ofs);
        if !ok { return; }
      } else {
        fptr := 0;
        GeometryOk();
        StartsAtZero(g);
      }
      Settle(nsect);
    }

    /** The data part of `f_sync`: the data area gets all contents, except those left in the
        buffer by an aborted write. */
    method Sync()
      requires Valid() && Marked()
      modifies this`data, this`dirty, this`modified
      ensures Valid() && Marked() && !modified && Content() == old(Content()) && fptr == old(fptr)
      ensures !err || old(modified) ==> Content() == Stored()
      ensures DataKept(g, chain, old(data), data)
      ensures Table() == old(Table())
    {
      hide SectorsOf, Bytes, Count, Place, ClusterOf, Sec, Off, IsChain, FatFs.Valid, FatFs.View, FatFs.Fat,
          FatFs.Entries, Allocator.FreeCountOk, Placed;
      if modified {
        Flush();
        WithoutBuffer(buf[..]);
        modified := false;
      } else if !dirty {
        WithoutBuffer(buf[..]);
      }
    }
  }

  lemma InNumbers(g: Geometry, i: nat)
    requires g.Valid()
    ensures Sec(i, g.ss) == i / g.ss && Off(i, g.ss) == i % g.ss
    ensures ClusterOf(g, i / g.ss) == i / g.ss / g.csize && SectorIn(g, i / g.ss) == i / g.ss % g.csize
  {
  }

  lemma PlaceIs(g: Geometry, ch: seq<nat>, n: nat)
    requires g.Valid() && ClusterOf(g, n) < |ch|
    ensures Place(g, ch, n) == g.csize * (ch[ClusterOf(g, n)] as int - 2) + SectorIn(g, n)
  {
  }

  lemma IntoCluster(g: Geometry, j: nat, ofs: nat)
    requires g.Valid() && 0 < ofs <= g.Bcs()
    ensures var p := j * g.Bcs() + ofs;
            && p > 0 && ClusterOf(g, Sec(p - 1, g.ss)) == j && Off(p, g.ss) == Off(ofs, g.ss)
            && (ofs == g.Bcs() ==> Off(p, g.ss) == 0)
            && (Off(p, g.ss) != 0 ==> ClusterOf(g, Sec(p, g.ss)) == j && SectorIn(g, Sec(p, g.ss)) == Sec(ofs, g.ss))
  {
    hide ClusterOf, SectorIn, Sec, Off, Geometry.Bcs;
    InsideOf(g, j, ofs - 1);
    if ofs < g.Bcs() {
      InsideOf(g, j, ofs);
    } else {
      assert (j + 1) * g.Bcs() == j * g.Bcs() + g.Bcs();
      StartsAtZero(g);
      InsideOf(g, j + 1, 0);
      InsideOf(g, 1, 0);
    }
  }

  lemma InsideOf(g: Geometry, j: nat, r: nat)
    requires g.Valid() && r < g.Bcs()
    ensures var p := j * g.Bcs() + r;
            && ClusterOf(g, Sec(p, g.ss)) == j && SectorIn(g, Sec(p, g.ss)) == Sec(r, g.ss)
               && Off(p, g.ss) == Off(r, g.ss)
  {
    var k, o := Sec(r, g.ss), Off(r, g.ss);
    SectorBound(r, g.csize, g.ss);
    assert r == k * g.ss + o;
    assert (j * g.csize + k) * g.ss == j * g.csize * g.ss + k * g.ss;
    assert j * (g.csize * g.ss) == j * g.csize * g.ss;
    PlaceOf(j * g.Bcs() + r, j * g.csize + k, o, g.ss);
    DivisionIsUnique(j * g.csize + k, g.csize, j, k);
  }

  /** Rounding down to clusters goes with the number of the cluster. */
  lemma StartOfCluster(g: Geometry, p: nat, t: nat)
    requires g.Valid() && g.Bcs() > 0 && t / g.Bcs() >= p / g.Bcs()
    ensures p / g.Bcs() == ClusterOf(g, Sec(p, g.ss)) && p / g.Bcs() * g.Bcs() <= p && p / g.Bcs() * g.Bcs() <= t
  {
    var bcs := g.Bcs();
    var c, k, o := ClusterOf(g, Sec(p, g.ss)), SectorIn(g, Sec(p, g.ss)), Off(p, g.ss);
    Layers(g, p);
    InsideCluster(g, c, k, o);
    DivisionIsUnique(p, bcs, c, k * g.ss + o);
    assert t == t / bcs * bcs + t % bcs;
    AtLeast(t / bcs, c, bcs);
  }

  /** A position from its cluster, its sector and its place in the sector. */
  lemma Layers(g: Geometry, p: nat)
    requires g.Valid()
    ensures p == ClusterOf(g, Sec(p, g.ss)) * g.Bcs() + (SectorIn(g, Sec(p, g.ss)) * g.ss + Off(p, g.ss))
  {
    var q := p / g.ss;
    var c, k := q / g.csize, q % g.csize;
    assert q == c * g.csize + k;
    assert q * g.ss == c * g.csize * g.ss + k * g.ss;
    assert c * (g.csize * g.ss) == c * g.csize * g.ss;
  }

  lemma InsideCluster(g: Geometry, c: nat, k: nat, o: nat)
    requires g.Valid() && k < g.csize && o < g.ss
    ensures k * g.ss + o < g.Bcs()
  {
    AtLeast(g.csize, k + 1, g.ss);
    assert (k + 1) * g.ss == k * g.ss + g.ss;
  }

  /** Bytes of whole clusters. */
  lemma ClusterBytes(g: Geometry, n: nat)
    ensures n * g.Bcs() == Count(g, n) * g.ss
  {
    assert n * (g.csize * g.ss) == n * g.csize * g.ss;
  }

  lemma EndOfCluster(g: Geometry, j: nat, n: nat)
    requires j < n
    ensures (j + 1) * g.Bcs() == j * g.Bcs() + g.Bcs() <= Count(g, n) * g.ss
  {
    ClusterBytes(g, n);
    AtLeast(n, j + 1, g.Bcs());
    assert (j + 1) * g.Bcs() == j * g.Bcs() + g.Bcs();
  }

  lemma EndOfClusters(g: Geometry, i: nat, n: nat)
    requires i * g.Bcs() < Count(g, n) * g.ss
    ensures i < n
  {
    ClusterBytes(g, n);
    AtLeast(i, n, g.Bcs());
  }

  lemma Joined(w: seq<byte>, a: nat, c: nat)
    requires a + c <= |w|
    ensures w[..a] + w[a..][..c] == w[..a + c]
  {
  }

  lemma OneCluster(e: seq<nat>, c: nat, end: nat)
    requires IsCluster(e, c) && end >= |e|
    ensures IsChain(e[c := end], [c]) && (e[c] == 0 ==> FatKept([], [c], e, e[c := end]))
  {
  }

  lemma FatSame(ch: seq<nat>, e: seq<nat>)
    ensures FatKept(ch, ch, e, e)
  {
  }

  lemma FatStretched(e: seq<nat>, ch: seq<nat>, c: nat, end: nat)
    requires IsChain(e, ch) && c < |e| && e[c] == 0
    ensures ch[|ch| - 1] < |e| && FatKept(ch, ch + [c], e, e[c := end][ch[|ch| - 1] := c])
  {
    assert IsCluster(e, ch[|ch| - 1]) && ch[|ch| - 1] in ch + [c] && c in ch + [c];
  }

  lemma SliceOfSector(ss: nat, secs: seq<Sector>, q: nat, o: nat, p: nat, w: nat)
    requires ss > 0 && (forall n :: 0 <= n < |secs| ==> |secs[n]| == ss) && q < |secs| && o + w <= ss && p == q * ss + o
    ensures p + w <= |secs| * ss && Bytes(ss, secs)[p..p + w] == secs[q][o..o + w]
  {
    hide Flat, Sec, Off;
    AtLeast(|secs|, q + 1, ss);
    assert (q + 1) * ss == q * ss + ss;
    var a, b := Bytes(ss, secs)[p..p + w], secs[q][o..o + w];
    forall i | 0 <= i < w
      ensures a[i] == b[i]
    {
      FlatAt(secs, 0, |secs|, ss, p + i);
      PlaceOf(p + i, q, o + i, ss);
    }
  }

  lemma SamePlace(g: Geometry, ch: seq<nat>, c: nat, n: nat)
    requires g.Valid() && ClusterOf(g, n) < |ch|
    ensures Place(g, ch + [c], n) == Place(g, ch, n)
  {
  }

  lemma SliceOfPrefix(all: seq<byte>, size: nat, a: nat, b: nat)
    requires a <= b <= size <= |all|
    ensures all[..size][a..b] == all[a..b]
  {
  }

  lemma BytesOfNone(ss: nat)
    requires ss > 0
    ensures Bytes(ss, []) == []
  {
  }

  lemma BytesAppend(ss: nat, secs: seq<Sector>, s: Sector)
    requires ss > 0 && (forall n :: 0 <= n < |secs| ==> |secs[n]| == ss) && |s| == ss
    ensures Bytes(ss, secs + [s]) == Bytes(ss, secs) + s
  {
    hide Flat, Sec, Off;
    var all := secs + [s];
    assert |all| * ss == |secs| * ss + ss;
    forall i | 0 <= i < |all| * ss
      ensures Bytes(ss, all)[i] == (Bytes(ss, secs) + s)[i]
    {
      FlatAt(all, 0, |all|, ss, i);
      if i < |secs| * ss {
        FlatAt(secs, 0, |secs|, ss, i);
      } else {
        PlaceOf(i, |secs|, i - |secs| * ss, ss);
      }
    }
  }

  /** Sectors that follow each other inside a cluster also do so in the data area. */
  lemma SameCluster(g: Geometry, ch: seq<nat>, q: nat, k: nat)
    requires g.Valid() && ClusterOf(g, q) < |ch| && SectorIn(g, q) + k <= g.csize
    ensures q + k <= Count(g, |ch|)
    ensures SectorIn(g, q) + k < g.csize ==>
              ClusterOf(g, q + k) == ClusterOf(g, q) && Place(g, ch, q + k) == Place(g, ch, q) + k
  {
    var c, r := q / g.csize, q % g.csize;
    assert q == c * g.csize + r;
    AtLeast(|ch|, c + 1, g.csize);
    assert (c + 1) * g.csize == c * g.csize + g.csize;
    if r + k < g.csize { DivisionIsUnique(q + k, g.csize, c, r + k); }
  }

  lemma StartsAtZero(g: Geometry)
    requires g.Valid()
    ensures Sec(0, g.ss) == 0 && Off(0, g.ss) == 0 && ClusterOf(g, 0) == 0 && SectorIn(g, 0) == 0
  {
  }

  lemma MemberIsCluster(e: seq<nat>, ch: seq<nat>, i: nat)
    requires IsChain(e, ch) && i < |ch|
    ensures 2 <= ch[i] < |e|
  {
    assert IsCluster(e, ch[i]);
  }

  lemma NextInChain(e: seq<nat>, ch: seq<nat>, i: nat)
    requires IsChain(e, ch) && 0 < i < |ch|
    ensures 2 <= ch[i - 1] < |e| && e[ch[i - 1]] == ch[i] && 2 <= ch[i] < |e|
  {
    assert IsCluster(e, ch[i - 1]) && IsCluster(e, ch[i]);
  }

  // ---------------------------------------------------------------- any sequence of operations

  datatype Op = Write(d: seq<byte>) | Read(n: nat) | Seek(ofs: nat) | Sync

  /** What an operation did and whether it succeeded: bytes written or read from position `p` on,
      or the pointer put at `p`. */
  datatype Event = Wrote(p: nat, d: seq<byte>, ok: bool) | Got(p: nat, d: seq<byte>, ok: bool) | Moved(p: nat, ok: bool)
                 | Synced

  /** Where the pointer is after some events, from `p0`. */
  ghost function Pointer(p0: nat, trace: seq<Event>): nat {
    if trace == [] then p0 else
      match trace[|trace| - 1]
      case Wrote(p, d, _) => p + |d|
      case Got(p, d, _) => p + |d|
      case Moved(p, _) => p
      case Synced => Pointer(p0, trace[..|trace| - 1])
  }

  /** How long a file of `n0` bytes is after some events. */
  ghost function Size(n0: nat, p0: nat, trace: seq<Event>): nat {
    if trace == [] then n0 else
      var n, p := Size(n0, p0, trace[..|trace| - 1]), Pointer(p0, trace);
      if p > n then p else n
  }

  /** The byte to be found at position `i` of a file that held `c0`: the last one written there,
      or else the first one; -1 where nothing is specified. */
  ghost function Expected(c0: seq<byte>, trace: seq<Event>, i: nat): int {
    if trace == [] then
      if i < |c0| then c0[i] as int else -1
    else
      var e := trace[|trace| - 1];
      if e.Wrote? && e.p <= i < e.p + |e.d| then e.d[i - e.p] as int else Expected(c0, trace[..|trace| - 1], i)
  }

  /** Every event starts at the pointer, and every read gives the bytes last written, up to the
      end of the file. */
  ghost predicate Coherent(c0: seq<byte>, p0: nat, trace: seq<Event>) {
    forall t :: 0 <= t < |trace| ==> Follows(c0, p0, trace[..t], trace[t])
  }

  ghost predicate Follows(c0: seq<byte>, p0: nat, past: seq<Event>, e: Event) {
    match e
    case Wrote(p, d, _) => p == Pointer(p0, past)
    case Got(p, d, _) =>
      && p == Pointer(p0, past) && p + |d| <= Size(|c0|, p0, past)
      && forall i :: p <= i < p + |d| ==> Expected(c0, past, i) == -1 || Expected(c0, past, i) == d[i - p] as int
    case _ => true
  }

  /** The contents agree with what is expected. */
  ghost predicate Agrees(c0: seq<byte>, p0: nat, trace: seq<Event>, c: seq<byte>) {
    && |c| == Size(|c0|, p0, trace)
    && forall i: nat :: Expected(c0, trace, i) != -1 ==> i < |c| && c[i] as int == Expected(c0, trace, i)
  }

  /** What an event does to the contents. */
  ghost predicate Effect(e: Event, at: nat, c: seq<byte>, c': seq<byte>)
    requires at <= |c|
  {
    match e
    case Wrote(p, d, _) => p == at && c' == Splice(c, p, d)
    case Got(p, d, _) => p == at && c' == c && p + |d| <= |c| && d == c[p..p + |d|]
    case Moved(p, _) => |c'| == (if p > |c| then p else |c|) && c'[..|c|] == c
    case Synced => c' == c
  }

  lemma AfterEvent(c0: seq<byte>, p0: nat, trace: seq<Event>, c: seq<byte>, e: Event, c': seq<byte>)
    requires Coherent(c0, p0, trace) && Agrees(c0, p0, trace, c) && Pointer(p0, trace) <= |c|
    requires Effect(e, Pointer(p0, trace), c, c')
    ensures Coherent(c0, p0, trace + [e]) && Agrees(c0, p0, trace + [e], c')
  {
    hide Expected, Pointer, Size, Follows, Splice;
    var trace' := trace + [e];
    assert trace'[..|trace|] == trace;
    EventFollows(c0, p0, trace, c, e, c');
    forall t | 0 <= t < |trace'|
      ensures Follows(c0, p0, trace'[..t], trace'[t])
    {
      if t < |trace| { assert trace'[..t] == trace[..t]; }
    }
    SizeAfter(c0, p0, trace, c, e, c');
    forall i: nat | Expected(c0, trace', i) != -1
      ensures i < |c'| && c'[i] as int == Expected(c0, trace', i)
    {
      ByteAfter(c0, p0, trace, c, e, c', i);
    }
  }

  lemma EventFollows(c0: seq<byte>, p0: nat, trace: seq<Event>, c: seq<byte>, e: Event, c': seq<byte>)
    requires Agrees(c0, p0, trace, c) && Pointer(p0, trace) <= |c| && Effect(e, Pointer(p0, trace), c, c')
    ensures Follows(c0, p0, trace, e)
  {
    hide Expected, Pointer, Size, Splice;
    if e.Got? {
      forall i | e.p <= i < e.p + |e.d|
        ensures Expected(c0, trace, i) == -1 || Expected(c0, trace, i) == e.d[i - e.p] as int
      {
        assert e.d[i - e.p] == c[i];
      }
    }
  }

  lemma SizeAfter(c0: seq<byte>, p0: nat, trace: seq<Event>, c: seq<byte>, e: Event, c': seq<byte>)
    requires |c| == Size(|c0|, p0, trace) && Pointer(p0, trace) <= |c| && Effect(e, Pointer(p0, trace), c, c')
    ensures |c'| == Size(|c0|, p0, trace + [e])
  {
    assert (trace + [e])[..|trace|] == trace;
  }

  lemma ByteAfter(c0: seq<byte>, p0: nat, trace: seq<Event>, c: seq<byte>, e: Event, c': seq<byte>, i: nat)
    requires Agrees(c0, p0, trace, c) && Pointer(p0, trace) <= |c| && Effect(e, Pointer(p0, trace), c, c')
    requires Expected(c0, trace + [e], i) != -1
    ensures i < |c'| && c'[i] as int == Expected(c0, trace + [e], i)
  {
    hide Expected, Pointer, Size, Splice;
    ExpectedAfter(c0, trace, e, i);
    if e.Wrote? { SpliceAt(c, e.p, e.d, i); }
    if e.Moved? && i < |c| { assert c'[..|c|][i] == c[i]; }
  }

  lemma ExpectedAfter(c0: seq<byte>, trace: seq<Event>, e: Event, i: nat)
    ensures Expected(c0, trace + [e], i)
            == if e.Wrote? && e.p <= i < e.p + |e.d| then e.d[i - e.p] as int else Expected(c0, trace, i)
  {
    assert (trace + [e])[..|trace|] == trace;
  }

  lemma SpliceAt(c: seq<byte>, p: nat, d: seq<byte>, i: nat)
    requires p <= |c|
    ensures p <= i < p + |d| ==> i < |Splice(c, p, d)| && Splice(c, p, d)[i] == d[i - p]
    ensures i < |c| && !(p <= i < p + |d|) ==> i < |Splice(c, p, d)| && Splice(c, p, d)[i] == c[i]
  {
  }

  // ---------------------------------------------------------------- what each operation must do

  /** What a file object allows: its access mode and its greatest size. */
  datatype Limits = Limits(readable: bool, writable: bool, size: nat)

  ghost function LimitsOf(f: File): Limits
    requires f.ValidChain()
    reads f, f.alloc, f.alloc.fs, f.alloc.fs.win
  {
    Limits(f.readable, f.writable, Min(f.Capacity(), MAX_SIZE))
  }

  /** Whether an operation has been aborted, after which all others fail: a write or a seek has
      failed that the access mode allows. */
  ghost predicate Failed(err0: bool, lim: Limits, trace: seq<Event>) {
    if trace == [] then err0 else
      var e := trace[|trace| - 1];
      Failed(err0, lim, trace[..|trace| - 1]) || (e.Wrote? && !e.ok && lim.writable) || (e.Moved? && !e.ok)
  }

  /** `e` is what `op` has to do with the pointer at `p` in a file of `n` bytes: a write takes as
      many of its bytes as the limit allows, a read gives all bytes up to the end of the file, a
      seek goes to its target or as far as it can. `failed` says that an operation was aborted
      before; only then, or when the access mode forbids it, or with a bad entry in the FAT, does
      an operation fail. */
  ghost predicate Answers(op: Op, e: Event, p: nat, n: nat, failed: bool, lim: Limits, bad: bool) {
    match op
    case Write(d) =>
      && e.Wrote? && e.p == p && e.d <= d
      && (if failed || !lim.writable then !e.ok && e.d == [] else e.ok || bad)
      && (e.ok ==> |e.d| == Min(|d|, lim.size - p))
    case Read(m) =>
      && e.Got? && e.p == p && e.ok == (lim.readable && !failed)
      && |e.d| == if e.ok then Min(m, n - p) else 0
    case Seek(ofs) =>
      && e.Moved?
      && (if failed then !e.ok && e.p == p else e.ok || bad)
      && (e.ok ==> e.p == Min(ofs, if lim.writable then lim.size else n))
    case Sync => e.Synced?
  }

  /** The `k`-th operation did what it has to do after the events before it. */
  ghost predicate AnswersAt(ops: seq<Op>, trace: seq<Event>, k: nat, n0: nat, p0: nat, err0: bool, lim: Limits,
      bad: bool)
    requires k < |ops| && k < |trace|
  {
    var past := trace[..k];
    Answers(ops[k], trace[k], Pointer(p0, past), Size(n0, p0, past), Failed(err0, lim, past), lim, bad)
  }

  /** Without a bad entry no operation is ever aborted. */
  lemma {:induction false} NeverFails(ops: seq<Op>, trace: seq<Event>, n0: nat, p0: nat, lim: Limits, k: nat)
    requires |ops| == |trace| && k <= |ops|
    requires forall i :: 0 <= i < |ops| ==> AnswersAt(ops, trace, i, n0, p0, false, lim, false)
    ensures !Failed(false, lim, trace[..k])
  {
    if k > 0 {
      NeverFails(ops, trace, n0, p0, lim, k - 1);
      assert trace[..k][..k - 1] == trace[..k - 1];
      assert AnswersAt(ops, trace, k - 1, n0, p0, false, lim, false);
    }
  }

  // ---------------------------------------------------------------- runs

  /** Any operations on one open file, in any order: every operation does exactly what it has to
      do, every read gives the bytes last written, and the file ends up with the contents and the
      size that the events say. With no bad entry in the FAT nothing is aborted, and a run that
      ends with a sync leaves the contents in the data area. */
  method Run(f: File, ops: seq<Op>) returns (trace: seq<Event>)
    requires f.Valid() && f.Marked()
    requires forall k :: 0 <= k < |ops| ==> ops[k].Write? ==> |ops[k].d| <= MAX_SIZE
    modifies f, f.buf, f.alloc, f.alloc.fs, f.alloc.fs.win
    ensures f.Valid() && f.Marked() && |trace| == |ops|
    ensures forall k :: 0 <= k < |ops| ==>
              AnswersAt(ops, trace, k, old(f.objsize), old(f.fptr), old(f.err), old(LimitsOf(f)),
                  HasBadEntry(old(f.Table())))
    ensures Coherent(old(f.Content()), old(f.fptr), trace) && f.fptr == Pointer(old(f.fptr), trace)
    ensures Agrees(old(f.Content()), old(f.fptr), trace, f.Content())
    ensures f.err == Failed(old(f.err), old(LimitsOf(f)), trace)
    ensures !old(f.err) && !HasBadEntry(old(f.Table())) ==> !f.err
    ensures |ops| > 0 && ops[|ops| - 1].Sync? && !f.err ==> f.Content() == f.Stored()
    ensures DataKept(f.g, f.chain, old(f.data), f.data) && FatKept(old(f.chain), f.chain, old(f.Table()), f.Table())
  {
    hide File.ValidChain, File.ValidBuffer, File.ValidSize, File.ValidPointer, File.Content, File.Table, Coherent,
        Agrees, Splice, DataKept, FatKept, LimitsOf, Failed, Answers, HasBadEntry, File.Marked, File.Stored, Pointer,
        Size;
    ghost var c0, p0, data0, e0 := f.Content(), f.fptr, f.data, f.Table();
    ghost var err0, lim, bad := f.err, LimitsOf(f), HasBadEntry(f.Table());
    f.Untouched();
    trace := [];
    NoEvents(c0, p0, err0, lim);
    for k := 0 to |ops|
      invariant f.Valid() && f.Marked() && |trace| == k
      invariant forall i :: 0 <= i < k ==> AnswersAt(ops, trace, i, |c0|, p0, err0, lim, bad)
      invariant Coherent(c0, p0, trace) && Agrees(c0, p0, trace, f.Content()) && f.fptr == Pointer(p0, trace)
      invariant f.err == Failed(err0, lim, trace) && LimitsOf(f) == lim && HasBadEntry(f.Table()) == bad
      invariant k > 0 && ops[k - 1].Sync? && !f.err ==> f.Content() == f.Stored()
      invariant DataKept(f.g, f.chain, data0, f.data) && FatKept(old(f.chain), f.chain, e0, f.Table())
    {
      ghost var ch1, data1, e1 := f.chain, f.data, f.Table();
      var e := Apply(f, ops[k], c0, p0, err0, trace);
      f.PrefixOfChain(ch1, e1);
      DataKeptTwice(f.g, ch1, f.chain, data0, data1, f.data);
      f.DistinctChain();
      FatKeptTwice(old(f.chain), ch1, f.chain, e0, e1, f.Table());
      OneMore(ops, trace, e, |c0|, p0, err0, lim, bad);
      trace := trace + [e];
    }
    assert trace[..|ops|] == trace;
    if !err0 && !bad { NeverFails(ops, trace, |c0|, p0, lim, |ops|); }
  }

  lemma NoEvents(c0: seq<byte>, p0: nat, err0: bool, lim: Limits)
    ensures Coherent(c0, p0, []) && Agrees(c0, p0, [], c0) && Pointer(p0, []) == p0
    ensures Failed(err0, lim, []) == err0
  {
  }

  lemma OneMore(ops: seq<Op>, trace: seq<Event>, e: Event, n0: nat, p0: nat, err0: bool, lim: Limits, bad: bool)
    requires |trace| < |ops| && forall i :: 0 <= i < |trace| ==> AnswersAt(ops, trace, i, n0, p0, err0, lim, bad)
    requires Answers(ops[|trace|], e, Pointer(p0, trace), Size(n0, p0, trace), Failed(err0, lim, trace), lim, bad)
    ensures forall i :: 0 <= i <= |trace| ==> AnswersAt(ops, trace + [e], i, n0, p0, err0, lim, bad)
  {
    hide Answers, Pointer, Size, Failed;
    assert (trace + [e])[..|trace|] == trace;
    forall i | 0 <= i < |trace|
      ensures AnswersAt(ops, trace + [e], i, n0, p0, err0, lim, bad)
    {
      assert (trace + [e])[..i] == trace[..i];
      assert AnswersAt(ops, trace, i, n0, p0, err0, lim, bad);
    }
  }

  lemma FailedAfter(err0: bool, lim: Limits, trace: seq<Event>, e: Event)
    ensures Failed(err0, lim, trace + [e])
            == (Failed(err0, lim, trace) || (e.Wrote? && !e.ok && lim.writable) || (e.Moved? && !e.ok))
  {
    assert (trace + [e])[..|trace|] == trace;
  }

  lemma PointerAfter(p0: nat, trace: seq<Event>, e: Event)
    ensures Pointer(p0, trace + [e])
            == if e.Wrote? || e.Got? then e.p + |e.d| else if e.Moved? then e.p else Pointer(p0, trace)
  {
    assert (trace + [e])[..|trace|] == trace;
  }

  /** One operation of a run. */
  method Apply(f: File, op: Op, ghost c0: seq<byte>, ghost p0: nat, ghost err0: bool, ghost trace: seq<Event>)
    returns (e: Event)
    requires f.Valid() && f.Marked() && (op.Write? ==> |op.d| <= MAX_SIZE)
    requires Coherent(c0, p0, trace) && Agrees(c0, p0, trace, f.Content()) && f.fptr == Pointer(p0, trace)
    requires f.err == Failed(err0, LimitsOf(f), trace)
    modifies f, f.buf, f.alloc, f.alloc.fs, f.alloc.fs.win
    ensures f.Valid() && f.Marked() && Coherent(c0, p0, trace + [e]) && f.fptr == Pointer(p0, trace + [e])
    ensures Agrees(c0, p0, trace + [e], f.Content())
    ensures LimitsOf(f) == old(LimitsOf(f)) && (HasBadEntry(f.Table()) <==> HasBadEntry(old(f.Table())))
    ensures f.err == Failed(err0, LimitsOf(f), trace + [e])
    ensures Answers(op, e, old(f.fptr), Size(|c0|, p0, trace), old(f.err), LimitsOf(f), HasBadEntry(old(f.Table())))
    ensures op.Sync? && !f.err ==> f.Content() == f.Stored()
    ensures DataKept(f.g, f.chain, old(f.data), f.data) && FatKept(old(f.chain), f.chain, old(f.Table()), f.Table())
  {
    hide File.ValidChain, File.ValidBuffer, File.ValidSize, File.ValidPointer, File.Content, File.Table, Coherent,
        Splice, DataKept, FatKept, Failed, HasBadEntry, File.Marked, File.Stored, Pointer, Size, File.Capacity, Agrees;
    ghost var c := f.Content();
    f.PointerInFile();
    f.Untouched();
    f.FileChain();
    SizeIs(c0, p0, trace, c);
    var p := f.fptr;
    match op
    case Write(d) =>
      var ok, bw := f.Write(d);
      e := Wrote(p, d[..bw], ok);
      AfterEvent(c0, p0, trace, c, e, f.Content());
      FailedAfter(err0, LimitsOf(f), trace, e);
      PointerAfter(p0, trace, e);
    case Read(n) =>
      ghost var ch, t := f.chain, f.Table();
      f.CapacityKept(ch, t);
      var ok, out := f.Read(n);
      f.CapacityKept(ch, t);
      e := Got(p, out, ok);
      AfterEvent(c0, p0, trace, c, e, f.Content());
      FailedAfter(err0, LimitsOf(f), trace, e);
      PointerAfter(p0, trace, e);
    case Seek(ofs) =>
      var ok := f.Seek(ofs);
      e := Moved(f.fptr, ok);
      AfterEvent(c0, p0, trace, c, e, f.Content());
      FailedAfter(err0, LimitsOf(f), trace, e);
      PointerAfter(p0, trace, e);
    case Sync =>
      ghost var ch, t := f.chain, f.Table();
      f.CapacityKept(ch, t);
      f.Sync();
      f.CapacityKept(ch, t);
      e := Synced;
      AfterEvent(c0, p0, trace, c, e, f.Content());
      FailedAfter(err0, LimitsOf(f), trace, e);
      PointerAfter(p0, trace, e);
  }

  lemma SizeIs(c0: seq<byte>, p0: nat, trace: seq<Event>, c: seq<byte>)
    requires Agrees(c0, p0, trace, c)
    ensures |c| == Size(|c0|, p0, trace)
  {
  }
}
