/** The pointer, the size and the clusters of an open file of an exFAT volume (`f_write`, `f_read`,
    `f_lseek` and `f_sync`): what is written late is always written in time. The sectors of a
    transfer are taken together as far as they are in one cluster. */
module ExFatFile {
  import opened ExFat

  function Min(a: int, b: int): int {
    if a < b then a else b
  }

  // ---------------------------------------------------------------- positions

  /** The number of bytes of `n` clusters of `cb` bytes. */
  function Room(cb: nat, n: nat): nat {
    n * cb
  }

  /** The number of the cluster of the byte at `p`. */
  function Number(cb: nat, p: nat): nat
    requires cb > 0
  {
    p / cb
  }

  lemma NumberIs(cb: nat, p: nat, n: nat)
    requires cb > 0
    ensures Number(cb, p) == n <==> Room(cb, n) <= p < Room(cb, n) + cb
    ensures Room(cb, n + 1) == Room(cb, n) + cb
  {
    var q := p / cb;
    assert p == q * cb + p % cb && (n + 1) * cb == n * cb + cb;
    if q != n && Room(cb, n) <= p < Room(cb, n) + cb {
      assert (q - n) * cb == q * cb - n * cb;
      MultipleInRange(q - n, cb);
    }
  }

  lemma MultipleInRange(k: int, d: int)
    requires d >= 0
    ensures k >= 1 ==> k * d >= d
    ensures k <= -1 ==> k * d <= -d
  {
  }

  lemma RoomGrows(cb: nat, a: nat, b: nat)
    requires a <= b
    ensures Room(cb, a) <= Room(cb, b)
  {
    assert Room(cb, b) == Room(cb, a) + (b - a) * cb;
  }

  /** A position among `n` clusters, and a cluster boundary. */
  lemma Among(cb: nat, p: nat, n: nat)
    requires cb > 0
    ensures p < Room(cb, n) <==> Number(cb, p) < n
    ensures p % cb == 0 <==> p == Room(cb, Number(cb, p))
    ensures Number(cb, p) * cb <= p && p == Room(cb, Number(cb, p)) + p % cb
  {
    NumberIs(cb, p, Number(cb, p));
    if Number(cb, p) < n { RoomGrows(cb, Number(cb, p) + 1, n); } else { RoomGrows(cb, n, Number(cb, p)); }
  }

  // ---------------------------------------------------------------- growth

  /** A chain and what the volume records. */
  datatype World = World(ch: seq<nat>, stat: nat, bitmap: seq<bool>, fat: seq<nat>)

  /** The chain has grown by clusters that were free and are in use now. No other bit has
      changed, and neither has the FAT outside the chain, or at all if the file is contiguous. */
  ghost predicate Grows(w: World, w': World) {
    && w.ch <= w'.ch && |w'.bitmap| == |w.bitmap| && |w'.fat| == |w.fat|
    && (forall k :: |w.ch| <= k < |w'.ch| ==> 2 <= w'.ch[k] < |w.bitmap| + 2 && !w.bitmap[w'.ch[k] - 2])
    && (forall i :: 0 <= i < |w.bitmap| ==> w'.bitmap[i] == (w.bitmap[i] || i + 2 in w'.ch[|w.ch|..]))
    && (forall c :: 0 <= c < |w.fat| && c !in w'.ch ==> w'.fat[c] == w.fat[c])
    && (w'.stat == 2 ==> w'.fat == w.fat && (w.stat == 2 || w.ch == []))
  }

  lemma GrowsTwice(w0: World, w1: World, w2: World)
    requires Grows(w0, w1) && Grows(w1, w2)
    ensures Grows(w0, w2)
  {
    assert w2.ch[|w0.ch|..] == w1.ch[|w0.ch|..] + w2.ch[|w1.ch|..];
    forall k | |w0.ch| <= k < |w2.ch|
      ensures 2 <= w2.ch[k] < |w0.bitmap| + 2 && !w0.bitmap[w2.ch[k] - 2]
    {
      if k < |w1.ch| { assert w2.ch[k] == w1.ch[k]; }
    }
    forall c | 0 <= c < |w0.fat| && c !in w2.ch
      ensures w2.fat[c] == w0.fat[c]
    {
      assert c !in w1.ch;
    }
    if w2.stat == 2 && w1.ch == [] { assert w1.fat == w0.fat; }
  }

  /** What the file gains the volume loses. */
  lemma Conservation(w: World, w': World)
    requires Grows(w, w') && Distinct(w'.ch)
    ensures |w'.ch| + |FreeClusters(w'.bitmap)| == |w.ch| + |FreeClusters(w.bitmap)|
  {
    var added := w'.ch[|w.ch|..];
    MemberCount(added);
    forall c: nat
      ensures c in added ==> c in FreeClusters(w.bitmap)
    {
      if c in added {
        var k :| 0 <= k < |added| && added[k] == c;
        assert w'.ch[|w.ch| + k] == c;
      }
    }
    assert FreeClusters(w'.bitmap) == FreeClusters(w.bitmap) - Members(added);
  }

  ghost function Members(s: seq<nat>): set<nat> {
    set c | c in s
  }

  lemma {:induction false} MemberCount(s: seq<nat>)
    requires Distinct(s)
    ensures |Members(s)| == |s|
  {
    if s == [] {
      assert Members(s) == {};
    } else {
      var last := |s| - 1;
      MemberCount(s[..last]);
      assert s[last] !in s[..last] && s == s[..last] + [s[last]];
      assert Members(s) == Members(s[..last]) + {s[last]};
    }
  }

  // ---------------------------------------------------------------- the open file

  /** A file object: allocation state, access mode, pointer, current cluster (that of the byte
      before the pointer) and the flag that makes `f_sync` write. */
  class File {
    const obj: FileObject
    const readable: bool
    const writable: bool
    var fptr: nat
    var clust: nat
    var modified: bool

    /** A file just opened: nothing is waiting. */
    constructor (obj: FileObject, readable: bool, writable: bool, ghost ch: seq<nat>)
      requires obj.DescribesAny(ch) && obj.nFrag == 0 && obj.stat != 3 && obj.fs.FreeCountOk()
      requires obj.objsize <= Room(obj.fs.clusterBytes, |ch|) && (ch != [] ==> obj.SizeOk(ch))
      ensures this.obj == obj && this.readable == readable && this.writable == writable
      ensures Valid(ch) && fptr == 0 && !modified
    {
      this.obj, this.readable, this.writable := obj, readable, writable;
      fptr, clust, modified := 0, 0, false;
    }

    /** Bytes in a cluster. */
    function Cb(): nat {
      obj.fs.clusterBytes
    }

    ghost function Now(ch: seq<nat>): World
      reads obj, obj.fs
    {
      World(ch, obj.stat, obj.fs.bitmap, obj.fs.fat)
    }

    /** The chain and the size; the file object has a chain only once it has a cluster. */
    ghost predicate ValidChain(ch: seq<nat>)
      reads obj, obj.fs
    {
      obj.fs.Valid() && obj.fs.FreeCountOk() && obj.objsize <= Room(Cb(), |ch|) && obj.DescribesAny(ch)
    }

    /** The current cluster is that of the byte before the pointer, and it is the last one
        whenever links are waiting to be written. */
    ghost predicate ValidPointer(ch: seq<nat>)
      reads this`fptr, this`clust, obj, obj.fs
    {
      && Cb() > 0 && fptr <= obj.objsize
      && (fptr > 0 ==> Number(Cb(), fptr - 1) < |ch| && clust == ch[Number(Cb(), fptr - 1)])
      && (obj.nFrag > 0 ==> fptr > 0 && Number(Cb(), fptr - 1) == |ch| - 1)
    }

    ghost predicate Sound(ch: seq<nat>)
      reads this`fptr, this`clust, obj, obj.fs
    {
      ValidChain(ch) && ValidPointer(ch) && (ch != [] ==> obj.SizeOk(ch))
    }

    /** Nothing is waiting unless the file is marked as modified. */
    ghost predicate Valid(ch: seq<nat>)
      reads this, obj, obj.fs
    {
      Sound(ch) && (modified || (obj.nFrag == 0 && obj.stat != 3))
    }

    /** The size that the file can grow to. */
    ghost function Capacity(ch: seq<nat>): nat
      reads obj.fs
    {
      Room(Cb(), |ch| + |FreeClusters(obj.fs.bitmap)|)
    }

    /** Cluster `j` is the current one, and the pointer about to move into it. */
    ghost predicate AtCluster(ch: seq<nat>, j: nat)
      reads this`clust, obj, obj.fs
    {
      && ValidChain(ch) && j < |ch| && clust == ch[j]
      && (obj.nFrag > 0 ==> j == |ch| - 1)
      && (obj.SizeOk(ch) || (obj.stat == 2 && j == |ch| - 1))
    }

    lemma CapacityBound(ch: seq<nat>)
      requires ValidChain(ch)
      ensures Room(Cb(), |ch|) <= Capacity(ch)
      ensures false !in obj.fs.bitmap ==> Room(Cb(), |ch|) == Capacity(ch)
    {
      FreeBound(obj.fs.bitmap);
      RoomGrows(Cb(), |ch|, |ch| + |FreeClusters(obj.fs.bitmap)|);
    }

    lemma CapacityKept(w: World, ch: seq<nat>)
      requires ValidChain(ch) && Grows(w, Now(ch))
      ensures Capacity(ch) == Room(Cb(), |w.ch| + |FreeClusters(w.bitmap)|)
    {
      Conservation(w, Now(ch));
    }

    // -------------------------------------------------------------- the next cluster

    /** The first cluster of a file that has none. */
    method Begin() returns (clst: nat, ghost ch': seq<nat>)
      requires ValidChain([]) && obj.objsize == 0
      modifies obj, obj.fs
      ensures ValidChain(ch') && obj.objsize == 0 && ch' == if clst == 0 then [] else [clst]
      ensures clst == 0 ==> false !in obj.fs.bitmap
      ensures clst != 0 ==> obj.stat == 2 && obj.nFrag == 0
      ensures Grows(old(Now([])), Now(ch'))
    {
      clst := obj.CreateChain(0, [], 0);
      ch' := [];
      if clst != 0 {
        obj.sclust := clst;
        ch' := [clst];
        RoomGrows(Cb(), 0, 1);
      }
    }

    /** The cluster after the `j`-th, which is the current one; the chain is stretched if it ends
        there. */
    method Stretch(ghost ch: seq<nat>, ghost j: nat) returns (clst: nat, ghost ch': seq<nat>)
      requires ValidChain(ch) && j < |ch| && clust == ch[j] && obj.SizeOk(ch) && (obj.nFrag > 0 ==> j == |ch| - 1)
      modifies obj, obj.fs
      ensures ValidChain(ch') && obj.objsize == old(obj.objsize)
      ensures ch' == if clst == 0 || j + 1 < |ch| then ch else ch + [clst]
      ensures if clst == 0 then j + 1 == |ch| && obj.SizeOk(ch) && false !in obj.fs.bitmap
              else clst == ch'[j + 1] && (obj.SizeOk(ch') || (obj.stat == 2 && j + 1 == |ch'| - 1))
      ensures obj.nFrag > 0 ==> j + 1 >= |ch'| - 1
      ensures j + 1 < |ch| || clst == 0 ==> obj.nFrag == old(obj.nFrag) && obj.stat == old(obj.stat)
      ensures Grows(old(Now(ch)), Now(ch'))
    {
      hide Recorded, Distinct, FreeClusters;
      clst := obj.CreateChain(clust, ch, j);
      ch' := ch;
      if j + 1 == |ch| && clst != 0 {
        ch' := ch + [clst];
        RoomGrows(Cb(), |ch|, |ch'|);
      }
    }

    /** The pointer moves into the current cluster, and the file gets longer if it passes its end. */
    method Move(w: nat, ghost ch: seq<nat>, ghost j: nat)
      requires AtCluster(ch, j) && Cb() > 0 && Room(Cb(), j) <= fptr && 0 < w && fptr + w <= Room(Cb(), j) + Cb()
      modifies this`fptr, obj`objsize
      ensures Sound(ch) && fptr == old(fptr) + w
      ensures obj.objsize == if fptr > old(obj.objsize) then fptr else old(obj.objsize)
      ensures Now(ch) == old(Now(ch)) && obj.nFrag == old(obj.nFrag)
    {
      hide Recorded, Distinct, FreeClusters, Room, Number;
      MovedSize(ch, j, fptr + w);
      fptr := fptr + w;
      if fptr > obj.objsize { obj.objsize := fptr; }
    }

    /** The size once the pointer is at `p` in cluster `j`. */
    lemma MovedSize(ch: seq<nat>, j: nat, p: nat)
      requires AtCluster(ch, j) && Cb() > 0 && Room(Cb(), j) < p <= Room(Cb(), j) + Cb()
      ensures var size := if p > obj.objsize then p else obj.objsize;
              && size <= Room(Cb(), |ch|) && Number(Cb(), p - 1) == j
              && (obj.stat == 2 ==> (size - 1) / Cb() == |ch| - 1)
    {
      hide Recorded, Distinct, FreeClusters, Room;
      var size := if p > obj.objsize then p else obj.objsize;
      NumberIs(Cb(), p - 1, j);
      RoomGrows(Cb(), j + 1, |ch|);
      NumberIs(Cb(), size - 1, |ch| - 1);
      if obj.objsize > 0 { NumberIs(Cb(), obj.objsize - 1, |ch| - 1); }
    }

    lemma GrowsNot(ch: seq<nat>)
      ensures Grows(Now(ch), Now(ch))
    {
    }

    // -------------------------------------------------------------- writing

    /** At a cluster boundary: makes the cluster of the pointer the current one, allocating it if
        the file has none yet (`f_write`). 0 when no cluster is free. */
    method Reach(ghost ch: seq<nat>) returns (clst: nat, ghost ch': seq<nat>)
      requires Sound(ch) && fptr % Cb() == 0
      modifies this`clust, obj, obj.fs
      ensures obj.objsize == old(obj.objsize) && fptr == Room(Cb(), Number(Cb(), fptr))
      ensures if clst == 0 then Sound(ch) && ch' == ch && fptr == Room(Cb(), |ch|) && false !in obj.fs.bitmap
              else AtCluster(ch', Number(Cb(), fptr))
      ensures Grows(old(Now(ch)), Now(ch'))
    {
      hide Recorded, Distinct, FreeClusters, Room, Number, Grows;
      Boundary(ch);
      GrowsNot(ch);
      ch' := ch;
      if fptr == 0 {
        clst := obj.sclust;
        if clst == 0 { clst, ch' := Begin(); } else { FirstCluster(ch); }
      } else {
        clst, ch' := Stretch(ch, Number(Cb(), fptr - 1));
      }
      if clst == 0 { return; }
      clust := clst;
    }

    lemma FirstCluster(ch: seq<nat>)
      requires ValidChain(ch)
      ensures if ch == [] then obj.sclust == 0 else obj.sclust == ch[0] != 0
    {
      if ch != [] { assert obj.fs.InUse(ch[0]); }
    }

    lemma Boundary(ch: seq<nat>)
      requires Sound(ch) && fptr % Cb() == 0
      ensures fptr == Room(Cb(), Number(Cb(), fptr)) && Room(Cb(), 0) == 0 && Number(Cb(), 0) == 0
      ensures fptr > 0 ==> Number(Cb(), fptr) == Number(Cb(), fptr - 1) + 1
      ensures fptr < obj.objsize ==> Number(Cb(), fptr) < |ch|
      ensures ch == [] ==> fptr == 0
      ensures obj.sclust == 0 <==> ch == []
    {
      Among(Cb(), fptr, |ch|);
      FirstCluster(ch);
      if fptr > 0 {
        var n := Number(Cb(), fptr - 1);
        NumberIs(Cb(), fptr - 1, n);
        NumberIs(Cb(), fptr, n);
        NumberIs(Cb(), fptr, n + 1);
        Among(Cb(), fptr, n + 1);
        OnBoundary(Cb(), fptr, n);
      }
    }

    /** Inside a cluster it is the current one. */
    lemma Inside(ch: seq<nat>)
      requires Sound(ch) && fptr % Cb() != 0
      ensures AtCluster(ch, Number(Cb(), fptr)) && Room(Cb(), Number(Cb(), fptr)) <= fptr
    {
      var n := Number(Cb(), fptr);
      Among(Cb(), fptr, n);
      NumberIs(Cb(), fptr - 1, n);
      NumberIs(Cb(), fptr, n);
    }

    /** One cluster's part of a transfer of `n` bytes. */
    method Part(n: nat, ghost ch: seq<nat>) returns (cnt: nat)
      requires Cb() > 0 && AtCluster(ch, Number(Cb(), fptr)) && n > 0
      modifies this`fptr, obj`objsize
      ensures Sound(ch) && 0 < cnt <= n && fptr == old(fptr) + cnt
      ensures obj.objsize == if fptr > old(obj.objsize) then fptr else old(obj.objsize)
      ensures Now(ch) == old(Now(ch)) && obj.nFrag == old(obj.nFrag)
    {
      hide Recorded, Distinct, FreeClusters, Room, Number;
      ghost var j := Number(Cb(), fptr);
      Among(Cb(), fptr, j);
      cnt := Cb() - fptr % Cb();
      if cnt > n { cnt := n; }
      Move(cnt, ch, j);
    }

    /** The loop of `f_write`, a cluster's part in each round. */
    method WriteAll(n: nat, ghost ch: seq<nat>) returns (bw: nat, ghost ch': seq<nat>)
      requires Sound(ch)
      modifies this`fptr, this`clust, obj, obj.fs
      ensures Sound(ch') && bw <= n && fptr == old(fptr) + bw
      ensures obj.objsize == if fptr > old(obj.objsize) then fptr else old(obj.objsize)
      ensures bw < n ==> fptr == Room(Cb(), |ch'|) && false !in obj.fs.bitmap
      ensures Grows(old(Now(ch)), Now(ch'))
    {
      hide Recorded, Distinct, FreeClusters, Room, Number, Grows;
      bw, ch' := 0, ch;
      GrowsNot(ch);
      while bw < n
        invariant Sound(ch') && bw <= n && fptr == old(fptr) + bw
        invariant obj.objsize == if fptr > old(obj.objsize) then fptr else old(obj.objsize)
        invariant Grows(old(Now(ch)), Now(ch'))
      {
        ghost var w1 := Now(ch');
        if fptr % Cb() == 0 {
          var clst;
          clst, ch' := Reach(ch');
          GrowsTwice(old(Now(ch)), w1, Now(ch'));
          if clst == 0 { break; }
        } else {
          Inside(ch');
        }
        var wcnt := Part(n - bw, ch');
        bw := bw + wcnt;
      }
    }

    /** `f_write` of `n` bytes: as many as the capacity allows. */
    method Write(n: nat, ghost ch: seq<nat>) returns (ok: bool, bw: nat, ghost ch': seq<nat>)
      requires Valid(ch)
      modifies this, obj, obj.fs
      ensures Valid(ch') && ok == writable && fptr == old(fptr) + bw
      ensures bw == if ok then Min(n, Capacity(ch') - old(fptr)) else 0
      ensures obj.objsize == if fptr > old(obj.objsize) then fptr else old(obj.objsize)
      ensures Capacity(ch') == old(Capacity(ch)) && Grows(old(Now(ch)), Now(ch'))
    {
      hide Recorded, Distinct, FreeClusters, Room, Number, Grows, File.ValidPointer;
      ghost var w := Now(ch);
      GrowsNot(ch);
      ch' := ch;
      PointerInFile(ch);
      if !writable { return false, 0, ch; }
      bw, ch' := WriteAll(n, ch);
      PointerInFile(ch');
      CapacityBound(ch');
      CapacityKept(w, ch');
      modified := true;
      ok := true;
    }

    lemma PointerInFile(ch: seq<nat>)
      requires Sound(ch)
      ensures fptr <= obj.objsize <= Room(Cb(), |ch|) && Cb() > 0
    {
    }

    // -------------------------------------------------------------- reading

    /** At a cluster boundary before the end of the file: follows the chain (`f_read`). Nothing
        can be waiting then, so the link is found. */
    method Follow(ghost ch: seq<nat>)
      requires Sound(ch) && fptr % Cb() == 0 && fptr < obj.objsize
      modifies this`clust
      ensures AtCluster(ch, Number(Cb(), fptr))
    {
      hide Recorded, Distinct, FreeClusters, Room, Number;
      Boundary(ch);
      FirstCluster(ch);
      if fptr == 0 {
        clust := obj.sclust;
      } else {
        obj.GetFatFollows(ch, Number(Cb(), fptr - 1));
        clust := obj.GetFat(clust);
      }
    }

    /** `f_read` of `n` bytes: all up to the end of the file. */
    method Read(n: nat, ghost ch: seq<nat>) returns (ok: bool, br: nat)
      requires Valid(ch)
      modifies this`fptr, this`clust, obj`objsize
      ensures Valid(ch) && ok == readable && fptr == old(fptr) + br && obj.objsize == old(obj.objsize)
      ensures br == if ok then Min(n, obj.objsize - old(fptr)) else 0
      ensures Now(ch) == old(Now(ch))
    {
      hide Recorded, Distinct, FreeClusters, Room, Number;
      if !readable { return false, 0; }
      var btr := n;
      if btr > obj.objsize - fptr { btr := obj.objsize - fptr; }
      ok, br := true, 0;
      while br < btr
        invariant Sound(ch) && br <= btr && fptr == old(fptr) + br && obj.objsize == old(obj.objsize)
        invariant Now(ch) == old(Now(ch)) && obj.nFrag == old(obj.nFrag)
      {
        if fptr % Cb() == 0 { Follow(ch); } else { Inside(ch); }
        var rcnt := Part(btr - br, ch);
        br := br + rcnt;
      }
    }

    // -------------------------------------------------------------- seeking

    /** Where `f_lseek` starts once nothing is waiting: at the current cluster if the target is
        not before it, and else at the first one, which may have to be allocated. */
    method StartSeek(ofs: nat, ghost ch: seq<nat>) returns (clst: nat, ghost j: nat, ghost ch': seq<nat>)
      requires Sound(ch) && obj.nFrag == 0 && 0 < ofs
      modifies this`fptr, this`clust, obj, obj.fs
      ensures obj.objsize == old(obj.objsize)
      ensures if clst == 0 then Sound(ch') && ch' == [] && fptr == 0 && false !in obj.fs.bitmap
              else AtCluster(ch', j) && clst == clust && fptr == Room(Cb(), j) < ofs
      ensures obj.nFrag == 0 && (obj.stat == 3 ==> old(obj.stat) == 3)
      ensures Grows(old(Now(ch)), Now(ch'))
    {
      hide Recorded, Distinct, FreeClusters, Room, Grows;
      ch', j := ch, 0;
      GrowsNot(ch);
      FirstCluster(ch);
      RoomOfNone(Cb());
      var ifptr, bcs := fptr, Cb();
      fptr := 0;
      if ifptr > 0 && (ofs - 1) / bcs >= (ifptr - 1) / bcs {
        fptr := (ifptr - 1) / bcs * bcs;
        j := Number(bcs, ifptr - 1);
        BeforeTarget(bcs, ifptr - 1, ofs - 1);
        clst := clust;
        CurrentIsCluster(ch, j);
      } else {
        clst := obj.sclust;
        if clst == 0 { clst, ch' := Begin(); }
        clust := clst;
      }
    }

    lemma CurrentIsCluster(ch: seq<nat>, j: nat)
      requires ValidChain(ch) && j < |ch|
      ensures ch[j] != 0
    {
      assert obj.fs.InUse(ch[j]);
    }

    /** One round of the loop of `f_lseek`: from the start of cluster `j` to that of the next. */
    method NextCluster(ghost ch: seq<nat>, ghost j: nat) returns (clst: nat, ghost ch': seq<nat>)
      requires AtCluster(ch, j) && Cb() > 0 && fptr == Room(Cb(), j) && (writable || fptr + Cb() < obj.objsize)
      requires modified || (obj.nFrag == 0 && obj.stat != 3) || fptr >= obj.objsize
      modifies this, obj, obj.fs
      ensures fptr == Room(Cb(), j + 1) == old(fptr) + Cb()
      ensures obj.objsize == if fptr > old(obj.objsize) then fptr else old(obj.objsize)
      ensures if clst == 0 then
                writable && ch' == ch && j + 1 == |ch| && Sound(ch) && false !in obj.fs.bitmap
                && (modified || (obj.nFrag == 0 && obj.stat != 3))
              else AtCluster(ch', j + 1) && clst == clust
      ensures modified || (obj.nFrag == 0 && obj.stat != 3) || fptr >= obj.objsize
      ensures Grows(old(Now(ch)), Now(ch'))
    {
      hide Recorded, Distinct, FreeClusters, Number, Grows, ValidChain, FileObject.SizeOk, Room;
      GrowsNot(ch);
      ch' := ch;
      NumberIs(Cb(), fptr, j);
      fptr := fptr + Cb();
      if writable {
        GrowSize(ch, j);
        clst, ch' := Stretch(ch, j);
        if clst == 0 {
          EndOfCluster(ch, j);
          return;
        }
      } else {
        LinkFollowed(ch, j);
        clst := obj.GetFat(clust);
      }
      clust := clst;
    }

    /** The size is brought up to date before the chain is followed, since `get_fat` needs it. */
    method GrowSize(ghost ch: seq<nat>, ghost j: nat)
      requires AtCluster(ch, j) && Cb() > 0 && fptr == Room(Cb(), j + 1)
      modifies obj`objsize, this`modified
      ensures ValidChain(ch) && obj.SizeOk(ch) && (j + 1 == |ch| ==> fptr >= obj.objsize)
      ensures obj.objsize == if fptr > old(obj.objsize) then fptr else old(obj.objsize)
      ensures modified == (old(modified) || fptr > old(obj.objsize))
      ensures Now(ch) == old(Now(ch)) && obj.nFrag == old(obj.nFrag) && obj.stat == old(obj.stat)
    {
      hide Recorded, Distinct, FreeClusters, Room;
      NextSize(ch, j);
      if fptr > obj.objsize {
        obj.objsize := fptr;
        modified := true;
      }
    }

    /** Before the end of the file a link is found. */
    lemma LinkFollowed(ch: seq<nat>, j: nat)
      requires AtCluster(ch, j) && Cb() > 0 && Room(Cb(), j + 1) < obj.objsize
      ensures j + 1 < |ch| && obj.fs.Valid() && obj.GetFat(ch[j]) == ch[j + 1] != 0 && obj.SizeOk(ch) && obj.nFrag == 0
    {
      hide Recorded, Distinct, FreeClusters, Room;
      if j + 1 == |ch| { assert false; }
      obj.GetFatFollows(ch, j);
      CurrentIsCluster(ch, j + 1);
    }

    /** The size after a round of `f_lseek`. */
    lemma NextSize(ch: seq<nat>, j: nat)
      requires AtCluster(ch, j) && Cb() > 0
      ensures var size := if Room(Cb(), j + 1) > obj.objsize then Room(Cb(), j + 1) else obj.objsize;
              0 < size <= Room(Cb(), |ch|) && (obj.stat == 2 ==> Number(Cb(), size - 1) == |ch| - 1)
    {
      hide Recorded, Distinct, FreeClusters, Room;
      var size := if Room(Cb(), j + 1) > obj.objsize then Room(Cb(), j + 1) else obj.objsize;
      RoomGrows(Cb(), j + 1, |ch|);
      RoomGrows(Cb(), 0, j);
      RoomOfNone(Cb());
      NumberIs(Cb(), 0, j);
      NumberIs(Cb(), size - 1, |ch| - 1);
      if obj.objsize > 0 { NumberIs(Cb(), obj.objsize - 1, |ch| - 1); }
    }

    /** At the end of the last cluster, with no more to be had. */
    lemma EndOfCluster(ch: seq<nat>, j: nat)
      requires ValidChain(ch) && obj.SizeOk(ch) && j + 1 == |ch| && clust == ch[j]
      requires Cb() > 0 && fptr == Room(Cb(), j + 1) <= obj.objsize
      ensures Sound(ch)
    {
      hide Recorded, Distinct, FreeClusters, Room;
      RoomGrows(Cb(), 0, j);
      RoomOfNone(Cb());
      NumberIs(Cb(), 0, j);
      NumberIs(Cb(), fptr - 1, j);
    }

    /** The loop of `f_lseek` and what follows it, from the start of cluster `j` to `ofs` bytes
        behind it. */
    method SeekFrom(ofs0: nat, ghost ch: seq<nat>, ghost j0: nat) returns (ghost ch': seq<nat>)
      requires AtCluster(ch, j0) && Cb() > 0 && fptr == Room(Cb(), j0) && 0 < ofs0
      requires writable || fptr + ofs0 <= obj.objsize
      requires modified || (obj.nFrag == 0 && obj.stat != 3)
      modifies this, obj, obj.fs
      ensures Valid(ch') && fptr <= old(fptr) + ofs0
      ensures fptr < old(fptr) + ofs0 ==> writable && fptr == Room(Cb(), |ch'|) && false !in obj.fs.bitmap
      ensures obj.objsize == if fptr > old(obj.objsize) then fptr else old(obj.objsize)
      ensures Grows(old(Now(ch)), Now(ch'))
    {
      hide Recorded, Distinct, FreeClusters, Number, Grows, Room, AtCluster, Sound;
      var ofs, clst := ofs0, clust;
      ghost var j: nat := j0;
      ghost var size := obj.objsize;
      ch' := ch;
      GrowsNot(ch);
      while ofs > Cb()
        invariant AtCluster(ch', j) && Cb() > 0 && fptr == Room(Cb(), j) && 0 < ofs
        invariant fptr + ofs == old(fptr) + ofs0 && j0 <= j && (writable || obj.objsize == size)
        invariant obj.objsize == if fptr > size && j > j0 then fptr else size
        invariant modified || (obj.nFrag == 0 && obj.stat != 3) || fptr >= obj.objsize
        invariant Grows(old(Now(ch)), Now(ch'))
      {
        ghost var w1 := Now(ch');
        ofs := ofs - Cb();
        clst, ch' := NextCluster(ch', j);
        GrowsTwice(old(Now(ch)), w1, Now(ch'));
        if clst == 0 { return; }
        j := j + 1;
      }
      NumberIs(Cb(), fptr, j);
      if fptr + ofs > obj.objsize { modified := true; }
      Move(ofs, ch', j);
    }

    /** `f_lseek`: first writes what is waiting, for the chain must be followed; then moves to the
        target, or as far towards it as the size allows in read-only mode and the capacity of
        the volume otherwise. */
    method Seek(ofs0: nat, ghost ch: seq<nat>) returns (ghost ch': seq<nat>)
      requires Valid(ch)
      modifies this, obj, obj.fs
      ensures Valid(ch') && fptr == Min(ofs0, if writable then Capacity(ch') else old(obj.objsize))
      ensures obj.objsize == if fptr > old(obj.objsize) then fptr else old(obj.objsize)
      ensures Capacity(ch') == old(Capacity(ch)) && Grows(old(Now(ch)), Now(ch'))
    {
      hide Recorded, Distinct, FreeClusters, Number, Grows, Room;
      ghost var w := Now(ch);
      GrowsNot(ch);
      CapacityBound(ch);
      CapacityKept(w, ch);
      Fill(ch);
      ghost var w1 := Now(ch);
      var ofs := ofs0;
      if ofs > obj.objsize && !writable { ofs := obj.objsize; }
      ch' := ch;
      if ofs > 0 {
        var clst;
        ghost var j;
        RoomOfNone(Cb());
        clst, j, ch' := StartSeek(ofs, ch);
        if clst != 0 {
          ghost var w2, ch2 := Now(ch'), ch';
          ch' := SeekFrom(ofs - fptr, ch2, j);
          GrowsTwice(w1, w2, Now(ch'));
        }
      } else {
        ToStart(ch);
      }
      GrowsTwice(w, w1, Now(ch'));
      CapacityKept(w, ch');
      CapacityBound(ch');
      PointerInFile(ch');
    }

    /** The pointer at the start needs no current cluster. */
    method ToStart(ghost ch: seq<nat>)
      requires Valid(ch) && obj.nFrag == 0
      modifies this`fptr
      ensures Valid(ch) && fptr == 0
    {
      hide Recorded, Distinct, FreeClusters;
      fptr := 0;
    }

    /** `fill_last_frag` at the head of `f_lseek`. */
    method Fill(ghost ch: seq<nat>)
      requires Valid(ch)
      modifies obj, obj.fs
      ensures Valid(ch) && obj.nFrag == 0 && obj.objsize == old(obj.objsize) && obj.stat == old(obj.stat)
      ensures Grows(old(Now(ch)), Now(ch))
    {
      hide Recorded, Distinct, FreeClusters, Number, Room;
      if ch != [] { obj.LastFragmentFits(ch); }
      obj.EndLastFrag(ch, clust);
    }

    /** The allocation part of `f_sync`. */
    method Sync(ghost ch: seq<nat>)
      requires Valid(ch)
      modifies this`modified, obj, obj.fs
      ensures Valid(ch) && !modified && fptr == old(fptr) && obj.objsize == old(obj.objsize)
      ensures Stored(ch) && Grows(old(Now(ch)), Now(ch))
    {
      hide Recorded, Distinct, Consecutive, IsFatChain, FreeClusters, Number, Room, Stored;
      if modified {
        if ch != [] { obj.LastFragmentFits(ch); }
        obj.WriteFragments(ch, clust);
        modified := false;
        StoredIs(ch);
      } else {
        StoredAlready(ch);
      }
    }

    lemma StoredAlready(ch: seq<nat>)
      requires obj.DescribesAny(ch) && obj.nFrag == 0 && obj.stat != 3
      ensures Stored(ch)
    {
    }

    /** The volume has the whole chain: on the FAT, where the top bit of an entry does not count,
        or, when its clusters are consecutive, by the contiguous status. */
    ghost predicate Stored(ch: seq<nat>)
      reads obj, obj.fs
    {
      ch != [] ==>
        if obj.stat == 2 then forall i :: 0 <= i < |ch| ==> ch[i] == ch[0] + i
        else
          && obj.stat == 0 && (forall i :: 0 <= i < |ch| ==> ch[i] < |obj.fs.fat|)
          && (forall i :: 0 <= i < |ch| - 1 ==> obj.fs.fat[ch[i]] % 0x8000_0000 == ch[i + 1])
          && obj.fs.fat[ch[|ch| - 1]] % 0x8000_0000 == 0x7FFF_FFFF
    }

    lemma StoredIs(ch: seq<nat>)
      requires ch != [] ==> if obj.stat == 2 then Consecutive(ch, 0, |ch| - 1)
                            else obj.stat == 0 && IsFatChain(obj.fs.fat, ch)
      ensures Stored(ch)
    {
    }
  }

  lemma RoomOfNone(cb: nat)
    ensures Room(cb, 0) == 0 && (cb > 0 ==> Number(cb, 0) == 0)
  {
  }

  lemma BeforeTarget(cb: nat, p: nat, t: nat)
    requires cb > 0 && t / cb >= p / cb
    ensures p / cb * cb == Room(cb, Number(cb, p)) <= t
  {
    Among(cb, t, 0);
    RoomGrows(cb, Number(cb, p), Number(cb, t));
  }

  lemma OnBoundary(cb: nat, p: nat, n: nat)
    requires cb > 0 && p > 0 && p % cb == 0 && n == Number(cb, p - 1)
    ensures p == Room(cb, n + 1)
  {
    var q := p / cb;
    assert p == q * cb && p - 1 == n * cb + (p - 1) % cb;
    assert (q - n) * cb == q * cb - n * cb && (q - n - 1) * cb == (q - n) * cb - cb;
    MultipleInRange(q - n, cb);
    MultipleInRange(q - n - 1, cb);
  }

  // ---------------------------------------------------------------- runs

  datatype Op = Write(n: nat) | Read(n: nat) | Seek(ofs: nat) | Sync

  /** The pointer and the size of a file. */
  datatype Place = Place(p: int, size: int)

  /** What is allowed: access mode and greatest size. */
  datatype Limits = Limits(readable: bool, writable: bool, capacity: nat)

  /** Where an operation moves the pointer, and the size then. */
  function Do(op: Op, at: Place, lim: Limits): Place {
    match op
    case Write(n) => if lim.writable then MovedTo(at.p + Min(n, lim.capacity - at.p), at) else at
    case Read(n) => if lim.readable then MovedTo(at.p + Min(n, at.size - at.p), at) else at
    case Seek(ofs) => MovedTo(Min(ofs, if lim.writable then lim.capacity else at.size), at)
    case Sync => at
  }

  function MovedTo(p: int, at: Place): Place {
    Place(p, if p > at.size then p else at.size)
  }

  function DoAll(ops: seq<Op>, at: Place, lim: Limits): Place {
    if ops == [] then at else Do(ops[|ops| - 1], DoAll(ops[..|ops| - 1], at, lim), lim)
  }

  /** Any writes, reads, seeks and syncs, in any order, on any described file: each moves the
      pointer exactly as far as the mode, the size and the capacity allow, so every link that is
      looked up is found. The chain grows by free clusters only, the rest of the volume stays, and
      after a sync the volume has the whole chain; while it is contiguous the FAT is not
      touched. */
  method Run(f: File, ops: seq<Op>, ghost ch: seq<nat>) returns (ghost ch': seq<nat>)
    requires f.Valid(ch)
    modifies f, f.obj, f.obj.fs
    ensures f.Valid(ch') && Grows(old(f.Now(ch)), f.Now(ch'))
    ensures Place(f.fptr, f.obj.objsize)
            == DoAll(ops, old(Place(f.fptr, f.obj.objsize)), Limits(f.readable, f.writable, old(f.Capacity(ch))))
    ensures ops != [] && ops[|ops| - 1].Sync? ==> f.Stored(ch')
  {
    hide Recorded, Distinct, FreeClusters, Grows, Room, File.Valid, File.Capacity, Do, File.Stored;
    ghost var w, at0 := f.Now(ch), Place(f.fptr, f.obj.objsize);
    ghost var lim := Limits(f.readable, f.writable, f.Capacity(ch));
    ch' := ch;
    f.GrowsNot(ch);
    for k := 0 to |ops|
      invariant f.Valid(ch') && Grows(w, f.Now(ch')) && f.Capacity(ch') == lim.capacity
      invariant Place(f.fptr, f.obj.objsize) == DoAll(ops[..k], at0, lim)
      invariant k > 0 && ops[k - 1].Sync? ==> f.Stored(ch')
    {
      ghost var w1 := f.Now(ch');
      ch' := Apply(f, ops[k], ch');
      GrowsTwice(w, w1, f.Now(ch'));
      assert ops[..k + 1][..k] == ops[..k];
    }
    assert ops[..|ops|] == ops;
  }

  /** One operation of a run. */
  method Apply(f: File, op: Op, ghost ch: seq<nat>) returns (ghost ch': seq<nat>)
    requires f.Valid(ch)
    modifies f, f.obj, f.obj.fs
    ensures f.Valid(ch') && Grows(old(f.Now(ch)), f.Now(ch')) && f.Capacity(ch') == old(f.Capacity(ch))
    ensures Place(f.fptr, f.obj.objsize)
            == Do(op, old(Place(f.fptr, f.obj.objsize)), Limits(f.readable, f.writable, f.Capacity(ch')))
    ensures op.Sync? ==> f.Stored(ch')
  {
    hide Recorded, Distinct, FreeClusters, Room, File.Capacity, File.ValidChain, File.ValidPointer, Grows, File.Stored;
    ch' := ch;
    ghost var w := f.Now(ch);
    f.GrowsNot(ch);
    f.PointerInFile(ch);
    f.CapacityKept(w, ch);
    match op
    case Write(n) =>
      var ok, bw;
      ok, bw, ch' := f.Write(n, ch);
    case Read(n) =>
      var ok, br := f.Read(n, ch);
      f.CapacityKept(w, ch);
    case Seek(ofs) =>
      ch' := f.Seek(ofs, ch);
    case Sync =>
      f.Sync(ch);
      f.CapacityKept(w, ch);
  }
}
