/** The one-sector disk window of FatFs and the FAT entries read and written through it
    (`sync_window`, `move_window`, `get_fat` and `put_fat` on FAT12, FAT16 and FAT32). */
module FatWindow {
  type byte = x: int | 0 <= x < 256
  type Sector = seq<byte>

  datatype FatType = Fat12 | Fat16 | Fat32

  const INTERNAL_ERROR := 1

  // ---------------------------------------------------------------- entries in a string of bytes

  /** Where the entry of a cluster starts in the FAT. */
  function EntryOffset(t: FatType, clst: nat): nat {
    match t
    case Fat12 => clst + clst / 2
    case Fat16 => 2 * clst
    case Fat32 => 4 * clst
  }

  function EntryBytes(t: FatType): nat {
    if t == Fat32 then 4 else 2
  }

  /** The value of an entry in the FAT `f`; FAT12 entries share a byte with a neighbour and
      FAT32 entries leave out their top four bits. */
  function Entry(t: FatType, f: seq<byte>, clst: nat): (r: nat)
    requires EntryOffset(t, clst) + EntryBytes(t) <= |f|
  {
    var o := EntryOffset(t, clst);
    match t
    case Fat12 =>
      var wc := f[o] as int + 256 * f[o + 1] as int;
      if clst % 2 == 1 then wc / 16 else wc % 4096
    case Fat16 => f[o] as int + 256 * f[o + 1] as int
    case Fat32 => LoadDword(f, o) % 0x1000_0000
  }

  function LoadDword(f: seq<byte>, o: nat): (r: nat)
    requires o + 4 <= |f|
  {
    f[o] as int + 0x100 * f[o + 1] as int + 0x1_0000 * f[o + 2] as int + 0x100_0000 * f[o + 3] as int
  }

  /** The four bits of a FAT32 entry that are not part of its value. */
  function TopBits(f: seq<byte>, clst: nat): nat
    requires 4 * clst + 4 <= |f|
  {
    LoadDword(f, 4 * clst) / 0x1000_0000
  }

  function StoreDword(f: seq<byte>, o: nat, v: nat): seq<byte>
    requires o + 4 <= |f|
  {
    f[o := v % 256][o + 1 := v / 0x100 % 256][o + 2 := v / 0x1_0000 % 256][o + 3 := v / 0x100_0000 % 256]
  }

  /** The part of a value that an entry can hold. */
  function Fit(t: FatType, val: nat): nat {
    match t
    case Fat12 => val % 4096
    case Fat16 => val % 65536
    case Fat32 => val % 0x1000_0000
  }

  /** The two bytes of a FAT12 entry as `put_fat` changes them. */
  function FirstByte(clst: nat, p: byte, val: nat): byte {
    if clst % 2 == 1 then p % 16 + 16 * (val % 16) else val % 256
  }

  function SecondByte(clst: nat, p: byte, val: nat): byte {
    if clst % 2 == 1 then val / 16 % 256 else 16 * (p / 16) + val / 256 % 16
  }

  /** The FAT with one entry changed, as `put_fat` computes it. */
  function PutEntry(t: FatType, f: seq<byte>, clst: nat, val: nat): seq<byte>
    requires EntryOffset(t, clst) + EntryBytes(t) <= |f|
  {
    var o := EntryOffset(t, clst);
    match t
    case Fat12 =>
      f[o := FirstByte(clst, f[o], val)][o + 1 := SecondByte(clst, f[o + 1], val)]
    case Fat16 => f[o := val % 256][o + 1 := val / 256 % 256]
    case Fat32 =>
      StoreDword(f, o, val % 0x1000_0000 + LoadDword(f, o) / 0x1000_0000 * 0x1000_0000)
  }

  lemma DwordRoundTrip(f: seq<byte>, o: nat, v: nat)
    requires o + 4 <= |f| && v < 0x1_0000_0000
    ensures LoadDword(StoreDword(f, o, v), o) == v
  {
    var a := v / 0x100;
    var b := a / 0x100;
    assert v / 0x1_0000 == b && v / 0x100_0000 == b / 0x100;
    assert v == v % 0x100 + 0x100 * a && a == a % 0x100 + 0x100 * b && b == b % 0x100 + 0x100 * (b / 0x100);
    assert b / 0x100 < 0x100;
  }

  lemma PutThenGet(t: FatType, f: seq<byte>, clst: nat, val: nat)
    requires EntryOffset(t, clst) + EntryBytes(t) <= |f|
    ensures Entry(t, PutEntry(t, f, clst, val), clst) == Fit(t, val)
  {
    match t
    case Fat12 => PutThenGet12(f, clst, val);
    case Fat16 => TwoBytes(val);
    case Fat32 => PutThenGet32(f, clst, val);
  }

  lemma TwoBytes(val: nat)
    ensures val % 256 + 256 * (val / 256 % 256) == val % 65536
  {
    var a := val / 256;
    assert val == 65536 * (a / 256) + (256 * (a % 256) + val % 256);
    DivisionIsUnique(val, 65536, a / 256, 256 * (a % 256) + val % 256);
  }

  lemma PutThenGet12(f: seq<byte>, clst: nat, val: nat)
    requires EntryOffset(Fat12, clst) + 2 <= |f|
    ensures Entry(Fat12, PutEntry(Fat12, f, clst, val), clst) == Fit(Fat12, val)
  {
    var o := EntryOffset(Fat12, clst);
    if clst % 2 == 1 {
      StoreOdd(f[o], val);
    } else {
      StoreEven(f[o + 1], val);
    }
  }

  lemma StoreOdd(old0: byte, val: nat)
    ensures ((old0 % 16 + 16 * (val % 16)) as int + 256 * (val / 16 % 256) as int) / 16 == val % 4096
  {
    var b0: byte, b1: byte := old0 % 16 + 16 * (val % 16), val / 16 % 256;
    HighTwelve(b0, b1);
    assert b0 / 16 == val % 16;
  }

  lemma StoreEven(old1: byte, val: nat)
    ensures ((val % 256) as int + 256 * (16 * (old1 / 16) + val / 256 % 16) as int) % 4096 == val % 4096
  {
    var b0: byte, b1: byte := val % 256, 16 * (old1 / 16) + val / 256 % 16;
    LowTwelve(b0, b1);
    assert b1 % 16 == val / 256 % 16;
  }

  lemma PutThenGet32(f: seq<byte>, clst: nat, val: nat)
    requires EntryOffset(Fat32, clst) + 4 <= |f|
    ensures Entry(Fat32, PutEntry(Fat32, f, clst, val), clst) == Fit(Fat32, val)
    ensures TopBits(PutEntry(Fat32, f, clst, val), clst) == TopBits(f, clst)
  {
    var o := EntryOffset(Fat32, clst);
    var top, low := LoadDword(f, o) / 0x1000_0000, val % 0x1000_0000;
    assert top < 16;
    DwordRoundTrip(f, o, low + top * 0x1000_0000);
    assert (low + top * 0x1000_0000) % 0x1000_0000 == low && (low + top * 0x1000_0000) / 0x1000_0000 == top;
  }

  /** Changing one entry changes no other, even where FAT12 entries share a byte. */
  lemma PutKeepsOthers(t: FatType, f: seq<byte>, clst: nat, val: nat, other: nat)
    requires EntryOffset(t, clst) + EntryBytes(t) <= |f|
    requires EntryOffset(t, other) + EntryBytes(t) <= |f| && other != clst
    ensures Entry(t, PutEntry(t, f, clst, val), other) == Entry(t, f, other)
  {
    match t
    case Fat12 => Fat12KeepsOthers(f, clst, val, other);
    case Fat16 =>
    case Fat32 =>
  }

  lemma Fat12KeepsOthers(f: seq<byte>, clst: nat, val: nat, other: nat)
    requires EntryOffset(Fat12, clst) + 2 <= |f| && EntryOffset(Fat12, other) + 2 <= |f| && other != clst
    ensures Entry(Fat12, PutEntry(Fat12, f, clst, val), other) == Entry(Fat12, f, other)
  {
    var o, p := EntryOffset(Fat12, clst), EntryOffset(Fat12, other);
    var f' := PutEntry(Fat12, f, clst, val);
    Fat12Offsets(clst, other);
    if p + 1 == o {
      LowNibble(f[o], val % 16);
      assert f'[p] == f[p] && f'[p + 1] % 16 == f[p + 1] % 16;
      LowTwelve(f[p], f[p + 1]);
      LowTwelve(f[p], f'[p + 1]);
    } else if p == o + 1 {
      HighNibble(f[o + 1], val / 256 % 16);
      assert f'[p + 1] == f[p + 1] && f'[p] / 16 == f[p] / 16;
      HighTwelve(f[p], f[p + 1]);
      HighTwelve(f'[p], f[p + 1]);
    } else {
      assert f'[p] == f[p] && f'[p + 1] == f[p + 1];
    }
  }

  /** Two FAT12 entries either share nothing or share the middle byte, the lower one being the
      entry of the even cluster. */
  lemma Fat12Offsets(clst: nat, other: nat)
    requires clst != other
    ensures var o, p := EntryOffset(Fat12, clst), EntryOffset(Fat12, other);
            || p + 2 <= o || o + 2 <= p
            || (p + 1 == o && clst % 2 == 1 && other % 2 == 0)
            || (p == o + 1 && clst % 2 == 0 && other % 2 == 1)
  {
  }

  lemma LowNibble(b: byte, x: nat)
    requires x < 16
    ensures (b % 16 + 16 * x) % 16 == b % 16
  {
  }

  lemma HighNibble(b: byte, x: nat)
    requires x < 16
    ensures (16 * (b / 16) + x) / 16 == b / 16
  {
  }

  lemma LowTwelve(b0: byte, b1: byte)
    ensures (b0 as int + 256 * b1 as int) % 4096 == b0 as int + 256 * (b1 % 16) as int
  {
  }

  lemma HighTwelve(b0: byte, b1: byte)
    ensures (b0 as int + 256 * b1 as int) / 16 == (b0 / 16) as int + 16 * b1 as int
  {
  }

  // ---------------------------------------------------------------- sectors

  lemma DivisionIsUnique(a: int, d: int, q: int, r: int)
    requires a == q * d + r && 0 <= r < d
    ensures a / d == q && a % d == r
  {
    var k := a / d - q;
    assert k * d == r - a % d;
    MultipleBounds(k, d);
  }

  lemma MultipleBounds(k: int, d: int)
    requires d >= 0
    ensures k >= 1 ==> k * d >= d
    ensures k <= -1 ==> k * d <= -d
  {
  }

  /** Sector and place in it of byte `i` of a string of sectors. */
  function Sec(i: nat, ss: nat): nat
    requires ss > 0
  {
    i / ss
  }

  function Off(i: nat, ss: nat): (r: nat)
    requires ss > 0
    ensures r < ss
  {
    i % ss
  }

  /** The bytes of sectors [base, base + n) one after the other. */
  function Flat(v: seq<Sector>, base: nat, n: nat, ss: nat): (f: seq<byte>)
    requires ss > 0 && base + n <= |v| && forall i :: 0 <= i < |v| ==> |v[i]| == ss
    ensures |f| == n * ss
  {
    seq(n * ss, i requires 0 <= i < n * ss => SectorOf(i, n, ss); v[base + Sec(i, ss)][Off(i, ss)])
  }

  lemma SectorOf(i: nat, n: nat, ss: nat)
    requires ss > 0 && i < n * ss
    ensures Sec(i, ss) < n
  {
    var q := i / ss;
    assert q * ss <= i;
    AtLeast(q, n, ss);
  }

  lemma AtLeast(q: nat, n: nat, ss: nat)
    ensures q >= n ==> q * ss >= n * ss
  {
  }

  lemma SamePosition(i: nat, k: nat, ss: nat)
    requires ss > 0
    ensures Sec(i, ss) == Sec(k, ss) && Off(i, ss) == Off(k, ss) ==> i == k
  {
    assert i == i / ss * ss + i % ss && k == k / ss * ss + k % ss;
  }

  lemma FlatAt(v: seq<Sector>, base: nat, n: nat, ss: nat, k: nat)
    requires ss > 0 && base + n <= |v| && (forall i :: 0 <= i < |v| ==> |v[i]| == ss) && k < n * ss
    ensures Sec(k, ss) < n && Flat(v, base, n, ss)[k] == v[base + Sec(k, ss)][Off(k, ss)]
  {
    SectorOf(k, n, ss);
  }

  /** Changing a byte of one sector changes that byte of the string. */
  lemma FlatUpdate(v: seq<Sector>, v': seq<Sector>, base: nat, n: nat, ss: nat, i: nat, b: byte)
    requires ss > 0 && base + n <= |v| == |v'| && i < n * ss && Sec(i, ss) < n
    requires forall k :: 0 <= k < |v| ==> |v[k]| == ss
    requires forall k :: base <= k < base + n ==>
               v'[k] == if k == base + Sec(i, ss) then v[k][Off(i, ss) := b] else v[k]
    requires forall k :: 0 <= k < |v'| ==> |v'[k]| == ss
    ensures Flat(v', base, n, ss) == Flat(v, base, n, ss)[i := b]
  {
    hide Flat, Sec, Off;
    var f, f' := Flat(v, base, n, ss), Flat(v', base, n, ss);
    forall k | 0 <= k < n * ss
      ensures f'[k] == f[i := b][k]
    {
      FlatAt(v, base, n, ss, k);
      FlatAt(v', base, n, ss, k);
      SamePosition(i, k, ss);
      ByteAt(v[base + Sec(k, ss)], v'[base + Sec(k, ss)], Sec(k, ss) == Sec(i, ss), Off(i, ss), Off(k, ss), b);
    }
  }

  lemma ByteAt(s: Sector, s': Sector, changed: bool, i: nat, k: nat, b: byte)
    requires i < |s| && k < |s| && s' == if changed then s[i := b] else s
    ensures s'[k] == if changed && i == k then b else s[k]
  {
  }

  // ---------------------------------------------------------------- the window

  /** Bytes `j` of an aligned item are in the same sector as its first byte. */
  lemma Aligned(clst: nat, w: nat, q: nat, ss: nat, j: nat)
    requires 0 < w && 0 < q && ss == w * q && j < w
    ensures ss > 0 && (w * clst + j) / ss == clst / q && (w * clst + j) % ss == w * (clst % q) + j
    ensures w * clst % ss == w * (clst % q)
  {
    var a, b := clst / q, clst % q;
    assert clst == a * q + b;
    assert w * clst == a * ss + w * b by { assert w * (a * q) == a * (w * q); assert w * clst == w * (a * q) + w * b; }
    assert w * b + w <= w * q by { AtLeastTimes(w, b + 1, q); }
    DivisionIsUnique(w * clst + j, ss, a, w * b + j);
    DivisionIsUnique(w * clst, ss, a, w * b);
  }

  lemma AtLeastTimes(w: nat, b: nat, q: nat)
    requires b <= q
    ensures w * b <= w * q
  {
  }

  /** Where things lie on the volume. */
  datatype Layout = Layout(ss: nat, fatbase: nat, fsize: nat, nFats: nat, nFatent: nat, fsType: FatType) {
    ghost predicate Valid(sectors: nat) {
      && ss > 0 && ss % 4 == 0 && nFats in {1, 2} && fatbase + nFats * fsize <= sectors
      && Fits(FatSize())
    }

    /** A FAT of that many bytes has room for all entries. */
    ghost predicate Fits(size: nat) {
      nFatent >= 2 && EntryOffset(fsType, nFatent - 1) + EntryBytes(fsType) <= size
    }

    /** Bytes in one FAT. */
    function FatSize(): nat {
      fsize * ss
    }

    predicate InFirstFat(sect: nat) {
      fatbase <= sect < fatbase + fsize
    }

    predicate InSecondFat(sect: nat) {
      nFats == 2 && fatbase + fsize <= sect < fatbase + 2 * fsize
    }
  }

  /** All entries of the FAT `f`. */
  ghost function EntriesOf(at: Layout, f: seq<byte>): (e: seq<nat>)
    requires at.Fits(|f|)
    ensures |e| == at.nFatent
  {
    seq(at.nFatent, c requires 0 <= c < at.nFatent => Entry(at.fsType, f, c))
  }

  // ---------------------------------------------------------------- entries byte by byte

  /** The sectors of the volume hold the first FAT. */
  ghost predicate HasFat(at: Layout, v: seq<Sector>) {
    at.ss > 0 && at.fatbase + at.fsize <= |v| && forall i :: 0 <= i < |v| ==> |v[i]| == at.ss
  }

  /** Byte `i` of the first FAT. */
  ghost function RawByte(at: Layout, v: seq<Sector>, i: nat): int
    requires HasFat(at, v) && i < at.fsize * at.ss
  {
    SectorOf(i, at.fsize, at.ss); v[at.fatbase + i / at.ss][i % at.ss] as int
  }

  /** `e` is the entry of cluster `c`: two FAT12 entries take three bytes, a FAT16 entry two and a
      FAT32 entry four, of which the top four bits do not count; low bytes come first. */
  ghost predicate RawEntry(at: Layout, v: seq<Sector>, c: nat, e: nat)
    requires HasFat(at, v)
  {
    match at.fsType
    case Fat12 =>
      var k := c / 2;
      if c % 2 == 0 then
        3 * k + 1 < at.fsize * at.ss && e == RawByte(at, v, 3 * k) + 256 * (RawByte(at, v, 3 * k + 1) % 16)
      else
        3 * k + 2 < at.fsize * at.ss && e == RawByte(at, v, 3 * k + 1) / 16 + 16 * RawByte(at, v, 3 * k + 2)
    case Fat16 =>
      2 * c + 1 < at.fsize * at.ss && e == RawByte(at, v, 2 * c) + 256 * RawByte(at, v, 2 * c + 1)
    case Fat32 =>
      && 4 * c + 3 < at.fsize * at.ss
      && e == (RawByte(at, v, 4 * c) + 256 * RawByte(at, v, 4 * c + 1) + 65536 * RawByte(at, v, 4 * c + 2)
               + 16777216 * RawByte(at, v, 4 * c + 3)) % 268435456
  }

  lemma RawByteIs(at: Layout, v: seq<Sector>, i: nat)
    requires HasFat(at, v) && i < at.fsize * at.ss
    ensures |Flat(v, at.fatbase, at.fsize, at.ss)| == at.fsize * at.ss
    ensures RawByte(at, v, i) == Flat(v, at.fatbase, at.fsize, at.ss)[i] as int
  {
    hide Flat;
    FlatAt(v, at.fatbase, at.fsize, at.ss, i);
    SectorOf(i, at.fsize, at.ss);
  }

  /** The table of entries is what the bytes say. */
  lemma EntryInBytes(at: Layout, v: seq<Sector>, c: nat)
    requires HasFat(at, v) && EntryOffset(at.fsType, c) + EntryBytes(at.fsType) <= at.fsize * at.ss
    ensures |Flat(v, at.fatbase, at.fsize, at.ss)| == at.fsize * at.ss
    ensures RawEntry(at, v, c, Entry(at.fsType, Flat(v, at.fatbase, at.fsize, at.ss), c))
  {
    hide Flat, RawByte;
    var f, o := Flat(v, at.fatbase, at.fsize, at.ss), EntryOffset(at.fsType, c);
    RawByteIs(at, v, o);
    RawByteIs(at, v, o + 1);
    match at.fsType
    case Fat12 =>
      assert o == if c % 2 == 0 then 3 * (c / 2) else 3 * (c / 2) + 1;
      LowTwelve(f[o], f[o + 1]);
      HighTwelve(f[o], f[o + 1]);
    case Fat16 =>
    case Fat32 =>
      RawByteIs(at, v, o + 2);
      RawByteIs(at, v, o + 3);
  }

  class FatFs {
    const at: Layout
    var disk: seq<Sector>
    const win: array<byte>
    var winsect: nat
    var wflag: bool

    /** A mounted volume: a clean or dirty window on a sector outside the second FAT, and on
        disk the second FAT is a copy of the first. */
    ghost predicate Valid()
      reads this, win
    {
      && at.Valid(|disk|) && win.Length == at.ss
      && (forall i :: 0 <= i < |disk| ==> |disk[i]| == at.ss)
      && (winsect < |disk| ==> !at.InSecondFat(winsect))
      && (wflag ==> winsect < |disk|)
      && (!wflag && winsect < |disk| ==> win[..] == disk[winsect])
      && (at.nFats == 2 ==> forall s: nat :: at.InFirstFat(s) ==> disk[s + at.fsize] == disk[s])
    }

    /** The volume as seen through the window: its sector, and the mirror of that sector. */
    ghost function View(): (v: seq<Sector>)
      requires Valid()
      reads this, win
      ensures |v| == |disk| && forall i :: 0 <= i < |v| ==> |v[i]| == at.ss
      ensures at.nFats == 2 ==> forall s: nat :: at.InFirstFat(s) ==> v[s + at.fsize] == v[s]
    {
      if winsect >= |disk| then disk
      else if at.nFats == 2 && at.InFirstFat(winsect) then disk[winsect := win[..]][winsect + at.fsize := win[..]]
      else disk[winsect := win[..]]
    }

    constructor (at: Layout, disk: seq<Sector>)
      requires at.Valid(|disk|) && forall i :: 0 <= i < |disk| ==> |disk[i]| == at.ss
      requires at.nFats == 2 ==> forall s: nat :: at.InFirstFat(s) ==> disk[s + at.fsize] == disk[s]
      ensures Valid() && View() == disk && this.at == at && fresh(win)
    {
      this.at := at;
      this.disk := disk;
      win := new byte[at.ss](_ => 0);
      winsect := |disk|;
      wflag := false;
    }

    /** `sync_window`: afterwards the disk is what was seen. */
    method SyncWindow()
      requires Valid()
      modifies this`disk, this`wflag
      ensures Valid() && View() == old(View()) && !wflag
      ensures disk == View()
    {
      if wflag {
        disk := disk[winsect := win[..]];
        wflag := false;
        if winsect >= at.fatbase && winsect - at.fatbase < at.fsize {
          if at.nFats == 2 { disk := disk[winsect + at.fsize := win[..]]; }
        }
      }
    }

    /** `move_window`. */
    method MoveWindow(sect: nat)
      requires Valid() && sect < |disk| && !at.InSecondFat(sect)
      modifies this`disk, this`wflag, this`winsect, win
      ensures Valid() && View() == old(View()) && winsect == sect
      ensures win[..] == View()[sect]
    {
      if sect != winsect {
        SyncWindow();
        ghost var seen := View();
        forall i | 0 <= i < at.ss { win[i] := disk[sect][i]; }
        winsect := sect;
        assert win[..] == disk[sect];
        assert View() == seen;
      }
    }

    /** Changes one byte in the window. */
    method Poke(k: nat, b: byte)
      requires Valid() && winsect < |disk| && k < at.ss
      modifies this`wflag, win
      ensures Valid()
      ensures forall s :: 0 <= s < |disk| ==>
                View()[s] == if s == winsect || (at.nFats == 2 && at.InFirstFat(winsect) && s == winsect + at.fsize)
                             then old(View()[s])[k := b] else old(View()[s])
    {
      win[k] := b;
      wflag := true;
      assert win[..] == old(win[..])[k := b];
    }

    // -------------------------------------------------------------- FAT entries

    /** The bytes of the first FAT, as seen through the window. */
    ghost function Fat(): (f: seq<byte>)
      requires Valid()
      reads this, win
      ensures |f| == at.FatSize()
    {
      Flat(View(), at.fatbase, at.fsize, at.ss)
    }

    /** Nothing outside the FATs has changed. */
    twostate predicate OnlyFats()
      requires old(Valid()) && Valid()
      reads this, win
    {
      && |disk| == |old(disk)|
      && forall s: nat :: s < |disk| && !at.InFirstFat(s) && !at.InSecondFat(s) ==> View()[s] == old(View())[s]
    }

    lemma InWindow(i: nat)
      requires Valid() && i < at.FatSize() && winsect == at.fatbase + Sec(i, at.ss) < |disk|
      requires win[..] == View()[winsect]
      ensures Off(i, at.ss) < win.Length && win[Off(i, at.ss)] == Fat()[i]
    {
      hide Sec, Off, Flat;
      FlatAt(View(), at.fatbase, at.fsize, at.ss, i);
      assert win[Off(i, at.ss)] == win[..][Off(i, at.ss)];
    }

    lemma FatSector(i: nat)
      requires Valid() && i < at.FatSize()
      ensures i < at.fsize * at.ss && Sec(i, at.ss) < at.fsize && at.InFirstFat(at.fatbase + Sec(i, at.ss))
      ensures at.fatbase + Sec(i, at.ss) < |disk| && !at.InSecondFat(at.fatbase + Sec(i, at.ss))
    {
      SectorOf(i, at.fsize, at.ss);
    }

    /** Brings the sector of byte `i` of the FAT into the window. */
    method MoveToFat(i: nat)
      requires Valid() && i < at.FatSize()
      modifies this`disk, this`wflag, this`winsect, win
      ensures Valid() && View() == old(View())
      ensures winsect == at.fatbase + Sec(i, at.ss) && at.InFirstFat(winsect) && win[..] == View()[winsect]
    {
      FatSector(i);
      MoveWindow(at.fatbase + Sec(i, at.ss));
    }

    /** Changes byte `i` of the FAT, whose sector is in the window. */
    method PokeFat(i: nat, b: byte)
      requires Valid() && i < at.FatSize() && winsect == at.fatbase + Sec(i, at.ss) && at.InFirstFat(winsect)
      modifies this`wflag, win
      ensures Valid() && Fat() == old(Fat())[i := b] && OnlyFats()
      ensures win[..] == View()[winsect]
    {
      hide Sec, Off, Flat;
      FatSector(i);
      ghost var v := View();
      Poke(Off(i, at.ss), b);
      FlatUpdate(v, View(), at.fatbase, at.fsize, at.ss, i, b);
    }

    /** The FAT as a table of entry values. */
    ghost function Entries(): (e: seq<nat>)
      requires Valid()
      reads this, win
      ensures |e| == at.nFatent
    {
      EntriesOf(at, Fat())
    }

    lemma EntryFits(clst: nat)
      requires Valid() && clst < at.nFatent
      ensures EntryOffset(at.fsType, clst) + EntryBytes(at.fsType) <= at.FatSize()
    {
    }

    /** All bytes of a 16-bit or 32-bit entry are in one sector, at the place the source computes. */
    lemma WordPlace(clst: nat, j: nat)
      requires Valid() && at.fsType != Fat12 && clst < at.nFatent && j < EntryBytes(at.fsType)
      ensures var w := EntryBytes(at.fsType);
              && Sec(w * clst + j, at.ss) == clst / (at.ss / w) && Off(w * clst + j, at.ss) == clst * w % at.ss + j
              && w * clst + j < at.FatSize()
    {
      EntryFits(clst);
      if at.fsType == Fat16 {
        Aligned(clst, 2, at.ss / 2, at.ss, j);
      } else {
        Aligned(clst, 4, at.ss / 4, at.ss, j);
      }
    }

    /** What the table says of a cluster its bytes say. */
    lemma RawEntries(clst: nat)
      requires Valid() && clst < at.nFatent
      ensures HasFat(at, View()) && RawEntry(at, View(), clst, Entries()[clst])
    {
      hide RawEntry, Flat, Entry;
      EntryFits(clst);
      EntryInBytes(at, View(), clst);
    }

    /** `get_fat`: the entry of a cluster, or 1 for a number that is no cluster. */
    method GetFat(clst: nat) returns (val: nat)
      requires Valid()
      modifies this`disk, this`wflag, this`winsect, win
      ensures Valid() && View() == old(View())
      ensures Entries() == old(Entries())
      ensures val == if clst < 2 || clst >= at.nFatent then INTERNAL_ERROR else Entries()[clst]
      ensures 2 <= clst < at.nFatent ==> HasFat(at, View()) && RawEntry(at, View(), clst, val)
    {
      hide RawEntry;
      if clst < 2 || clst >= at.nFatent { return INTERNAL_ERROR; }
      RawEntries(clst);
      match at.fsType
      case Fat12 =>
        val := LoadTwoBytes(clst);
        val := if clst % 2 == 1 then val / 16 else val % 4096;
      case Fat16 =>
        val := LoadWindow(clst);
      case Fat32 =>
        val := LoadWindow(clst);
        val := val % 0x1000_0000;
    }

    /** The two bytes of a FAT12 entry, which may be in two sectors. */
    method LoadTwoBytes(clst: nat) returns (wc: nat)
      requires Valid() && at.fsType == Fat12 && clst < at.nFatent
      modifies this`disk, this`wflag, this`winsect, win
      ensures Valid() && View() == old(View())
      ensures var o := EntryOffset(Fat12, clst);
              o + 2 <= |Fat()| && wc == Fat()[o] as int + 256 * Fat()[o + 1] as int
    {
      hide Flat, View, Sec, Off;
      EntryFits(clst);
      var bc := clst + clst / 2;
      MoveToFat(bc);
      InWindow(bc);
      wc := win[Off(bc, at.ss)];
      bc := bc + 1;
      MoveToFat(bc);
      InWindow(bc);
      wc := wc + 256 * win[Off(bc, at.ss)] as int;
    }

    /** `ld_word` or `ld_dword` of the entry of a cluster. */
    method LoadWindow(clst: nat) returns (val: nat)
      requires Valid() && at.fsType != Fat12 && clst < at.nFatent
      modifies this`disk, this`wflag, this`winsect, win
      ensures Valid() && View() == old(View())
      ensures winsect == at.fatbase + clst / (at.ss / EntryBytes(at.fsType)) && at.InFirstFat(winsect)
      ensures win[..] == View()[winsect]
      ensures var o := EntryOffset(at.fsType, clst);
              o + EntryBytes(at.fsType) <= |Fat()|
              && val == if at.fsType == Fat16 then Fat()[o] as int + 256 * Fat()[o + 1] as int else LoadDword(Fat(), o)
    {
      hide Flat, View, Sec, Off;
      var w := EntryBytes(at.fsType);
      WordPlace(clst, 0);
      WordPlace(clst, 1);
      MoveToFat(w * clst);
      InWindow(w * clst);
      InWindow(w * clst + 1);
      var i := clst * w % at.ss;
      val := win[i] as int + 256 * win[i + 1] as int;
      if at.fsType == Fat32 {
        WordPlace(clst, 2);
        WordPlace(clst, 3);
        InWindow(w * clst + 2);
        InWindow(w * clst + 3);
        val := val + 0x1_0000 * win[i + 2] as int + 0x100_0000 * win[i + 3] as int;
      }
    }

    /** `st_word` or `st_dword` of the entry of a cluster whose sector is in the window. */
    method StoreWindow(clst: nat, v: nat)
      requires Valid() && at.fsType != Fat12 && clst < at.nFatent
      requires winsect == at.fatbase + clst / (at.ss / EntryBytes(at.fsType)) && at.InFirstFat(winsect)
      modifies this`wflag, win
      ensures Valid() && OnlyFats()
      ensures var o := EntryOffset(at.fsType, clst);
              o + EntryBytes(at.fsType) <= |old(Fat())|
              && Fat() == if at.fsType == Fat16 then old(Fat())[o := v % 256][o + 1 := v / 256 % 256]
                          else StoreDword(old(Fat()), o, v)
    {
      hide Flat, View, Sec, Off;
      var w := EntryBytes(at.fsType);
      var o := w * clst;
      WordPlace(clst, 0);
      WordPlace(clst, 1);
      PokeFat(o, v % 256);
      PokeFat(o + 1, v / 0x100 % 256);
      if at.fsType == Fat32 {
        WordPlace(clst, 2);
        WordPlace(clst, 3);
        PokeFat(o + 2, v / 0x1_0000 % 256);
        PokeFat(o + 3, v / 0x100_0000 % 256);
      }
    }

    /** One of the two bytes of a FAT12 entry. */
    method StoreByte(i: nat, clst: nat, val: nat, second: bool)
      requires Valid() && i < at.FatSize()
      modifies this`disk, this`wflag, this`winsect, win
      ensures Valid() && OnlyFats()
      ensures |old(Fat())| == at.FatSize()
      ensures Fat() == old(Fat())[i := if second then SecondByte(clst, old(Fat())[i], val)
                                       else FirstByte(clst, old(Fat())[i], val)]
    {
      hide Flat, View, Sec, Off, FirstByte, SecondByte;
      MoveToFat(i);
      InWindow(i);
      var p := win[Off(i, at.ss)];
      PokeFat(i, if second then SecondByte(clst, p, val) else FirstByte(clst, p, val));
    }

    /** Stores a FAT12 entry, one byte at a time and possibly in two sectors. */
    method StoreTwoBytes(clst: nat, val: nat)
      requires Valid() && at.fsType == Fat12 && clst < at.nFatent
      modifies this`disk, this`wflag, this`winsect, win
      ensures Valid() && OnlyFats()
      ensures EntryOffset(Fat12, clst) + 2 <= |old(Fat())| && Fat() == PutEntry(Fat12, old(Fat()), clst, val)
    {
      hide Flat, View, Sec, Off, FirstByte, SecondByte, Fat;
      EntryFits(clst);
      var bc := clst + clst / 2;
      StoreByte(bc, clst, val, false);
      StoreByte(bc + 1, clst, val, true);
    }

    /** `put_fat`: the entry of a cluster gets the value, as far as it can hold it; every other
        entry, and everything outside the FATs, stays. FAT32 keeps the top four bits. */
    method PutFat(clst: nat, val: nat) returns (ok: bool)
      requires Valid()
      modifies this`disk, this`wflag, this`winsect, win
      ensures Valid() && OnlyFats()
      ensures ok <==> 2 <= clst < at.nFatent
      ensures Entries() == if ok then old(Entries())[clst := Fit(at.fsType, val)] else old(Entries())
      ensures ok && at.fsType == Fat32 ==> TopBits(Fat(), clst) == old(TopBits(Fat(), clst))
      ensures ok ==>
                && HasFat(at, View())
                && RawEntry(at, View(), clst,
                            val % if at.fsType == Fat12 then 4096 else if at.fsType == Fat16 then 65536 else 268435456)
    {
      hide RawEntry, Flat, View, Entry, PutEntry, EntriesOf, StoreDword, LoadDword, Fit;
      ok := 2 <= clst < at.nFatent;
      if !ok { return; }
      ghost var before := Fat();
      EntryFits(clst);
      match at.fsType {
        case Fat12 =>
          StoreTwoBytes(clst, val);
        case Fat16 =>
          var old16 := LoadWindow(clst);
          StoreWindow(clst, val);
          PutAsWord(before, clst, val);
        case Fat32 =>
          var old32 := LoadWindow(clst);
          StoreWindow(clst, val % 0x1000_0000 + old32 / 0x1000_0000 * 0x1000_0000);
          PutAsDword(before, clst, val);
      }
      PutFrame(before, clst, val);
      RawEntries(clst);
      FitIs(val);
    }

    lemma FitIs(val: nat)
      ensures Fit(at.fsType, val)
              == val % if at.fsType == Fat12 then 4096 else if at.fsType == Fat16 then 65536 else 268435456
    {
    }

    lemma PutAsWord(f: seq<byte>, clst: nat, val: nat)
      requires EntryOffset(Fat16, clst) + 2 <= |f|
      ensures PutEntry(Fat16, f, clst, val) == f[2 * clst := val % 256][2 * clst + 1 := val / 256 % 256]
    {
    }

    lemma PutAsDword(f: seq<byte>, clst: nat, val: nat)
      requires EntryOffset(Fat32, clst) + 4 <= |f|
      ensures PutEntry(Fat32, f, clst, val)
              == StoreDword(f, 4 * clst, val % 0x1000_0000 + LoadDword(f, 4 * clst) / 0x1000_0000 * 0x1000_0000)
    {
    }

    /** What changing one entry means for the table. */
    lemma PutFrame(f: seq<byte>, clst: nat, val: nat)
      requires Valid() && clst < at.nFatent && |f| == at.FatSize()
      requires EntryOffset(at.fsType, clst) + EntryBytes(at.fsType) <= |f|
      ensures var f' := PutEntry(at.fsType, f, clst, val);
              && |f'| == |f| && EntriesOf(at, f') == EntriesOf(at, f)[clst := Fit(at.fsType, val)]
              && (at.fsType == Fat32 ==> TopBits(f', clst) == TopBits(f, clst))
    {
      hide Entry, PutEntry, Fit;
      PutSize(f, clst, val);
      PutThenGet(at.fsType, f, clst, val);
      if at.fsType == Fat32 { PutThenGet32(f, clst, val); }
      forall c: nat | c < at.nFatent
        ensures EntriesOf(at, PutEntry(at.fsType, f, clst, val))[c] == EntriesOf(at, f)[clst := Fit(at.fsType, val)][c]
      {
        EntryFits(c);
        if c != clst { PutKeepsOthers(at.fsType, f, clst, val, c); }
      }
    }

    lemma PutSize(f: seq<byte>, clst: nat, val: nat)
      requires EntryOffset(at.fsType, clst) + EntryBytes(at.fsType) <= |f|
      ensures |PutEntry(at.fsType, f, clst, val)| == |f|
    {
    }
  }
}
