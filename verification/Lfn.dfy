/** Long file names in directory entries of FAT volumes (`put_lfn`, `pick_lfn` and `cmp_lfn` of
    ff.c, and the runs of entries that `dir_register`, `dir_read` and `dir_find` make of them). */
module Lfn {
  import opened FatWindow

  const MAX_LFN := 255
  const LLEF := 0x40
  const AM_LFN: byte := 0x0F
  const SZDIRE := 32
  const ORD := 0
  const ATTR := 11
  const TYPE := 12
  const CHKSUM := 13
  const FST_CLUS := 26

  // ---------------------------------------------------------------- entries

  /** Where the 13 units of a name are in an entry. */
  function Ofs(s: nat): (o: nat)
    requires s < 13
    ensures o + 1 < SZDIRE && o > ORD
    ensures o + 1 < ATTR || (CHKSUM < o && o + 1 < FST_CLUS) || FST_CLUS + 1 < o
  {
    if s < 5 then 1 + 2 * s else if s < 11 then 14 + 2 * (s - 5) else 28 + 2 * (s - 11)
  }

  function WordAt(dir: seq<byte>, o: nat): nat
    requires o + 1 < |dir|
  {
    (dir[o] as int) + 256 * (dir[o + 1] as int)
  }

  /** The `s`-th unit of an entry. */
  function Unit(dir: seq<byte>, s: nat): nat
    requires |dir| == SZDIRE && s < 13
  {
    WordAt(dir, Ofs(s))
  }

  lemma OfsApart(s: nat)
    requires s < 13
    ensures forall t: nat :: t < s ==> Ofs(t) + 1 < Ofs(s)
  {
  }

  /** The number of a part, without the mark of the last one. */
  function Number(b: byte): nat {
    b % 64
  }

  predicate IsLast(b: byte) {
    b / 64 % 2 == 1
  }

  // ---------------------------------------------------------------- names

  ghost predicate IsName(name: seq<nat>) {
    1 <= |name| <= MAX_LFN && forall k :: 0 <= k < |name| ==> 0 < name[k] < 0xFFFF
  }

  /** How many entries a name takes. */
  function Parts(n: nat): nat {
    (n + 12) / 13
  }

  /** The unit at place `k` of the entries of a name: after the name a terminator, then
      filling. */
  function NameUnit(name: seq<nat>, k: nat): nat {
    if k < |name| then name[k] else if k == |name| then 0 else 0xFFFF
  }

  /** An entry as it is to be for part `ord` of a name. */
  ghost predicate IsPart(dir: seq<byte>, name: seq<nat>, ord: nat, sum: byte) {
    && |dir| == SZDIRE && 1 <= ord <= Parts(|name|)
    && (forall s: nat :: s < 13 ==> Unit(dir, s) == NameUnit(name, 13 * (ord - 1) + s))
    && dir[ORD] == (if ord == Parts(|name|) then ord + LLEF else ord)
    && dir[ATTR] == AM_LFN && dir[TYPE] == 0 && dir[CHKSUM] == sum && WordAt(dir, FST_CLUS) == 0
  }

  /** A working buffer with the name `name`, whatever comes after its terminator. */
  ghost predicate HasName(buf: seq<nat>, name: seq<nat>) {
    |buf| == MAX_LFN + 1 && |name| <= MAX_LFN && buf[..|name|] == name && buf[|name|] == 0
  }

  lemma UnitInBuffer(buf: seq<nat>, name: seq<nat>, k: nat)
    requires HasName(buf, name) && k <= |name|
    ensures buf[k] == NameUnit(name, k)
  {
    if k < |name| { assert buf[..|name|][k] == name[k]; }
  }

  // ---------------------------------------------------------------- entries byte by byte

  /** The low byte of each unit of an entry; the high byte follows it. */
  const PLACES: seq<nat> := [1, 3, 5, 7, 9, 14, 16, 18, 20, 22, 24, 28, 30]

  /** The `s`-th unit, low byte first. */
  function ByteUnit(dir: seq<byte>, s: nat): nat
    requires |dir| == 32 && s < 13
  {
    dir[PLACES[s]] as int + 256 * (dir[PLACES[s] + 1] as int)
  }

  /** The bytes of an entry for part `ord` of a name. */
  ghost predicate PartBytes(dir: seq<byte>, name: seq<nat>, ord: nat, sum: byte) {
    && |dir| == 32 && 1 <= ord <= (|name| + 12) / 13
    && (forall s: nat :: s < 13 ==>
          var k := 13 * (ord - 1) + s;
          var u := if k < |name| then name[k] else if k == |name| then 0 else 0xFFFF;
          dir[PLACES[s]] == u % 256 && dir[PLACES[s] + 1] == u / 256)
    && dir[0] == (if |name| <= 13 * ord then ord + 0x40 else ord)
    && dir[11] == 0x0F && dir[12] == 0 && dir[13] == sum && dir[26] == 0 && dir[27] == 0
  }

  /** The first `t` units are not zero; the next one is, and 0xFFFF fills the rest. */
  ghost predicate EndsAt(dir: seq<byte>, t: nat)
    requires |dir| == 32
  {
    && t <= 13
    && (forall s: nat :: s < t ==> dir[PLACES[s]] != 0 || dir[PLACES[s] + 1] != 0)
    && (t < 13 ==> dir[PLACES[t]] == 0 && dir[PLACES[t] + 1] == 0)
    && forall s: nat :: t < s < 13 ==> dir[PLACES[s]] == 0xFF && dir[PLACES[s] + 1] == 0xFF
  }

  /** The bytes of an entry that `pick_lfn` accepts, `n` being its number. */
  ghost predicate PickableBytes(dir: seq<byte>)
    requires |dir| == 32
  {
    var last := dir[0] / 64 % 2 == 1;
    var n: int := if last then dir[0] as int - 0x40 else dir[0] as int;
    && dir[26] == 0 && dir[27] == 0 && n >= 1
    && exists t: nat :: EndsAt(dir, t) && 13 * (n - 1) + t <= if t == 13 && !last then 256 else 255
  }

  /** Two units are the same after up-casing. */
  ghost predicate SameUp(up: nat -> nat, a: nat, b: nat) {
    up(a) == up(b)
  }

  /** The units before and at the end agree with the buffer from `base` on after up-casing. */
  ghost predicate AgreesUpTo(buf: seq<nat>, dir: seq<byte>, up: nat -> nat, base: int, t: nat)
    requires |buf| == 256 && |dir| == 32 && base >= 0
  {
    && base + (if t < 13 then t else 12) < 256
    && forall s: nat :: s <= t && s < 13 ==> SameUp(up, buf[base + s], ByteUnit(dir, s))
  }

  /** The bytes of an entry that `cmp_lfn` finds to agree with the buffer. */
  ghost predicate MatchingBytes(buf: seq<nat>, dir: seq<byte>, up: nat -> nat)
    requires |buf| == 256 && |dir| == 32
  {
    var base := 13 * (dir[0] as int % 64 - 1);
    && dir[26] == 0 && dir[27] == 0 && base >= 0
    && exists t: nat ::
         && EndsAt(dir, t) && AgreesUpTo(buf, dir, up, base, t)
         && (dir[0] / 64 % 2 == 1 && t == 13 ==> base + 13 < 256 && buf[base + 13] == 0)
  }

  /** A unit is its two bytes. */
  lemma UnitBytes(dir: seq<byte>, s: nat)
    requires |dir| == SZDIRE && s < 13
    ensures PLACES[s] + 1 < 32 && Unit(dir, s) == ByteUnit(dir, s)
  {
  }

  lemma TwoBytes(lo: byte, hi: byte, u: nat)
    ensures lo as int + 256 * (hi as int) == u <==> lo == u % 256 && hi == u / 256
    ensures lo as int + 256 * (hi as int) == 0 <==> lo == 0 && hi == 0
    ensures lo as int + 256 * (hi as int) == 0xFFFF <==> lo == 0xFF && hi == 0xFF
  {
  }

  /** Both ways to say what an entry is to be agree. */
  lemma PartInBytes(dir: seq<byte>, name: seq<nat>, ord: nat, sum: byte)
    ensures IsPart(dir, name, ord, sum) <==> PartBytes(dir, name, ord, sum)
  {
    hide Unit;
    if |dir| == 32 && 1 <= ord <= (|name| + 12) / 13 {
      TwoBytes(dir[26], dir[27], 0);
      forall s: nat | s < 13
        ensures PLACES[s] + 1 < 32
        ensures var u := NameUnit(name, 13 * (ord - 1) + s);
                Unit(dir, s) == u <==> dir[PLACES[s]] == u % 256 && dir[PLACES[s] + 1] == u / 256
      {
        UnitBytes(dir, s);
        TwoBytes(dir[PLACES[s]], dir[PLACES[s] + 1], NameUnit(name, 13 * (ord - 1) + s));
      }
    }
  }

  // ---------------------------------------------------------------- writing

  /** `st_word`. */
  method PutWord(dir: array<byte>, o: nat, w: nat)
    requires o + 1 < dir.Length && w < 0x1_0000
    modifies dir
    ensures WordAt(dir[..], o) == w
    ensures forall k :: 0 <= k < dir.Length && k != o && k != o + 1 ==> dir[k] == old(dir[k])
  {
    dir[o] := w % 256;
    dir[o + 1] := w / 256;
  }

  method PutUnit(dir: array<byte>, s: nat, w: nat)
    requires dir.Length == SZDIRE && s < 13 && w < 0x1_0000
    modifies dir
    ensures Unit(dir[..], s) == w && forall t: nat :: t < 13 && t != s ==> Unit(dir[..], t) == old(Unit(dir[..], t))
    ensures dir[ATTR] == old(dir[ATTR]) && dir[TYPE] == old(dir[TYPE]) && dir[CHKSUM] == old(dir[CHKSUM])
    ensures WordAt(dir[..], FST_CLUS) == old(WordAt(dir[..], FST_CLUS))
  {
    ghost var before := dir[..];
    PutWord(dir, Ofs(s), w);
    forall t: nat | t < 13 && t != s
      ensures Unit(dir[..], t) == Unit(before, t)
    {
      if t < s { OfsApart(s); } else { OfsApart(t); }
      assert dir[Ofs(t)] == before[Ofs(t)] && dir[Ofs(t) + 1] == before[Ofs(t) + 1];
    }
  }

  /** `put_lfn`. */
  method PutLfn(lfn: array<nat>, dir: array<byte>, ord0: byte, sum: byte, ghost name: seq<nat>)
    requires IsName(name) && HasName(lfn[..], name) && dir.Length == SZDIRE && 1 <= ord0 <= Parts(|name|)
    modifies dir
    ensures IsPart(dir[..], name, ord0, sum) && PartBytes(dir[..], name, ord0, sum)
  {
    hide PartBytes;
    var ord := ord0;
    dir[CHKSUM] := sum;
    dir[ATTR] := AM_LFN;
    dir[TYPE] := 0;
    PutWord(dir, FST_CLUS, 0);
    var i: nat := (ord - 1) * 13;
    var s, wc := 0, 0;
    ghost var base := i;
    while s < 13
      invariant 0 <= s <= 13
      invariant base == 13 * (ord0 - 1) && base < |name|
      invariant if wc == 0xFFFF then base + s > |name| else i == base + s <= |name|
      invariant forall t: nat :: t < s ==> Unit(dir[..], t) == NameUnit(name, base + t)
      invariant dir[ATTR] == AM_LFN && dir[TYPE] == 0 && dir[CHKSUM] == sum && WordAt(dir[..], FST_CLUS) == 0
    {
      if wc != 0xFFFF {
        UnitInBuffer(lfn[..], name, i);
        wc := lfn[i];
        i := i + 1;
      }
      PutUnit(dir, s, wc);
      if wc == 0 { wc := 0xFFFF; }
      s := s + 1;
    }
    if wc != 0xFFFF { UnitInBuffer(lfn[..], name, i); }
    if wc == 0xFFFF || lfn[i] == 0 { ord := ord + LLEF; }
    ghost var before := dir[..];
    dir[ORD] := ord;
    forall t: nat | t < 13
      ensures Unit(dir[..], t) == Unit(before, t)
    {
      assert dir[Ofs(t)] == before[Ofs(t)] && dir[Ofs(t) + 1] == before[Ofs(t) + 1];
    }
    PartInBytes(dir[..], name, ord0, sum);
  }

  // ---------------------------------------------------------------- reading

  /** Place of the terminator among the units from `s` on, 13 if there is none. */
  ghost function TermFrom(dir: seq<byte>, s: nat): (t: nat)
    requires |dir| == SZDIRE && s <= 13
    ensures s <= t <= 13 && (t < 13 ==> Unit(dir, t) == 0)
    ensures forall k: nat :: s <= k < t ==> Unit(dir, k) != 0
    decreases 13 - s
  {
    if s == 13 || Unit(dir, s) == 0 then s else TermFrom(dir, s + 1)
  }

  ghost predicate Filled(dir: seq<byte>)
    requires |dir| == SZDIRE
  {
    forall s: nat :: TermFrom(dir, 0) < s < 13 ==> Unit(dir, s) == 0xFFFF
  }

  /** What `pick_lfn` accepts: a zero field, filling after the terminator, and no unit past the
      buffer. */
  ghost predicate Pickable(dir: seq<byte>)
    requires |dir| == SZDIRE
  {
    var base, t := 13 * (Number7(dir[ORD]) - 1), TermFrom(dir, 0);
    && WordAt(dir, FST_CLUS) == 0 && base >= 0 && Filled(dir)
    && (if t < 13 then base + t <= MAX_LFN else base + 13 <= MAX_LFN + (if IsLast(dir[ORD]) then 0 else 1))
  }

  /** The number as `pick_lfn` takes it. */
  function Number7(b: byte): nat {
    if IsLast(b) then b as int - LLEF else b
  }

  /** Where the units of an entry end. */
  lemma EndsWhere(dir: seq<byte>, t: nat)
    requires |dir| == SZDIRE
    ensures EndsAt(dir, t) <==> t == TermFrom(dir, 0) && Filled(dir)
  {
    hide Unit, TermFrom;
    forall s: nat | s < 13
      ensures PLACES[s] + 1 < 32
      ensures Unit(dir, s) == 0 <==> dir[PLACES[s]] == 0 && dir[PLACES[s] + 1] == 0
      ensures Unit(dir, s) == 0xFFFF <==> dir[PLACES[s]] == 0xFF && dir[PLACES[s] + 1] == 0xFF
    {
      UnitBytes(dir, s);
      TwoBytes(dir[PLACES[s]], dir[PLACES[s] + 1], 0);
    }
    if EndsAt(dir, t) { TermIs(dir, 0, t); }
  }

  lemma PickableInBytes(dir: seq<byte>)
    requires |dir| == SZDIRE
    ensures Pickable(dir) <==> PickableBytes(dir)
  {
    hide EndsAt, TermFrom, Filled;
    TwoBytes(dir[26], dir[27], 0);
    EndsWhere(dir, TermFrom(dir, 0));
    forall t: nat
      ensures EndsAt(dir, t) ==> t == TermFrom(dir, 0)
    {
      EndsWhere(dir, t);
    }
  }

  lemma MatchesInBytes(buf: seq<nat>, dir: seq<byte>, up: nat -> nat)
    requires |buf| == MAX_LFN + 1 && |dir| == SZDIRE
    ensures Matches(buf, dir, up) <==> MatchingBytes(buf, dir, up)
  {
    hide EndsAt, TermFrom, Filled, AgreesUpTo;
    var base, t := 13 * (Number(dir[ORD]) - 1), TermFrom(dir, 0);
    TwoBytes(dir[26], dir[27], 0);
    forall t': nat
      ensures EndsAt(dir, t') <==> t' == t && Filled(dir)
    {
      EndsWhere(dir, t');
    }
    if base >= 0 { AgreesInBytes(buf, dir, up, base, t); }
  }

  lemma AgreesInBytes(buf: seq<nat>, dir: seq<byte>, up: nat -> nat, base: int, t: nat)
    requires |buf| == MAX_LFN + 1 && |dir| == SZDIRE && base >= 0
    ensures AgreesUpTo(buf, dir, up, base, t) <==> AgreesInUnits(buf, dir, up, base, t)
  {
    hide SameUp;
    forall s: nat | s < 13
      ensures Unit(dir, s) == ByteUnit(dir, s)
    {
      UnitBytes(dir, s);
    }
  }

  /** `pick_lfn`: stores the units of an entry up to the terminator in their place, with a
      terminator after the last entry. */
  method PickLfn(lfnbuf: array<nat>, dir: seq<byte>) returns (ok: bool)
    requires lfnbuf.Length == MAX_LFN + 1 && |dir| == SZDIRE
    modifies lfnbuf
    ensures (ok <==> Pickable(dir)) && (ok <==> PickableBytes(dir))
    ensures ok ==> var base, t, b := 13 * (Number7(dir[ORD]) - 1), TermFrom(dir, 0), old(lfnbuf[..]);
              forall k :: 0 <= k <= MAX_LFN ==>
                lfnbuf[k] == if base <= k < base + 13 && k <= base + t then Unit(dir, k - base)
                             else if k == base + 13 && t == 13 && IsLast(dir[ORD]) then 0 else b[k]
    ensures ok ==> forall s: nat :: s < 13 && s <= TermFrom(dir, 0) ==>
              && 0 <= 13 * (Number7(dir[ORD]) - 1) + s <= MAX_LFN
              && lfnbuf[13 * (Number7(dir[ORD]) - 1) + s] == ByteUnit(dir, s)
  {
    hide Unit, WordAt, TermFrom, Number7, IsLast, PickableBytes;
    PickableInBytes(dir);
    if WordAt(dir, FST_CLUS) != 0 { return false; }
    var i := (Number7(dir[ORD]) - 1) * 13;
    ghost var base, t, b := i, TermFrom(dir, 0), lfnbuf[..];
    var wc, s := 1, 0;
    while s < 13
      invariant 0 <= s <= 13
      invariant wc != 0 <==> s <= t
      invariant i == base + (if s <= t then s else t + 1)
      invariant s > 0 ==> base >= 0 && i <= MAX_LFN + 1
      invariant forall k: nat :: t < k < s ==> Unit(dir, k) == 0xFFFF
      invariant forall k :: 0 <= k <= MAX_LFN ==>
                  lfnbuf[k] == if base <= k < base + s && k <= base + t then Unit(dir, k - base) else b[k]
    {
      var uc := Unit(dir, s);
      if wc != 0 {
        if i < 0 || i >= MAX_LFN + 1 { return false; }
        wc := uc;
        lfnbuf[i] := uc;
        i := i + 1;
      } else {
        if uc != 0xFFFF { return false; }
      }
      s := s + 1;
    }
    if IsLast(dir[ORD]) && wc != 0 {
      if i >= MAX_LFN + 1 { return false; }
      lfnbuf[i] := 0;
    }
    ok := true;
    forall s: nat | s < 13
      ensures Unit(dir, s) == ByteUnit(dir, s)
    {
      UnitBytes(dir, s);
    }
  }

  // ---------------------------------------------------------------- comparing

  ghost predicate AgreesInUnits(buf: seq<nat>, dir: seq<byte>, up: nat -> nat, base: int, t: nat)
    requires |buf| == MAX_LFN + 1 && |dir| == SZDIRE && base >= 0
  {
    && base + (if t < 13 then t else 12) <= MAX_LFN
    && forall s: nat :: s <= t && s < 13 ==> SameUp(up, buf[base + s], Unit(dir, s))
  }

  /** What `cmp_lfn` accepts: up to the terminator the units agree with the buffer after
      up-casing, filling follows, and a name that ends with its last entry has its end there in
      the buffer too. */
  ghost predicate Matches(buf: seq<nat>, dir: seq<byte>, up: nat -> nat)
    requires |buf| == MAX_LFN + 1 && |dir| == SZDIRE
  {
    var base, t := 13 * (Number(dir[ORD]) - 1), TermFrom(dir, 0);
    && WordAt(dir, FST_CLUS) == 0 && base >= 0 && Filled(dir)
    && AgreesInUnits(buf, dir, up, base, t)
    && (IsLast(dir[ORD]) && t == 13 ==> base + 13 <= MAX_LFN && buf[base + 13] == 0)
  }

  /** `cmp_lfn`. */
  method CmpLfn(lfnbuf: array<nat>, dir: seq<byte>, up: nat -> nat) returns (ok: bool)
    requires lfnbuf.Length == MAX_LFN + 1 && |dir| == SZDIRE
    ensures (ok <==> Matches(lfnbuf[..], dir, up)) && (ok <==> MatchingBytes(lfnbuf[..], dir, up))
  {
    hide Unit, WordAt, TermFrom, IsLast, MatchingBytes;
    MatchesInBytes(lfnbuf[..], dir, up);
    if WordAt(dir, FST_CLUS) != 0 { return false; }
    var i := (Number(dir[ORD]) - 1) * 13;
    ghost var base, t, buf := i, TermFrom(dir, 0), lfnbuf[..];
    var wc, s := 1, 0;
    while s < 13
      invariant 0 <= s <= 13
      invariant wc != 0 <==> s <= t
      invariant i == base + (if s <= t then s else t + 1)
      invariant s > 0 ==> base >= 0 && i <= MAX_LFN + 1
      invariant forall k: nat :: t < k < s ==> Unit(dir, k) == 0xFFFF
      invariant forall k: nat :: k < s && k <= t ==> base + k <= MAX_LFN && up(buf[base + k]) == up(Unit(dir, k))
    {
      var uc := Unit(dir, s);
      if wc != 0 {
        if i < 0 || i >= MAX_LFN + 1 || up(uc) != up(lfnbuf[i]) { return false; }
        i := i + 1;
        wc := uc;
      } else {
        if uc != 0xFFFF { return false; }
      }
      s := s + 1;
    }
    NotAMultiple(Number(dir[ORD]));
    if IsLast(dir[ORD]) && wc != 0 && lfnbuf[i] != 0 { return false; }
    ok := true;
  }

  /** The buffer does not end where an entry ends, so the test for the end stays inside it. */
  lemma NotAMultiple(n: nat)
    ensures 13 * n != MAX_LFN + 1
  {
  }

  // ---------------------------------------------------------------- parts of a name

  lemma TermIs(dir: seq<byte>, s: nat, t: nat)
    requires |dir| == SZDIRE && s <= t <= 13 && (t < 13 ==> Unit(dir, t) == 0)
    requires forall k: nat :: s <= k < t ==> Unit(dir, k) != 0
    ensures TermFrom(dir, s) == t
    decreases t - s
  {
    if s < t { TermIs(dir, s + 1, t); }
  }

  /** How much of a name is in part `ord` and after it. */
  lemma PartFacts(dir: seq<byte>, name: seq<nat>, ord: nat, sum: byte)
    requires IsName(name) && IsPart(dir, name, ord, sum)
    ensures var rest := |name| - 13 * (ord - 1);
            && rest >= 1 && Filled(dir) && TermFrom(dir, 0) == (if rest < 13 then rest else 13)
            && (ord == Parts(|name|) <==> rest <= 13)
    ensures Number(dir[ORD]) == ord == Number7(dir[ORD]) && (IsLast(dir[ORD]) <==> ord == Parts(|name|))
  {
    hide Unit, WordAt, TermFrom;
    var rest := |name| - 13 * (ord - 1);
    var t := if rest < 13 then rest else 13;
    forall k: nat | k < t
      ensures Unit(dir, k) != 0
    {
      assert Unit(dir, k) == NameUnit(name, 13 * (ord - 1) + k);
    }
    TermIs(dir, 0, t);
  }

  lemma PartIsPickable(dir: seq<byte>, name: seq<nat>, ord: nat, sum: byte)
    requires IsName(name) && IsPart(dir, name, ord, sum)
    ensures Pickable(dir)
  {
    hide Unit, WordAt, TermFrom, Number7, IsLast, Filled, Parts;
    PartFacts(dir, name, ord, sum);
  }

  /** What the comparison of one part says about the name. */
  lemma PartMatches(buf: seq<nat>, dir: seq<byte>, up: nat -> nat, name: seq<nat>, ord: nat, sum: byte)
    requires |buf| == MAX_LFN + 1 && IsName(name) && IsPart(dir, name, ord, sum)
    requires forall u: nat :: up(u) == 0 <==> u == 0
    ensures Matches(buf, dir, up) <==>
            forall k: nat :: 13 * (ord - 1) <= k <= |name| && (k < 13 * ord || ord == Parts(|name|)) ==>
              up(buf[k]) == up(NameUnit(name, k))
  {
    hide Unit, WordAt, TermFrom, Number, IsLast, Filled, Parts;
    PartFacts(dir, name, ord, sum);
    var base := 13 * (ord - 1);
    assert forall s: nat :: s < 13 ==> Unit(dir, s) == NameUnit(name, base + s);
    if Matches(buf, dir, up) {
      forall k: nat | base <= k <= |name| && (k < 13 * ord || ord == Parts(|name|))
        ensures up(buf[k]) == up(NameUnit(name, k))
      {
        if k < 13 * ord {
          var s := k - base;
          assert up(buf[base + s]) == up(Unit(dir, s));
        }
      }
    }
    if forall k: nat :: base <= k <= |name| && (k < 13 * ord || ord == Parts(|name|)) ==>
        up(buf[k]) == up(NameUnit(name, k)) {
      forall s: nat | s <= TermFrom(dir, 0) && s < 13
        ensures base + s <= MAX_LFN && up(buf[base + s]) == up(Unit(dir, s))
      {
        assert up(buf[base + s]) == up(NameUnit(name, base + s));
      }
      if ord == Parts(|name|) && |name| == 13 * ord {
        assert up(buf[|name|]) == up(NameUnit(name, |name|));
      }
    }
  }

  // ---------------------------------------------------------------- runs of entries

  /** The entries of a name as they lie in a directory, the last part first. */
  ghost predicate IsRun(entries: seq<seq<byte>>, name: seq<nat>, sum: byte) {
    && |entries| == Parts(|name|)
    && forall i :: 0 <= i < |entries| ==> IsPart(entries[i], name, Parts(|name|) - i, sum)
  }

  /** The loop of `dir_register`, over slots with any contents. */
  method StoreRun(lfn: array<nat>, slots: seq<seq<byte>>, sum: byte, ghost name: seq<nat>)
    returns (entries: seq<seq<byte>>)
    requires IsName(name) && HasName(lfn[..], name) && |slots| == Parts(|name|)
    requires forall i :: 0 <= i < |slots| ==> |slots[i]| == SZDIRE
    ensures IsRun(entries, name, sum)
  {
    hide IsPart;
    var nEnt := |slots|;
    entries := [];
    PartsInByte(|name|);
    while nEnt > 0
      invariant 0 <= nEnt <= |slots| && |entries| == |slots| - nEnt
      invariant forall i :: 0 <= i < |entries| ==> IsPart(entries[i], name, |slots| - i, sum)
    {
      var slot := slots[|slots| - nEnt];
      var dir := new byte[SZDIRE](k requires 0 <= k < SZDIRE => slot[k]);
      PutLfn(lfn, dir, nEnt, sum, name);
      entries := entries + [dir[..]];
      nEnt := nEnt - 1;
    }
  }

  lemma PartsInByte(n: nat)
    requires n <= MAX_LFN
    ensures Parts(n) <= 20
  {
  }

  /** The long-name lines of `dir_read` over a run of entries: the expected number of the next
      part and the checksum, from whatever they were before. */
  method ReadRun(lfnbuf: array<nat>, entries: seq<seq<byte>>, ord0: byte, sum0: byte, ghost name: seq<nat>,
      ghost sum': byte)
    returns (ord: byte, sum: byte)
    requires lfnbuf.Length == MAX_LFN + 1 && forall i :: 0 <= i < |entries| ==> |entries[i]| == SZDIRE
    modifies lfnbuf
    ensures IsName(name) && IsRun(entries, name, sum') ==> ord == 0 && sum == sum' && HasName(lfnbuf[..], name)
  {
    hide IsPart, Unit, WordAt, TermFrom, Filled, Number, IsName, IsRun;
    ord, sum := ord0, sum0;
    for i := 0 to |entries|
      invariant IsName(name) && IsRun(entries, name, sum') && i > 0 ==>
                  && ord == |entries| - i && sum == sum' && |name| <= MAX_LFN
                  && forall k: nat :: 13 * (|entries| - i) <= k <= |name| ==> lfnbuf[k] == NameUnit(name, k)
    {
      var dir := entries[i];
      if IsName(name) && IsRun(entries, name, sum') {
        PartOfRun(entries, name, sum', i);
        PartFacts(dir, name, |entries| - i, sum');
        PartFields(dir, name, |entries| - i, sum');
        PartIsPickable(dir, name, |entries| - i, sum');
      }
      var b := dir[ORD];
      if IsLast(b) {
        sum := dir[CHKSUM];
        b := b - LLEF;
        ord := b;
      }
      var good := false;
      if b == ord && sum == dir[CHKSUM] { good := PickLfn(lfnbuf, dir); }
      ord := if good then ord - 1 else 0xFF;
    }
    if IsName(name) && IsRun(entries, name, sum') {
      RunIsNotEmpty(entries, name, sum');
      assert lfnbuf[..][..|name|] == name;
    }
  }

  lemma PartOfRun(entries: seq<seq<byte>>, name: seq<nat>, sum: byte, i: nat)
    requires IsRun(entries, name, sum) && i < |entries|
    ensures |entries| == Parts(|name|) && IsPart(entries[i], name, |entries| - i, sum)
  {
  }

  lemma RunIsNotEmpty(entries: seq<seq<byte>>, name: seq<nat>, sum: byte)
    requires IsName(name) && IsRun(entries, name, sum)
    ensures 0 < |entries| == Parts(|name|) && |name| <= MAX_LFN
  {
  }

  lemma PartFields(dir: seq<byte>, name: seq<nat>, ord: nat, sum: byte)
    requires IsPart(dir, name, ord, sum)
    ensures |dir| == SZDIRE && dir[CHKSUM] == sum && dir[ORD] == if ord == Parts(|name|) then ord + LLEF else ord
    ensures forall s: nat :: s < 13 ==> Unit(dir, s) == NameUnit(name, 13 * (ord - 1) + s)
  {
  }

  /** A long name written to a directory is read back, whatever was in the slots and in the
      buffer before. */
  method NameRoundTrip(lfn: array<nat>, slots: seq<seq<byte>>, sum: byte, lfnbuf: array<nat>, ghost name: seq<nat>)
    requires IsName(name) && HasName(lfn[..], name) && |slots| == Parts(|name|) && lfn != lfnbuf
    requires lfnbuf.Length == MAX_LFN + 1 && forall i :: 0 <= i < |slots| ==> |slots[i]| == SZDIRE
    modifies lfnbuf
    ensures HasName(lfnbuf[..], name)
  {
    var entries := StoreRun(lfn, slots, sum, name);
    RunSizes(entries, name, sum);
    var ord, sum' := ReadRun(lfnbuf, entries, 0xFF, 0xFF, name, sum);
  }

  lemma RunSizes(entries: seq<seq<byte>>, name: seq<nat>, sum: byte)
    requires IsRun(entries, name, sum)
    ensures forall i :: 0 <= i < |entries| ==> |entries[i]| == SZDIRE
  {
    forall i | 0 <= i < |entries|
      ensures |entries[i]| == SZDIRE
    {
      assert IsPart(entries[i], name, Parts(|name|) - i, sum);
    }
  }

  /** Names that are equal after up-casing. */
  ghost predicate SameUpper(a: seq<nat>, b: seq<nat>, up: nat -> nat) {
    |a| == |b| && forall k :: 0 <= k < |a| ==> up(a[k]) == up(b[k])
  }

  /** Places from `from` on where the buffer agrees with the entries of a name. */
  ghost predicate AgreesFrom(buf: seq<nat>, name: seq<nat>, up: nat -> nat, from: int)
    requires |buf| == MAX_LFN + 1 && |name| <= MAX_LFN
  {
    forall k: nat :: from <= k <= |name| ==> up(buf[k]) == up(NameUnit(name, k))
  }

  lemma AgreesAt(buf: seq<nat>, name: seq<nat>, up: nat -> nat, k: nat)
    requires |buf| == MAX_LFN + 1 && |name| <= MAX_LFN && AgreesFrom(buf, name, up, 0)
    ensures k <= |name| ==> up(buf[k]) == up(NameUnit(name, k))
  {
  }

  lemma UnitAt(buf: seq<nat>, name: seq<nat>, k: nat)
    requires HasName(buf, name)
    ensures k <= |name| ==> buf[k] == NameUnit(name, k)
  {
    if k <= |name| { UnitInBuffer(buf, name, k); }
  }

  /** Agreement up to the terminator of the name is equality with the name in the buffer: what
      the buffer holds after its own terminator does not matter. */
  lemma AgreementIsEquality(buf: seq<nat>, search: seq<nat>, name: seq<nat>, up: nat -> nat)
    requires IsName(name) && IsName(search) && HasName(buf, search)
    requires forall u: nat :: up(u) == 0 <==> u == 0
    ensures AgreesFrom(buf, name, up, 0) <==> SameUpper(name, search, up)
  {
    UnitInBuffer(buf, search, |search|);
    if AgreesFrom(buf, name, up, 0) {
      AgreesAt(buf, name, up, |name|);
      AgreesAt(buf, name, up, |search|);
      UnitAt(buf, search, |name|);
      forall k | 0 <= k < |name|
        ensures up(name[k]) == up(search[k])
      {
        UnitInBuffer(buf, search, k);
        assert up(buf[k]) == up(NameUnit(name, k));
      }
    }
    if SameUpper(name, search, up) {
      forall k: nat | k <= |name|
        ensures up(buf[k]) == up(NameUnit(name, k))
      {
        UnitInBuffer(buf, search, k);
      }
    }
  }

  /** The long-name lines of `dir_find` over a run of entries: it ends with number 0 exactly
      when the names are equal after up-casing. */
  method FindRun(lfnbuf: array<nat>, entries: seq<seq<byte>>, up: nat -> nat, ord0: byte, sum0: byte,
                 ghost search: seq<nat>, ghost name: seq<nat>, ghost sum': byte)
    returns (ord: byte, sum: byte)
    requires IsName(search) && HasName(lfnbuf[..], search) && forall i :: 0 <= i < |entries| ==> |entries[i]| == SZDIRE
    requires forall u: nat :: up(u) == 0 <==> u == 0
    ensures IsName(name) && IsRun(entries, name, sum') ==> sum == sum' && (ord == 0 <==> SameUpper(name, search, up))
  {
    hide IsPart, Unit, WordAt, TermFrom, Filled, SameUpper, HasName, AgreesFrom, IsName, IsRun;
    ghost var buf := lfnbuf[..];
    ord, sum := ord0, sum0;
    BufferLength(buf, search);
    for i := 0 to |entries|
      invariant IsName(name) && IsRun(entries, name, sum') && i > 0 ==>
                  && |name| <= MAX_LFN && sum == sum'
                  && ord == if AgreesFrom(buf, name, up, 13 * (|entries| - i)) then |entries| - i else 0xFF
    {
      var dir := entries[i];
      if IsName(name) && IsRun(entries, name, sum') {
        RunIsNotEmpty(entries, name, sum');
        PartOfRun(entries, name, sum', i);
        PartFacts(dir, name, |entries| - i, sum');
        PartFields(dir, name, |entries| - i, sum');
        PartAgrees(buf, dir, up, name, |entries| - i, sum');
        PartsInByte(|name|);
      }
      var c := dir[ORD];
      if IsLast(c) {
        sum := dir[CHKSUM];
        c := c - LLEF;
        ord := c;
      }
      var good := false;
      if c == ord && sum == dir[CHKSUM] { good := CmpLfn(lfnbuf, dir, up); }
      ord := if good then ord - 1 else 0xFF;
    }
    if IsName(name) && IsRun(entries, name, sum') {
      RunIsNotEmpty(entries, name, sum');
      PartsInByte(|name|);
      AgreementIsEquality(buf, search, name, up);
    }
  }

  lemma BufferLength(buf: seq<nat>, search: seq<nat>)
    requires HasName(buf, search)
    ensures |buf| == MAX_LFN + 1
  {
  }

  lemma PartAgrees(buf: seq<nat>, dir: seq<byte>, up: nat -> nat, name: seq<nat>, ord: nat, sum: byte)
    requires |buf| == MAX_LFN + 1 && IsName(name) && IsPart(dir, name, ord, sum)
    requires forall u: nat :: up(u) == 0 <==> u == 0
    ensures AgreesFrom(buf, name, up, 13 * (ord - 1)) <==>
            (ord == Parts(|name|) || AgreesFrom(buf, name, up, 13 * ord)) && Matches(buf, dir, up)
  {
    hide IsPart, Matches, Unit, WordAt, TermFrom, IsLast, Filled, Number, Number7;
    PartMatches(buf, dir, up, name, ord, sum);
    PartFacts(dir, name, ord, sum);
  }
}
