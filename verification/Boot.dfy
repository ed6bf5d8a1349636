/** The checksum and the copy routine of the boot loader (lib/xbox/2bboot.c), and the other
    implementation of the same checksum in lib/fatfs/ff.c. */
module Boot {
  import opened Gf2

  const POLY: bv32 := 0xEDB8_8320
  const ALL_ONES: bv32 := 0xFFFF_FFFF

  // ---------------------------------------------------------------- bits

  predicate Odd(c: bv32) {
    c & 1 != 0
  }

  /** The highest bit is clear. */
  predicate Small(c: bv32) {
    c & 0x8000_0000 == 0
  }

  function Half(c: bv32): bv32 {
    c >> 1
  }

  function Twice(c: bv32): bv32 {
    c << 1
  }

  function TwiceAndOne(c: bv32): bv32 {
    (c << 1) | 1
  }

  function Xor(a: bv32, b: bv32): bv32 {
    a ^ b
  }

  function LowBit(c: bv32): bv32 {
    if Odd(c) then 1 else 0
  }

  function Wide(d: bv8): bv32 {
    d as bv32
  }

  lemma HalfOfXor(x: bv32, y: bv32)
    ensures Half(Xor(x, y)) == Xor(Half(x), Half(y))
  {
  }

  lemma HalfOfTwice(e: bv32)
    requires Small(e)
    ensures Half(Twice(e)) == e && Half(TwiceAndOne(e)) == e
  {
  }

  lemma OddWithTwice(a: bv32, e: bv32)
    ensures Odd(Xor(a, Twice(e))) == Odd(a)
  {
  }

  lemma XorSwap(x: bv32, y: bv32, z: bv32)
    ensures Xor(Xor(x, y), z) == Xor(Xor(x, z), y)
  {
    hide Xor;
    XorAssociates(x, y, z);
    XorAssociates(x, z, y);
    XorCommutes(y, z);
  }

  lemma XorAssociates(x: bv32, y: bv32, z: bv32)
    ensures Xor(Xor(x, y), z) == Xor(x, Xor(y, z))
  {
  }

  lemma XorCommutes(x: bv32, y: bv32)
    ensures Xor(x, y) == Xor(y, x)
  {
  }

  lemma XorTwice(c: bv32, k: bv32)
    ensures Xor(Xor(c, k), k) == c
  {
  }

  lemma XorZero(c: bv32)
    ensures Xor(c, 0) == c
  {
  }

  lemma HalfIsSmall(c: bv32)
    ensures Small(Half(c))
  {
  }

  lemma PolyIsLarge(c: bv32)
    ensures Small(c) != Small(Xor(c, POLY))
  {
  }

  lemma TwiceIsEven(c: bv32)
    ensures !Odd(Twice(c))
  {
  }

  lemma TwiceAndOneIsOdd(c: bv32)
    ensures Odd(TwiceAndOne(c))
  {
  }

  lemma TwiceOfHalf(c: bv32)
    requires !Odd(c)
    ensures Twice(Half(c)) == c
  {
  }

  lemma TwiceAndOneOfHalf(c: bv32)
    requires Odd(c)
    ensures TwiceAndOne(Half(c)) == c
  {
  }

  lemma LowBitAndRest(w: bv32)
    ensures Xor(LowBit(w), Twice(Half(w))) == w
  {
  }

  // ---------------------------------------------------------------- the register

  /** One step of the register, as in section 8 of RFC 1952. */
  function Step(c: bv32): bv32 {
    if Odd(c) then Xor(Half(c), POLY) else Half(c)
  }

  /** The register before a step. */
  function Unstep(c: bv32): bv32 {
    if Small(c) then Twice(c) else TwiceAndOne(Xor(c, POLY))
  }

  /** No two values of the register lead to the same one, and every value is reached. */
  lemma StepIsBijective(c: bv32)
    ensures Unstep(Step(c)) == c && Step(Unstep(c)) == c
  {
    hide Odd, Small, Half, Twice, TwiceAndOne, Xor;
    HalfIsSmall(c);
    PolyIsLarge(Half(c));
    XorTwice(Half(c), POLY);
    if Odd(c) { TwiceAndOneOfHalf(c); } else { TwiceOfHalf(c); }
    if Small(c) {
      TwiceIsEven(c);
      HalfOfTwice(c);
    } else {
      PolyIsLarge(c);
      TwiceAndOneIsOdd(Xor(c, POLY));
      HalfOfTwice(Xor(c, POLY));
      XorTwice(c, POLY);
    }
  }

  function Steps(c: bv32, n: nat): bv32
    decreases n
  {
    if n == 0 then c else Steps(Step(c), n - 1)
  }

  lemma {:induction false} StepsAdd(c: bv32, m: nat, n: nat)
    ensures Steps(Steps(c, m), n) == Steps(c, m + n)
    decreases m
  {
    if m > 0 { StepsAdd(Step(c), m - 1, n); }
  }

  lemma {:induction false} StepsAreInjective(a: bv32, b: bv32, n: nat)
    requires Steps(a, n) == Steps(b, n)
    ensures a == b
    decreases n
  {
    hide Step, Unstep;
    if n > 0 {
      StepsAreInjective(Step(a), Step(b), n - 1);
      StepIsBijective(a);
      StepIsBijective(b);
    }
  }

  /** Bits that have not reached the low end yet only move down. */
  lemma StepMovesDown(a: bv32, e: bv32)
    requires Small(e)
    ensures Step(Xor(a, Twice(e))) == Xor(Step(a), e)
  {
    hide Odd, Small, Half, Twice, Xor;
    HalfOfXor(a, Twice(e));
    HalfOfTwice(e);
    OddWithTwice(a, e);
    XorSwap(Half(a), e, POLY);
  }

  // ---------------------------------------------------------------- two forms of a byte

  /** The boot loader adds the whole byte first. */
  function ByteStep(c: bv32, d: bv8): bv32 {
    Steps(Xor(c, Wide(d)), 8)
  }

  /** FatFs adds bit after bit, the lowest first. */
  function BitSteps(c: bv32, w: bv32, n: nat): bv32
    decreases n
  {
    if n == 0 then c else BitSteps(Step(Xor(c, LowBit(w))), Half(w), n - 1)
  }

  /** `w` has no more than `n` bits. */
  predicate Fits(w: bv32, n: nat)
    decreases n
  {
    if n == 0 then w == 0 else Fits(Half(w), n - 1)
  }

  lemma {:induction false} BitStepsAreSteps(c: bv32, w: bv32, n: nat)
    requires Fits(w, n)
    ensures BitSteps(c, w, n) == Steps(Xor(c, w), n)
    decreases n
  {
    hide Odd, Small, Half, Twice, Xor, LowBit, Step;
    if n == 0 {
      XorZero(c);
    } else {
      LowBitAndRest(w);
      XorAssociates(c, LowBit(w), Twice(Half(w)));
      HalfIsSmall(w);
      StepMovesDown(Xor(c, LowBit(w)), Half(w));
      BitStepsAreSteps(Step(Xor(c, LowBit(w))), Half(w), n - 1);
    }
  }

  lemma EightHalves(d: bv8)
    ensures Half(Half(Half(Half(Half(Half(Half(Half(Wide(d)))))))) ) == 0
  {
  }

  lemma ByteFits(d: bv8)
    ensures Fits(Wide(d), 8)
  {
    hide Half, Wide;
    EightHalves(d);
  }

  /** Both forms of a byte agree. */
  lemma FormsAgree(c: bv32, d: bv8)
    ensures BitSteps(c, Wide(d), 8) == ByteStep(c, d)
  {
    hide BitSteps, Steps, Fits, Xor, Wide;
    ByteFits(d);
    BitStepsAreSteps(c, Wide(d), 8);
  }

  // ---------------------------------------------------------------- messages

  /** The register after a message. */
  function Register(c: bv32, data: seq<bv8>): bv32
    decreases |data|
  {
    if data == [] then c else Register(ByteStep(c, data[0]), data[1..])
  }

  /** The same with the form of FatFs. */
  function RegisterByBits(c: bv32, data: seq<bv8>): bv32
    decreases |data|
  {
    if data == [] then c else RegisterByBits(BitSteps(c, Wide(data[0]), 8), data[1..])
  }

  function Crc(data: seq<bv8>): bv32 {
    Xor(Register(ALL_ONES, data), ALL_ONES)
  }

  lemma {:induction false} RegistersAgree(c: bv32, data: seq<bv8>)
    ensures RegisterByBits(c, data) == Register(c, data)
    decreases |data|
  {
    hide ByteStep, BitSteps;
    if data != [] {
      FormsAgree(c, data[0]);
      RegistersAgree(ByteStep(c, data[0]), data[1..]);
    }
  }

  lemma {:induction false} RegisterOfSum(c: bv32, a: seq<bv8>, b: seq<bv8>)
    ensures Register(c, a + b) == Register(Register(c, a), b)
    decreases |a|
  {
    hide ByteStep;
    if a == [] {
      assert a + b == b;
    } else {
      assert (a + b)[0] == a[0] && (a + b)[1..] == a[1..] + b;
      RegisterOfSum(ByteStep(c, a[0]), a[1..], b);
    }
  }

  /** The eight steps of a byte in the boot loader. */
  method EightSteps(crc0: bv32) returns (crc: bv32)
    ensures crc == Steps(crc0, 8)
  {
    hide Odd, Half, Xor;
    crc := crc0;
    for j := 0 to 8
      invariant Steps(crc, 8 - j) == Steps(crc0, 8)
    {
      if Odd(crc) { crc := Xor(Half(crc), POLY); } else { crc := Half(crc); }
    }
  }

  /** `boot_calculate_crc32`. */
  method BootCalculateCrc32(data: seq<bv8>) returns (crc: bv32)
    ensures crc == Crc(data) && IsCrc32(data, crc)
  {
    hide Xor, Steps, Wide, IsCrc32, GENERATOR;
    CrcIsRemainder(data);
    crc := ALL_ONES;
    for i := 0 to |data|
      invariant Register(crc, data[i..]) == Register(ALL_ONES, data)
    {
      assert data[i..][0] == data[i] && data[i..][1..] == data[i + 1..];
      crc := Xor(crc, Wide(data[i]));
      crc := EightSteps(crc);
    }
    crc := Xor(crc, ALL_ONES);
  }

  /** Bit `k` of a byte and the byte moved down by `k` places. */
  predicate LinedUp(d: bv8, b: bv8, w: bv32, k: nat) {
    match k
    case 0 => b == 1 && w == Wide(d)
    case 1 => b == 2 && w == Wide(d >> 1)
    case 2 => b == 4 && w == Wide(d >> 2)
    case 3 => b == 8 && w == Wide(d >> 3)
    case 4 => b == 16 && w == Wide(d >> 4)
    case 5 => b == 32 && w == Wide(d >> 5)
    case 6 => b == 64 && w == Wide(d >> 6)
    case 7 => b == 128 && w == Wide(d >> 7)
    case 8 => b == 0
    case _ => false
  }

  lemma NextBit(d: bv8, b: bv8, w: bv32, k: nat)
    requires k < 8 && LinedUp(d, b, w, k)
    ensures b != 0 && (d & b != 0 <==> Odd(w)) && LinedUp(d, b << 1, Half(w), k + 1)
    ensures b << 1 == 0 <==> k == 7
  {
  }

  /** `crc32` of FatFs, a byte at a time. */
  method Crc32(crc0: bv32, d: bv8) returns (crc: bv32)
    ensures crc == BitSteps(crc0, Wide(d), 8)
    ensures IsRemainder(Dividend(RegisterPoly(crc0), ByteBits(d)), GENERATOR, 32, RegisterPoly(crc))
  {
    hide Odd, Half, Xor, Wide, LinedUp, IsRemainder, Dividend, RegisterPoly, ByteBits, GENERATOR, Plus, Shift, Product;
    ByteIsRemainder(crc0, d);
    crc := crc0;
    var b: bv8 := 1;
    ghost var k, w := 0, Wide(d);
    FirstBit(d);
    while b != 0
      invariant 0 <= k <= 8 && LinedUp(d, b, w, k)
      invariant BitSteps(crc, w, 8 - k) == BitSteps(crc0, Wide(d), 8)
      invariant k == 8 <==> b == 0
      decreases 8 - k
    {
      NextBit(d, b, w, k);
      crc := Xor(crc, if d & b != 0 then 1 else 0);
      crc := if Odd(crc) then Xor(Half(crc), POLY) else Half(crc);
      b, w, k := b << 1, Half(w), k + 1;
    }
  }

  lemma FirstBit(d: bv8)
    ensures LinedUp(d, 1, Wide(d), 0)
  {
  }

  const GPTH_BCC := 16

  /** A header without its own checksum. */
  function Blanked(gpth: seq<bv8>): (r: seq<bv8>)
    ensures |r| == |gpth|
  {
    seq(|gpth|, i requires 0 <= i < |gpth| => if 16 <= i < 20 then 0 else gpth[i])
  }

  /** The checksum that `test_gpt_header` computes with `crc32`: that of the boot loader, with
      the field of the checksum itself taken as zero. */
  method HeaderChecksum(gpth: seq<bv8>) returns (bcc: bv32)
    ensures bcc == Crc(Blanked(gpth)) && IsCrc32(Blanked(gpth), bcc)
  {
    hide Xor, Wide, BitSteps, Register, IsCrc32, IsRemainder, Dividend, RegisterPoly, ByteBits, GENERATOR, Plus, Shift,
        Product;
    CrcIsRemainder(Blanked(gpth));
    bcc := ALL_ONES;
    ghost var data := Blanked(gpth);
    for i := 0 to |gpth|
      invariant RegisterByBits(bcc, data[i..]) == RegisterByBits(ALL_ONES, data)
    {
      assert data[i..][0] == data[i] && data[i..][1..] == data[i + 1..];
      bcc := Crc32(bcc, if GPTH_BCC <= i < GPTH_BCC + 4 then 0 else gpth[i]);
    }
    RegistersAgree(ALL_ONES, data);
    NotIsXor(bcc);
    bcc := !bcc;
  }

  lemma NotIsXor(c: bv32)
    ensures !c == Xor(c, ALL_ONES)
  {
  }

  // ---------------------------------------------------------------- division of polynomials

  /** The polynomial of the checksum, by its exponents. */
  const GENERATOR: Poly := {32, 26, 23, 22, 16, 12, 11, 10, 8, 7, 5, 4, 2, 1, 0}

  /** Bit `i` of a register, counted from the lowest. */
  predicate Bit(c: bv32, i: nat)
    decreases i
  {
    if i == 0 then Odd(c) else Bit(Half(c), i - 1)
  }

  /** The lowest bit of a register has the highest exponent. */
  predicate HasExponent(c: bv32, e: nat) {
    e < 32 && Bit(c, 31 - e)
  }

  /** The polynomial of a register. */
  function RegisterPoly(c: bv32): Poly {
    set e: nat | e < 32 && HasExponent(c, e)
  }

  /** The bits of a byte in the order in which they are sent, the lowest first. */
  function ByteBits(d: bv8): seq<bool> {
    [d & 1 != 0, d & 2 != 0, d & 4 != 0, d & 8 != 0, d & 16 != 0, d & 32 != 0, d & 64 != 0, d & 128 != 0]
  }

  function Bits(data: seq<bv8>): (r: seq<bool>)
    ensures |r| == 8 * |data|
  {
    if data == [] then [] else ByteBits(data[0]) + Bits(data[1..])
  }

  /** All exponents below `n`. */
  function Ones(n: nat): (r: Poly)
    ensures forall e: nat :: e in r <==> e < n
  {
    if n == 0 then {} else Ones(n - 1) + {n - 1}
  }

  /** What is divided: the message times x to the power 32, and what was there before, `p`, added
      to its first 32 bits. */
  function Dividend(p: Poly, bits: seq<bool>): Poly {
    Plus(Shift(Value(bits), 32), Shift(p, |bits|))
  }

  /** `crc` is the CRC-32 of the message: its inverse is the remainder of the message with its
      first 32 bits inverted. */
  ghost predicate IsCrc32(data: seq<bv8>, crc: bv32) {
    IsRemainder(Dividend(Ones(32), Bits(data)), GENERATOR, 32, RegisterPoly(Xor(crc, ALL_ONES)))
  }

  lemma {:induction false} BitOfXor(a: bv32, b: bv32, i: nat)
    ensures Bit(Xor(a, b), i) == (Bit(a, i) != Bit(b, i))
    decreases i
  {
    hide Odd, Half, Xor;
    if i == 0 {
      OddOfXor(a, b);
    } else {
      HalfOfXor(a, b);
      BitOfXor(Half(a), Half(b), i - 1);
    }
  }

  lemma OddOfXor(a: bv32, b: bv32)
    ensures Odd(Xor(a, b)) == (Odd(a) != Odd(b))
  {
  }

  function Down8(w: bv32): bv32 {
    w >> 8
  }

  lemma EightHalvesAre(c: bv32)
    ensures Half(Half(Half(Half(Half(Half(Half(Half(c)))))))) == Down8(c)
  {
  }

  lemma BitByByte(c: bv32, i: nat)
    requires i >= 8
    ensures Bit(c, i) == Bit(Down8(c), i - 8)
  {
    hide Odd, Half, Down8;
    EightHalvesAre(c);
    var c2 := Half(Half(c));
    var c4 := Half(Half(c2));
    var c6 := Half(Half(c4));
    assert Bit(c, i) == Bit(c2, i - 2);
    assert Bit(c2, i - 2) == Bit(c4, i - 4);
    assert Bit(c4, i - 4) == Bit(c6, i - 6);
    assert Bit(c6, i - 6) == Bit(Down8(c), i - 8);
  }

  /** The mask of bit `i`. */
  function Mask(i: nat): bv32 {
    match i
    case 0 => 1
    case 1 => 2
    case 2 => 4
    case 3 => 8
    case 4 => 16
    case 5 => 32
    case 6 => 64
    case _ => 128
  }

  lemma LowMasks(c: bv32)
    ensures Odd(c) == (c & Mask(0) != 0)
    ensures c & 2 != 0 <==> Half(c) & 1 != 0
    ensures c & 4 != 0 <==> Half(c) & 2 != 0
    ensures c & 8 != 0 <==> Half(c) & 4 != 0
    ensures c & 16 != 0 <==> Half(c) & 8 != 0
    ensures c & 32 != 0 <==> Half(c) & 16 != 0
    ensures c & 64 != 0 <==> Half(c) & 32 != 0
    ensures c & 128 != 0 <==> Half(c) & 64 != 0
  {
  }

  predicate Masked(c: bv32, i: nat) {
    c & Mask(i) != 0
  }

  lemma MaskOfHalf(c: bv32, i: nat)
    requires 0 < i < 8
    ensures Masked(c, i) == Masked(Half(c), i - 1)
  {
    LowMasks(c);
  }

  lemma MaskOfLow(c: bv32)
    ensures Masked(c, 0) == Odd(c)
  {
  }

  lemma {:induction false} BitInByte(c: bv32, i: nat)
    requires i < 8
    ensures Bit(c, i) == Masked(c, i)
    decreases i
  {
    hide Odd, Half, Masked;
    if i == 0 {
      MaskOfLow(c);
    } else {
      MaskOfHalf(c, i);
      BitInByte(Half(c), i - 1);
    }
  }

  /** Byte `k` of `c`, lowest. */
  function DownBy(c: bv32, k: nat): bv32 {
    if k == 0 then c else if k == 1 then Down8(c) else if k == 2 then Down8(Down8(c)) else Down8(Down8(Down8(c)))
  }

  /** A bit, by its byte and its place in it. */
  lemma BitOfByte(c: bv32, k: nat, i: nat)
    requires k < 4 && i < 8
    ensures Bit(c, 8 * k + i) == Masked(DownBy(c, k), i)
  {
    hide Bit, Masked, Down8;
    BitInByte(DownBy(c, k), i);
    if k >= 1 { BitByByte(c, 8 * k + i); }
    if k >= 2 { BitByByte(Down8(c), 8 * k + i - 8); }
    if k >= 3 { BitByByte(Down8(Down8(c)), 8 * k + i - 16); }
  }

  /** The constant of the code is the generator without its highest power. */
  lemma PolyIsGenerator(e: nat)
    requires e < 32
    ensures Bit(POLY, 31 - e) <==> e in GENERATOR
  {
    hide Bit, Masked, GENERATOR, DownBy;
    var i: nat := 31 - e;
    BitOfByte(POLY, i / 8, i % 8);
    PolyMasks(i / 8, i % 8);
    assert 8 * (i / 8) + i % 8 == i;
  }

  lemma PolyMasks(k: nat, i: nat)
    requires k < 4 && i < 8
    ensures Masked(DownBy(POLY, k), i) <==> 31 - (8 * k + i) in GENERATOR
  {
    PolyBytes();
    hide Down8;
  }

  lemma PolyBytes()
    ensures Down8(POLY) == 0x00ED_B883 && Down8(0x00ED_B883) == 0x0000_EDB8 && Down8(0x0000_EDB8) == 0xED
  {
  }

  lemma NoBitAbove(c: bv32)
    ensures !Bit(Half(c), 31)
  {
    hide Odd, Half, Bit, DownBy, Masked;
    BitOfByte(Half(c), 3, 7);
    TopIsClear(c);
  }

  lemma TopIsClear(c: bv32)
    ensures !Masked(DownBy(Half(c), 3), 7)
  {
  }

  function OneBit(b: bool): bv32 {
    if b then 1 else 0
  }

  lemma WithBit(c: bv32, b: bool)
    ensures Odd(Xor(c, OneBit(b))) == (Odd(c) != b) && Half(Xor(c, OneBit(b))) == Half(c)
  {
  }

  lemma StepExponent(c: bv32, b: bool, e: nat)
    ensures HasExponent(Step(Xor(c, OneBit(b))), e)
            == (((e > 0 && HasExponent(c, e - 1)) != (b && e == 32)) != (Odd(c) != b && e in GENERATOR))
  {
    hide Odd, Half, Xor, OneBit;
    WithBit(c, b);
    if e < 32 {
      BitOfXor(Half(c), POLY, 31 - e);
      PolyIsGenerator(e);
      NoBitAbove(c);
      assert e > 0 ==> Bit(c, 31 - (e - 1)) == Bit(Half(c), 31 - e);
    } else {
      assert Bit(c, 0) == Odd(c);
    }
  }

  /** A step of the register is one step of the division. */
  lemma StepDivides(c: bv32, b: bool)
    ensures RegisterPoly(Step(Xor(c, OneBit(b))))
            == Plus(Plus(Shift(RegisterPoly(c), 1), if b then {32} else {}), if Odd(c) != b then GENERATOR else {})
  {
    hide Odd, Xor, OneBit, Step, HasExponent, Plus, Shift, GENERATOR;
    var c' := Step(Xor(c, OneBit(b)));
    var r := Plus(Plus(Shift(RegisterPoly(c), 1), if b then {32} else {}), if Odd(c) != b then GENERATOR else {});
    forall e: nat
      ensures e in RegisterPoly(c') <==> e in r
    {
      StepExponent(c, b, e);
      ExponentBound(c', e);
      if e > 0 { ExponentBound(c, e - 1); }
    }
  }

  lemma ExponentBound(c: bv32, e: nat)
    ensures HasExponent(c, e) <==> e in RegisterPoly(c)
  {
  }

  lemma AllBits(e: nat)
    ensures HasExponent(ALL_ONES, e) <==> e < 32
  {
    hide Bit, Masked, DownBy;
    if e < 32 {
      var i: nat := 31 - e;
      BitOfByte(ALL_ONES, i / 8, i % 8);
      OnesMask(i / 8, i % 8);
      assert 8 * (i / 8) + i % 8 == i;
    }
  }

  lemma OnesMask(k: nat, i: nat)
    requires k < 4 && i < 8
    ensures Masked(DownBy(ALL_ONES, k), i)
  {
    OnesBytes();
    hide Down8;
  }

  lemma OnesBytes()
    ensures Down8(ALL_ONES) == 0x00FF_FFFF && Down8(0x00FF_FFFF) == 0x0000_FFFF && Down8(0x0000_FFFF) == 0xFF
  {
  }

  /** The register after some bits. */
  function BitRegister(c: bv32, bits: seq<bool>): bv32 {
    if bits == [] then c else
      var last := |bits| - 1;
      Step(Xor(BitRegister(c, bits[..last]), OneBit(bits[last])))
  }

  lemma {:induction false} BitRegisterOfSum(c: bv32, a: seq<bool>, b: seq<bool>)
    ensures BitRegister(c, a + b) == BitRegister(BitRegister(c, a), b)
    decreases |b|
  {
    hide Step, Xor, OneBit;
    if b == [] {
      assert a + b == a;
    } else {
      var last := |b| - 1;
      BitRegisterOfSum(c, a, b[..last]);
      assert (a + b)[..|a| + last] == a + b[..last];
    }
  }

  lemma OnesIsAllOnes()
    ensures RegisterPoly(ALL_ONES) == Ones(32)
  {
    hide HasExponent;
    forall e: nat
      ensures e in RegisterPoly(ALL_ONES) <==> e < 32
    {
      AllBits(e);
      ExponentBound(ALL_ONES, e);
    }
  }

  lemma DividendOfNone(p: Poly)
    ensures Dividend(p, []) == p && Plus({}, p) == p
  {
  }

  lemma DividendNext(p: Poly, bits: seq<bool>, b: bool)
    ensures Dividend(p, bits + [b]) == Plus(Shift(Dividend(p, bits), 1), if b then {32} else {})
  {
    hide Plus, Shift, Product;
    ProductNext(bits, b, {0});
    var n, v, d := |bits|, Value(bits), Plus(Shift(Dividend(p, bits), 1), if b then {32} else {});
    forall e: nat
      ensures e in Dividend(p, bits + [b]) <==> e in d
    {
      assert e in Shift(Value(bits + [b]), 32) <==> (e >= 33 && e - 33 in v) != (b && e == 32);
      if e > 0 { assert e - 1 in Dividend(p, bits) <==> (e >= 33 && e - 33 in v) != (e > n && e - 1 - n in p); }
    }
  }

  lemma NextRemainder(d: Poly, p: Poly, r: Poly, b: Poly, g: Poly)
    requires d == Plus(p, r)
    ensures Plus(Shift(d, 1), b) == Plus(Plus(Shift(p, 1), g), Plus(Plus(Shift(r, 1), b), g))
  {
    hide Plus, Shift;
  }

  /** The register holds the remainder of what has been added. */
  lemma {:induction false} RegisterIsRemainder(c0: bv32, bits: seq<bool>) returns (q: seq<bool>)
    ensures Dividend(RegisterPoly(c0), bits) == Plus(Product(q, GENERATOR), RegisterPoly(BitRegister(c0, bits)))
    decreases |bits|
  {
    hide Odd, Xor, OneBit, Step, RegisterPoly, GENERATOR, Plus, Dividend;
    var p := RegisterPoly(c0);
    if bits == [] {
      q := [];
      DividendOfNone(p);
    } else {
      var last := |bits| - 1;
      var b, c := bits[last], BitRegister(c0, bits[..last]);
      var q0 := RegisterIsRemainder(c0, bits[..last]);
      var carry := Odd(c) != b;
      q := q0 + [carry];
      assert bits == bits[..last] + [b];
      DividendNext(p, bits[..last], b);
      StepDivides(c, b);
      ProductNext(q0, carry, GENERATOR);
      NextRemainder(Dividend(p, bits[..last]), Product(q0, GENERATOR), RegisterPoly(c), if b then {32} else {},
                    if carry then GENERATOR else {});
    }
  }

  // ---------------------------------------------------------------- bytes and bits

  function WordBits(w: bv32, n: nat): seq<bool>
    decreases n
  {
    if n == 0 then [] else [Odd(w)] + WordBits(Half(w), n - 1)
  }

  lemma OneBitIsLow(w: bv32)
    ensures OneBit(Odd(w)) == LowBit(w)
  {
  }

  lemma {:induction false} BitStepsAdd(c: bv32, w: bv32, n: nat)
    ensures BitRegister(c, WordBits(w, n)) == BitSteps(c, w, n)
    decreases n
  {
    hide Odd, Half, Xor, OneBit, LowBit, Step;
    if n > 0 {
      OneBitIsLow(w);
      BitRegisterOfSum(c, [Odd(w)], WordBits(Half(w), n - 1));
      assert [Odd(w)][..0] == [];
      BitStepsAdd(Step(Xor(c, LowBit(w))), Half(w), n - 1);
    }
  }

  lemma {:induction false} WordBitsAt(w: bv32, n: nat)
    ensures |WordBits(w, n)| == n && forall k :: 0 <= k < n ==> WordBits(w, n)[k] == Bit(w, k)
    decreases n
  {
    hide Odd, Half;
    if n > 0 { WordBitsAt(Half(w), n - 1); }
  }

  lemma ByteBitAt(d: bv8, k: nat)
    requires k < 8
    ensures ByteBits(d)[k] == Masked(Wide(d), k)
  {
  }

  lemma WordBitsOfByte(d: bv8)
    ensures WordBits(Wide(d), 8) == ByteBits(d)
  {
    hide Odd, Half, Wide, WordBits, Bit, Masked, ByteBits;
    WordBitsAt(Wide(d), 8);
    EightBits(d);
    forall k: nat | k < 8
      ensures WordBits(Wide(d), 8)[k] == ByteBits(d)[k]
    {
      BitInByte(Wide(d), k);
      ByteBitAt(d, k);
    }
  }

  lemma EightBits(d: bv8)
    ensures |ByteBits(d)| == 8
  {
  }

  lemma {:induction false} BytesAreBits(c: bv32, data: seq<bv8>)
    ensures BitRegister(c, Bits(data)) == RegisterByBits(c, data)
    decreases |data|
  {
    hide BitSteps, BitRegister, ByteBits, WordBits, Wide;
    if data == [] {
      NoBits(c);
    } else {
      BitRegisterOfSum(c, ByteBits(data[0]), Bits(data[1..]));
      WordBitsOfByte(data[0]);
      BitStepsAdd(c, Wide(data[0]), 8);
      BytesAreBits(BitSteps(c, Wide(data[0]), 8), data[1..]);
    }
  }

  lemma NoBits(c: bv32)
    ensures BitRegister(c, []) == c
  {
  }

  /** A byte added to a register: the remainder of both. */
  lemma ByteIsRemainder(c: bv32, d: bv8)
    ensures IsRemainder(Dividend(RegisterPoly(c), ByteBits(d)), GENERATOR, 32, RegisterPoly(BitSteps(c, Wide(d), 8)))
  {
    hide BitSteps, BitRegister, Dividend, GENERATOR, Product, Plus, HasExponent, Wide, ByteBits, WordBits;
    var q := RegisterIsRemainder(c, ByteBits(d));
    WordBitsOfByte(d);
    BitStepsAdd(c, Wide(d), 8);
  }

  /** The checksum of a message is the remainder of its division by the generator, inverted. */
  lemma CrcIsRemainder(data: seq<bv8>)
    ensures IsCrc32(data, Crc(data))
  {
    hide Xor, Register, RegisterByBits, BitRegister, Dividend, GENERATOR, Product, Plus, HasExponent;
    OnesIsAllOnes();
    var q := RegisterIsRemainder(ALL_ONES, Bits(data));
    BytesAreBits(ALL_ONES, data);
    RegistersAgree(ALL_ONES, data);
    XorTwice(Register(ALL_ONES, data), ALL_ONES);
  }

  /** Only one value is the CRC-32 of a message. */
  lemma CrcIsUnique(data: seq<bv8>, crc: bv32)
    requires IsCrc32(data, crc)
    ensures crc == Crc(data)
  {
    hide Xor, Dividend, Crc, RegisterPoly;
    CrcIsRemainder(data);
    GeneratorDegree();
    RemainderIsUnique(Dividend(Ones(32), Bits(data)), GENERATOR, 32, RegisterPoly(Xor(crc, ALL_ONES)),
                      RegisterPoly(Xor(Crc(data), ALL_ONES)));
    SamePoly(Xor(crc, ALL_ONES), Xor(Crc(data), ALL_ONES));
    XorTwice(crc, ALL_ONES);
    XorTwice(Crc(data), ALL_ONES);
  }

  lemma GeneratorDegree()
    ensures HasDegree(GENERATOR, 32)
  {
  }

  /** Registers with the same bits are the same: their difference has none. */
  lemma SameBits(a: bv32, b: bv32)
    requires forall i: nat :: i < 32 ==> Bit(a, i) == Bit(b, i)
    ensures a == b
  {
    hide Xor, Bit;
    forall i: nat | i < 32
      ensures !Bit(Xor(a, b), i)
    {
      BitOfXor(a, b, i);
    }
    NoBitIsZero(Xor(a, b));
    XorIsZero(a, b);
  }

  lemma XorIsZero(a: bv32, b: bv32)
    requires Xor(a, b) == 0
    ensures a == b
  {
  }

  lemma NoBitInByte(c: bv32)
    requires forall i: nat :: i < 8 ==> !Bit(c, i)
    ensures c & 0xFF == 0
  {
    hide Bit;
    BitInByte(c, 0);
    BitInByte(c, 1);
    BitInByte(c, 2);
    BitInByte(c, 3);
    BitInByte(c, 4);
    BitInByte(c, 5);
    BitInByte(c, 6);
    BitInByte(c, 7);
    assert c & 0xFF == 0;
  }

  lemma NoBitIsZero(c: bv32)
    requires forall i: nat :: i < 32 ==> !Bit(c, i)
    ensures c == 0
  {
    hide Bit, Down8;
    var c1 := Down8(c);
    var c2 := Down8(c1);
    var c3 := Down8(c2);
    forall i: nat | i < 8
      ensures !Bit(c1, i) && !Bit(c2, i) && !Bit(c3, i)
    {
      BitByByte(c, i + 8);
      BitByByte(c, i + 16);
      BitByByte(c1, i + 8);
      BitByByte(c, i + 24);
      BitByByte(c1, i + 16);
      BitByByte(c2, i + 8);
    }
    NoBitInByte(c);
    NoBitInByte(c1);
    NoBitInByte(c2);
    NoBitInByte(c3);
    FourZeroBytes(c);
  }

  lemma FourZeroBytes(c: bv32)
    requires c & 0xFF == 0 && Down8(c) & 0xFF == 0 && Down8(Down8(c)) & 0xFF == 0 && Down8(Down8(Down8(c))) & 0xFF == 0
    ensures c == 0
  {
  }

  /** Registers with the same polynomial are the same. */
  lemma SamePoly(a: bv32, b: bv32)
    requires RegisterPoly(a) == RegisterPoly(b)
    ensures a == b
  {
    hide Bit, Odd, Half;
    forall i: nat | i < 32
      ensures Bit(a, i) == Bit(b, i)
    {
      ExponentBound(a, 31 - i);
      ExponentBound(b, 31 - i);
    }
    SameBits(a, b);
  }

  // ---------------------------------------------------------------- errors that are found

  function Up8(w: bv32): bv32 {
    w << 8
  }

  /** Up to four bytes as one word, the first one lowest. */
  function Word(u: seq<bv8>): bv32 {
    if u == [] then 0 else Xor(Wide(u[0]), Up8(Word(u[1..])))
  }

  /** `w` has no more than `m` bytes. */
  predicate Under(w: bv32, m: nat) {
    match m
    case 0 => w == 0
    case 1 => w & 0xFFFF_FF00 == 0
    case 2 => w & 0xFFFF_0000 == 0
    case 3 => w & 0xFF00_0000 == 0
    case _ => true
  }

  lemma UnderByte(d: bv8, w: bv32, m: nat)
    requires Under(w, m)
    ensures Under(Xor(Wide(d), Up8(w)), m + 1)
  {
  }

  lemma FewerBytes(w: bv32)
    ensures (w & 0xFFFF_FF00 == 0 ==> w & 0xFF00_0000 == 0) && (w & 0xFFFF_0000 == 0 ==> w & 0xFF00_0000 == 0)
  {
  }

  lemma UnderThree(w: bv32, m: nat)
    requires Under(w, m) && m <= 3
    ensures Under(w, 3)
  {
    FewerBytes(w);
  }

  lemma {:induction false} WordIsUnder(u: seq<bv8>)
    ensures Under(Word(u), |u|)
    decreases |u|
  {
    hide Under, Xor, Wide, Up8;
    if u == [] {
      ZeroIsUnder();
    } else {
      WordIsUnder(u[1..]);
      UnderByte(u[0], Word(u[1..]), |u| - 1);
    }
  }

  lemma ZeroIsUnder()
    ensures Under(0, 0)
  {
  }

  lemma BytesDiffer(a: bv8, b: bv8, v: bv32, w: bv32)
    requires Under(v, 3) && Under(w, 3) && Xor(Wide(a), Up8(v)) == Xor(Wide(b), Up8(w))
    ensures a == b && v == w
  {
    hide Xor, Wide, Up8, Under;
    LowByte(a, v);
    LowByte(b, w);
    HighBytes(a, v);
    HighBytes(b, w);
  }

  function Lowest(w: bv32): bv8 {
    (w & 0xFF) as bv8
  }

  lemma LowByte(a: bv8, v: bv32)
    ensures Lowest(Xor(Wide(a), Up8(v))) == a
  {
  }

  lemma HighBytes(a: bv8, v: bv32)
    requires Under(v, 3)
    ensures Down8(Xor(Wide(a), Up8(v))) == v
  {
    UpAndDown(a as bv32, v);
  }

  lemma UpAndDown(a: bv32, v: bv32)
    requires a & 0xFFFF_FF00 == 0 && v & 0xFF00_0000 == 0
    ensures (a ^ (v << 8)) >> 8 == v
  {
  }

  lemma {:induction false} WordIsInjective(u: seq<bv8>, v: seq<bv8>)
    requires |u| == |v| <= 4 && Word(u) == Word(v)
    ensures u == v
    decreases |u|
  {
    hide Under, Xor, Wide, Up8;
    if u != [] {
      WordIsUnder(u[1..]);
      WordIsUnder(v[1..]);
      UnderThree(Word(u[1..]), |u| - 1);
      UnderThree(Word(v[1..]), |v| - 1);
      BytesDiffer(u[0], v[0], Word(u[1..]), Word(v[1..]));
      WordIsInjective(u[1..], v[1..]);
      assert u == [u[0]] + u[1..] && v == [v[0]] + v[1..];
    }
  }

  function TwiceN(e: bv32, n: nat): bv32
    decreases n
  {
    if n == 0 then e else Twice(TwiceN(e, n - 1))
  }

  /** The `n` highest bits are clear. */
  predicate Clear(e: bv32, n: nat) {
    match n
    case 0 => true
    case 1 => e & 0x8000_0000 == 0
    case 2 => e & 0xC000_0000 == 0
    case 3 => e & 0xE000_0000 == 0
    case 4 => e & 0xF000_0000 == 0
    case 5 => e & 0xF800_0000 == 0
    case 6 => e & 0xFC00_0000 == 0
    case 7 => e & 0xFE00_0000 == 0
    case 8 => e & 0xFF00_0000 == 0
    case _ => false
  }

  lemma ClearTwice(e: bv32, n: nat)
    requires n > 0 && Clear(e, n)
    ensures Small(e) && Clear(Twice(e), n - 1)
  {
  }

  lemma {:induction false} ClearSoFar(e: bv32, n: nat, k: nat)
    requires Clear(e, n) && k < n
    ensures Clear(TwiceN(e, k), n - k) && Small(TwiceN(e, k))
    decreases k
  {
    hide Clear, Twice, Small;
    if k > 0 {
      ClearSoFar(e, n, k - 1);
      ClearTwice(TwiceN(e, k - 1), n - k + 1);
    }
    ClearTwice(TwiceN(e, k), n - k);
  }

  lemma {:induction false} StepsMoveDown(a: bv32, e: bv32, n: nat)
    requires forall k :: 0 <= k < n ==> Small(TwiceN(e, k))
    ensures Steps(Xor(a, TwiceN(e, n)), n) == Xor(Steps(a, n), e)
    decreases n
  {
    hide Step, Xor, Twice, Small;
    if n > 0 {
      StepMovesDown(a, TwiceN(e, n - 1));
      StepsMoveDown(Step(a), e, n - 1);
    }
  }

  lemma EightTimesTwice(e: bv32)
    ensures Twice(Twice(Twice(Twice(Twice(Twice(Twice(Twice(e)))))))) == Up8(e)
  {
  }

  lemma EightTimes(e: bv32)
    ensures TwiceN(e, 8) == Up8(e)
  {
    hide Twice, Up8;
    EightTimesTwice(e);
  }

  lemma UnderIsClear(e: bv32)
    requires Under(e, 3)
    ensures Clear(e, 8)
  {
  }

  /** A byte and the ones after it can be added at once. */
  lemma ByteStepWithRest(c: bv32, d: bv8, w: bv32)
    requires Under(w, 3)
    ensures Steps(Xor(c, Xor(Wide(d), Up8(w))), 8) == Xor(ByteStep(c, d), w)
  {
    hide Under, Xor, Wide, Up8, Twice, Small, Steps, Clear, TwiceN;
    UnderIsClear(w);
    EightTimes(w);
    XorAssociates(c, Wide(d), Up8(w));
    forall k | 0 <= k < 8
      ensures Small(TwiceN(w, k))
    {
      ClearSoFar(w, 8, k);
    }
    StepsMoveDown(Xor(c, Wide(d)), w, 8);
  }

  /** Up to four bytes are the same as one word. */
  lemma {:induction false} RegisterOfWord(c: bv32, u: seq<bv8>)
    requires |u| <= 4
    ensures Register(c, u) == Steps(Xor(c, Word(u)), 8 * |u|)
    decreases |u|
  {
    hide Under, Xor, Wide, Up8, ByteStep;
    if u == [] {
      XorZero(c);
    } else {
      hide Steps;
      var rest := Word(u[1..]);
      WordIsUnder(u[1..]);
      UnderThree(rest, |u| - 1);
      RegisterOfWord(ByteStep(c, u[0]), u[1..]);
      ByteStepWithRest(c, u[0], rest);
      StepsAdd(Xor(c, Word(u)), 8, 8 * (|u| - 1));
    }
  }

  /** A word as bytes, the lowest first. */
  function BytesOf(w: bv32): seq<bv8> {
    [Lowest(w), Lowest(Down8(w)), Lowest(Down8(Down8(w))), Lowest(Down8(Down8(Down8(w))))]
  }

  lemma FromLowest(w: bv32)
    ensures Xor(Wide(Lowest(w)), Up8(Down8(w))) == w
  {
  }

  lemma WordOfBytes(w: bv32)
    ensures Word(BytesOf(w)) == w
  {
    hide Xor, Wide, Up8, Down8, Lowest;
    var w1 := Down8(w);
    var w2 := Down8(w1);
    var w3 := Down8(w2);
    FromLowest(w);
    FromLowest(w1);
    FromLowest(w2);
    FromLowest(w3);
    NothingAbove(w);
    var u := BytesOf(w);
    assert u[1..][1..] == u[2..] && u[2..][1..] == u[3..] && u[3..][1..] == [];
    assert Word(u[3..]) == w3;
    assert Word(u[2..]) == w2;
    assert Word(u[1..]) == w1;
  }

  lemma NothingAbove(w: bv32)
    ensures Down8(Down8(Down8(Down8(w)))) == 0 && Up8(0) == 0
  {
  }

  lemma SixteenSteps(c: bv32)
    ensures Steps(c, 8) == Step(Step(Step(Step(Step(Step(Step(Step(c))))))))
    ensures Steps(c, 16) == Steps(Steps(c, 8), 8)
  {
    hide Step;
    StepsAdd(c, 8, 8);
    var c4 := Step(Step(Step(Step(c))));
    assert Steps(c4, 4) == Step(Step(Step(Step(c4))));
    StepsAdd(c, 4, 4);
    assert Steps(c, 4) == c4;
  }

  lemma StepsOfOnes()
    ensures Step(Step(Step(Step(Step(Step(Step(Step(ALL_ONES)))))))) == 0x2DFD_1072
    ensures Step(Step(Step(Step(Step(Step(Step(Step(0x2DFD_1072)))))))) == 0xBE26_ED00
    ensures Step(Step(Step(Step(Step(Step(Step(Step(0xBE26_ED00)))))))) == 0x00BE_26ED
    ensures Step(Step(Step(Step(Step(Step(Step(Step(0x00BE_26ED)))))))) == 0xDEBB_20E3
  {
  }

  /** The checksum of a message that ends with its own checksum is always the same. */
  lemma CheckedMessage(data: seq<bv8>)
    ensures Crc(data + BytesOf(Crc(data))) == 0x2144_DF1C
  {
    hide Xor, Register, Steps, Step, BytesOf, Word;
    var c, u := Register(ALL_ONES, data), BytesOf(Crc(data));
    RegisterOfSum(ALL_ONES, data, u);
    FourBytes(Crc(data));
    RegisterOfWord(c, u);
    WordOfBytes(Crc(data));
    XorCommutes(c, Xor(c, ALL_ONES));
    XorCommutes(c, ALL_ONES);
    XorTwice(ALL_ONES, c);
    SixteenSteps(ALL_ONES);
    StepsOfOnes();
    SixteenSteps(0x2DFD_1072);
    SixteenSteps(0xBE26_ED00);
    SixteenSteps(0x00BE_26ED);
    StepsAdd(ALL_ONES, 16, 16);
    Residue();
  }

  lemma FourBytes(w: bv32)
    ensures |BytesOf(w)| == 4
  {
  }

  lemma Residue()
    ensures Xor(0xDEBB_20E3, ALL_ONES) == 0x2144_DF1C
  {
  }

  /** Different registers stay different while the same bytes follow. */
  lemma {:induction false} RegistersStayApart(a: bv32, b: bv32, data: seq<bv8>)
    requires Register(a, data) == Register(b, data)
    ensures a == b
    decreases |data|
  {
    if data != [] {
      RegistersStayApart(ByteStep(a, data[0]), ByteStep(b, data[0]), data[1..]);
      ApartByByte(a, b, data[0]);
    }
  }

  lemma ApartByByte(a: bv32, b: bv32, d: bv8)
    requires ByteStep(a, d) == ByteStep(b, d)
    ensures a == b
  {
    hide Xor, Wide, Steps;
    StepsAreInjective(Xor(a, Wide(d)), Xor(b, Wide(d)), 8);
    XorTwice(a, Wide(d));
    XorTwice(b, Wide(d));
  }

  /** Images that differ at most inside four consecutive bytes and have the same checksum are
      the same. */
  lemma SameChecksum(x: seq<bv8>, y: seq<bv8>, i: nat)
    requires |x| == |y| && i <= |x| && Crc(x) == Crc(y)
    requires forall k :: 0 <= k < |x| && !(i <= k < i + 4) ==> x[k] == y[k]
    ensures x == y
  {
    hide Register, Xor, Word;
    var j := if i + 4 <= |x| then i + 4 else |x|;
    var u, v := x[i..j], y[i..j];
    var c := Register(ALL_ONES, x[..i]);
    Parts(x, i, j);
    Parts(y, i, j);
    assert x[..i] == y[..i] && x[j..] == y[j..];
    XorTwice(Register(ALL_ONES, x), ALL_ONES);
    XorTwice(Register(ALL_ONES, y), ALL_ONES);
    RegistersStayApart(Register(c, u), Register(c, v), x[j..]);
    RegisterOfWord(c, u);
    RegisterOfWord(c, v);
    StepsAreInjective(Xor(c, Word(u)), Xor(c, Word(v)), 8 * |u|);
    XorFrom(c, Word(u), Word(v));
    WordIsInjective(u, v);
    SameParts(x, y, i, j);
  }

  lemma SameParts(x: seq<bv8>, y: seq<bv8>, i: nat, j: nat)
    requires |x| == |y| && i <= j <= |x| && x[..i] == y[..i] && x[i..j] == y[i..j] && x[j..] == y[j..]
    ensures x == y
  {
    assert x == x[..i] + x[i..j] + x[j..];
    assert y == y[..i] + y[i..j] + y[j..];
  }

  /** Images that differ, but only inside four consecutive bytes, never have the same checksum. */
  lemma ShortErrorsAreFound(x: seq<bv8>, y: seq<bv8>, i: nat)
    requires |x| == |y| && x != y && i <= |x|
    requires forall k :: 0 <= k < |x| && !(i <= k < i + 4) ==> x[k] == y[k]
    ensures Crc(x) != Crc(y)
  {
    if Crc(x) == Crc(y) { SameChecksum(x, y, i); }
  }

  lemma XorFrom(c: bv32, a: bv32, b: bv32)
    requires Xor(c, a) == Xor(c, b)
    ensures a == b
  {
  }

  lemma SplitAt(x: seq<bv8>, i: nat)
    requires i <= |x|
    ensures x[..i] + x[i..] == x
  {
  }

  lemma Parts(x: seq<bv8>, i: nat, j: nat)
    requires i <= j <= |x|
    ensures Register(ALL_ONES, x) == Register(Register(Register(ALL_ONES, x[..i]), x[i..j]), x[j..])
  {
    hide Register, ByteStep;
    SplitAt(x, i);
    RegisterOfSum(ALL_ONES, x[..i], x[i..]);
    SplitAt(x[i..], j - i);
    assert x[i..][..j - i] == x[i..j] && x[i..][j - i..] == x[j..];
    RegisterOfSum(Register(ALL_ONES, x[..i]), x[i..j], x[j..]);
  }

  // ---------------------------------------------------------------- copying

  /** `boot_memmove` inside one memory: the copy is right however source and destination
      overlap. */
  method BootMemmove(mem: array<bv8>, dest: nat, src: nat, len: nat)
    requires dest + len <= mem.Length && src + len <= mem.Length
    modifies mem
    ensures forall i :: 0 <= i < mem.Length ==>
              mem[i] == if dest <= i < dest + len then old(mem[i - dest + src]) else old(mem[i])
  {
    if dest < src {
      var k := 0;
      while k < len
        invariant 0 <= k <= len
        invariant forall i :: 0 <= i < mem.Length ==>
                    mem[i] == if dest <= i < dest + k then old(mem[i - dest + src]) else old(mem[i])
      {
        mem[dest + k] := mem[src + k];
        k := k + 1;
      }
    } else {
      var k := len;
      while k > 0
        invariant 0 <= k <= len
        invariant forall i :: 0 <= i < mem.Length ==>
                    mem[i] == if dest + k <= i < dest + len then old(mem[i - dest + src]) else old(mem[i])
      {
        mem[dest + k - 1] := mem[src + k - 1];
        k := k - 1;
      }
    }
  }
}
