/** The digest of RFC 1321 over numbers, written from the standard, and that the words of the
    firmware compute it. */
module Rfc1321 {
  import opened Integers
  import opened Words
  import opened Md5
  import Sine

  // ---------- the functions of section 3.4, place by place ----------

  /** F: if x then y else z. G: if z then x else y. H: an odd number of them. I: y differs from
      "x or not z". */
  predicate IfFirst(x: bool, y: bool, z: bool) { if x then y else z }
  predicate IfLast(x: bool, y: bool, z: bool) { if z then x else y }
  predicate OddlyMany(x: bool, y: bool, z: bool) { (x != y) != z }
  predicate SecondDiffers(x: bool, y: bool, z: bool) { y != (z ==> x) }

  function Places(round: nat): (bool, bool, bool) -> bool {
    if round == 0 then IfFirst else if round == 1 then IfLast else if round == 2 then OddlyMany else SecondDiffers
  }

  /** `[abcd k s i]`: a = b + ((a + F(b,c,d) + X[k] + T[i]) <<< s) */
  function StandardStep(round: nat, a: nat, b: nat, c: nat, d: nat, x: nat, s: nat, t: int): nat
    requires s <= 32
  {
    (b + RotatedNumber((a + Bitwise(Places(round), b, c, d, 32) + x + t) % TWO_TO_THE_32, s)) % TWO_TO_THE_32
  }

  /** Constant `i` of section 3.4, from 1 on: the integer part of 4294967296 times the magnitude of
      the sine of `i`. */
  function Constant(i: nat): int {
    Sine.ScaledSine(Sine.SineSum(18), Sine.CosineSum(18), i)
  }

  datatype Registers4 = Registers4(a: nat, b: nat, c: nat, d: nat)

  /** The shift amounts of the four rounds. */
  const AMOUNTS: seq<seq<nat>> := [[7, 12, 17, 22], [5, 9, 14, 20], [4, 11, 16, 23], [6, 10, 15, 21]]

  function Amount(j: nat): (s: nat)
    requires j < 64
    ensures s < 32
  {
    AMOUNTS[j / 16][j % 4]
  }

  /** Step `j`: the registers take turns as the first operand, as ABCD, DABC, CDAB, BCDA. */
  function StepOf(x: seq<nat>, r: Registers4, j: nat): Registers4
    requires |x| == 16 && j < 64
  {
    var (w, s, t) := (x[RfcWord(j)], Amount(j), Constant(j + 1));
    match j % 4
    case 0 => r.(a := StandardStep(j / 16, r.a, r.b, r.c, r.d, w, s, t))
    case 1 => r.(d := StandardStep(j / 16, r.d, r.a, r.b, r.c, w, s, t))
    case 2 => r.(c := StandardStep(j / 16, r.c, r.d, r.a, r.b, w, s, t))
    case _ => r.(b := StandardStep(j / 16, r.b, r.c, r.d, r.a, w, s, t))
  }

  function StepsOf(x: seq<nat>, r: Registers4, n: nat): Registers4
    requires |x| == 16 && n <= 64
  {
    if n == 0 then r else StepOf(x, StepsOf(x, r, n - 1), n - 1)
  }

  /** The sixteen words of a block, low-order byte first (section 2). */
  function WordsOfBlock(block: Block): (x: seq<nat>)
    ensures |x| == 16
  {
    seq(16, k requires 0 <= k < 16 => FourBytes(block[4 * k], block[4 * k + 1], block[4 * k + 2], block[4 * k + 3]))
  }

  function FourBytes(a: byte, b: byte, c: byte, d: byte): nat {
    a as int + 0x100 * b as int + 0x1_0000 * c as int + 0x100_0000 * d as int
  }

  function ProcessBlock(r: Registers4, block: Block): Registers4 {
    var q := StepsOf(WordsOfBlock(block), r, STEPS);
    Registers4((r.a + q.a) % TWO_TO_THE_32, (r.b + q.b) % TWO_TO_THE_32, (r.c + q.c) % TWO_TO_THE_32, (r.d + q.d) % TWO_TO_THE_32)
  }

  /** The registers after the first `n` blocks. */
  function ProcessBlocks(r: Registers4, s: seq<byte>, n: nat): Registers4
    requires 64 * n <= |s|
  {
    hide ProcessBlock;
    if n == 0 then r else ProcessBlock(ProcessBlocks(r, s, n - 1), s[64 * (n - 1)..64 * n])
  }

  /** Section 3.3: the registers begin with these bytes, low-order bytes first. */
  const BEGINNING := Registers4(
    FourBytes(0x01, 0x23, 0x45, 0x67), FourBytes(0x89, 0xab, 0xcd, 0xef), FourBytes(0xfe, 0xdc, 0xba, 0x98), FourBytes(0x76, 0x54, 0x32, 0x10))

  /** Sections 3.1 and 3.2: a one and zeros up to 56 bytes modulo 64, then the length in bits
      modulo 2 to the 64, low-order byte first. */
  function StandardPadded(m: seq<byte>): (s: seq<byte>) {
    m + [0x80] + seq((55 - |m|) % 64, _ => 0) + seq(8, i requires 0 <= i < 8 => 8 * |m| / Pow2(8 * i) % 0x100)
  }

  /** The message digest of the standard, as the four numbers A, B, C and D. */
  function StandardDigest(m: seq<byte>): Registers4 {
    ProcessBlocks(BEGINNING, StandardPadded(m), |StandardPadded(m)| / 64)
  }

  // ---------- the words of the firmware stand for these numbers ----------

  function NumbersOf(r: Registers): Registers4 {
    Registers4(Number(r[0]), Number(r[1]), Number(r[2]), Number(r[3]))
  }

  lemma FBits(x: word, y: word, z: word, b: bv8)
    requires b < 32
    ensures BitOf(F(x, y, z), b) == IfFirst(BitOf(x, b), BitOf(y, b), BitOf(z, b))
  {
  }

  lemma GBits(x: word, y: word, z: word, b: bv8)
    requires b < 32
    ensures BitOf(G(x, y, z), b) == IfLast(BitOf(x, b), BitOf(y, b), BitOf(z, b))
  {
  }

  lemma HBits(x: word, y: word, z: word, b: bv8)
    requires b < 32
    ensures BitOf(H(x, y, z), b) == OddlyMany(BitOf(x, b), BitOf(y, b), BitOf(z, b))
  {
  }

  lemma IBits(x: word, y: word, z: word, b: bv8)
    requires b < 32
    ensures BitOf(I(x, y, z), b) == SecondDiffers(BitOf(x, b), BitOf(y, b), BitOf(z, b))
  {
  }

  /** The four functions work on each bit alone, as the standard says. */
  lemma MixIsBitwise(round: nat, x: word, y: word, z: word)
    ensures Number(Mix(round, x, y, z)) == Bitwise(Places(round), Number(x), Number(y), Number(z), 32)
  {
    hide BitOf, F, G, H, I, Index, Number, Bitwise, IfFirst, IfLast, OddlyMany, SecondDiffers;
    var w := Mix(round, x, y, z);
    forall j: nat | j < 32
      ensures Bit(w, j) == Places(round)(Bit(x, j), Bit(y, j), Bit(z, j))
    {
      SmallIndex(j);
      FBits(x, y, z, Index(j));
      GBits(x, y, z, Index(j));
      HBits(x, y, z, Index(j));
      IBits(x, y, z, Index(j));
    }
    BitwiseOfNumbers(Places(round), w, x, y, z);
  }

  lemma StepOnWords(round: nat, a: word, b: word, c: word, d: word, x: word, s: bv8, t: word)
    requires Distance(s) < 32
    ensures Number(Plus(b, RotateLeft(Plus(Plus(Plus(a, Mix(round, b, c, d)), x), t), s)))
      == StandardStep(round, Number(a), Number(b), Number(c), Number(d), Number(x), Distance(s), Number(t))
  {
    hide Mix, RotateLeft, Plus, Number, Bitwise, Distance, Places, Pow2;
    var f := Mix(round, b, c, d);
    var sum := Plus(Plus(Plus(a, f), x), t);
    MixIsBitwise(round, b, c, d);
    SumOfNumbers(a, f);
    SumOfNumbers(Plus(a, f), x);
    SumOfNumbers(Plus(Plus(a, f), x), t);
    SumOfFour(Number(a), Number(f), Number(x), Number(t));
    RotationBy(sum, s);
    SumOfNumbers(b, RotateLeft(sum, s));
  }

  /** One step on words is the step of the standard on numbers. */
  lemma StepIsStandard(r: Registers, p: nat, x: word, s: bv8, t: word, round: nat)
    requires p < 4 && Distance(s) < 32
    ensures Number(Step(r, p, x, s, t, round)[p]) ==
      StandardStep(round, Number(r[p]), Number(r[(p + 1) % 4]), Number(r[(p + 2) % 4]), Number(r[(p + 3) % 4]), Number(x), Distance(s), Number(t))
  {
    hide Mix, RotateLeft, Plus, Number, Distance, StandardStep;
    StepOnWords(round, r[p], r[(p + 1) % 4], r[(p + 2) % 4], r[(p + 3) % 4], x, s, t);
  }

  lemma SumOfFour(a: nat, b: nat, c: nat, d: nat)
    ensures (((a + b) % TWO_TO_THE_32 + c) % TWO_TO_THE_32 + d) % TWO_TO_THE_32 == (a + b + c + d) % TWO_TO_THE_32
  {
  }

  lemma WordIsStandard(block: Block, k: nat)
    requires k < 16
    ensures Number(WordOf(block, k)) == WordsOfBlock(block)[k]
  {
    hide ByteOf, FromBytes, Number;
    var a, b, c, d := block[4 * k], block[4 * k + 1], block[4 * k + 2], block[4 * k + 3];
    BytesOfWord(a as bv8, b as bv8, c as bv8, d as bv8);
    NumberOfBytes(WordOf(block, k));
    ByteAndBack(a);
    ByteAndBack(b);
    ByteAndBack(c);
    ByteAndBack(d);
  }

  lemma ShiftIsStandard(j: nat)
    requires j < 64
    ensures Distance(RfcShift(j)) == Amount(j)
  {
  }

  // ---------- the table of the firmware ----------

  function NumberByBytes(x: word): nat {
    ByteOf(x, 0) as int + 0x100 * ByteOf(x, 1) as int + 0x1_0000 * ByteOf(x, 2) as int + 0x100_0000 * ByteOf(x, 3) as int
  }

  /** The word is clearly the integer part that constant `i` asks for. */
  predicate IsConstant(x: word, i: nat) {
    var y := 4294967296.0 * Sine.Magnitude(Sine.Row(i).sine);
    NumberByBytes(x) as real + 0.000_001 <= y <= NumberByBytes(x) as real + 0.999_999
  }

  lemma ConstantsFrom0()
    ensures forall j :: 0 <= j < 4 ==> IsConstant(T(j), j + 1)
  {
  }

  lemma ConstantsFrom4()
    ensures forall j :: 4 <= j < 8 ==> IsConstant(T(j), j + 1)
  {
  }

  lemma ConstantsFrom8()
    ensures forall j :: 8 <= j < 12 ==> IsConstant(T(j), j + 1)
  {
  }

  lemma ConstantsFrom12()
    ensures forall j :: 12 <= j < 16 ==> IsConstant(T(j), j + 1)
  {
  }

  lemma ConstantsFrom16()
    ensures forall j :: 16 <= j < 20 ==> IsConstant(T(j), j + 1)
  {
  }

  lemma ConstantsFrom20()
    ensures forall j :: 20 <= j < 24 ==> IsConstant(T(j), j + 1)
  {
  }

  lemma ConstantsFrom24()
    ensures forall j :: 24 <= j < 28 ==> IsConstant(T(j), j + 1)
  {
  }

  lemma ConstantsFrom28()
    ensures forall j :: 28 <= j < 32 ==> IsConstant(T(j), j + 1)
  {
  }

  lemma ConstantsFrom32()
    ensures forall j :: 32 <= j < 36 ==> IsConstant(T(j), j + 1)
  {
  }

  lemma ConstantsFrom36()
    ensures forall j :: 36 <= j < 40 ==> IsConstant(T(j), j + 1)
  {
  }

  lemma ConstantsFrom40()
    ensures forall j :: 40 <= j < 44 ==> IsConstant(T(j), j + 1)
  {
  }

  lemma ConstantsFrom44()
    ensures forall j :: 44 <= j < 48 ==> IsConstant(T(j), j + 1)
  {
  }

  lemma ConstantsFrom48()
    ensures forall j :: 48 <= j < 52 ==> IsConstant(T(j), j + 1)
  {
  }

  lemma ConstantsFrom52()
    ensures forall j :: 52 <= j < 56 ==> IsConstant(T(j), j + 1)
  {
  }

  lemma ConstantsFrom56()
    ensures forall j :: 56 <= j < 60 ==> IsConstant(T(j), j + 1)
  {
  }

  lemma ConstantsFrom60()
    ensures forall j :: 60 <= j < 64 ==> IsConstant(T(j), j + 1)
  {
  }

  lemma ConstantsAre(j: nat)
    requires j < 64
    ensures IsConstant(T(j), j + 1)
  {
    hide IsConstant, T;
    ConstantsFrom0();
    ConstantsFrom4();
    ConstantsFrom8();
    ConstantsFrom12();
    ConstantsFrom16();
    ConstantsFrom20();
    ConstantsFrom24();
    ConstantsFrom28();
    ConstantsFrom32();
    ConstantsFrom36();
    ConstantsFrom40();
    ConstantsFrom44();
    ConstantsFrom48();
    ConstantsFrom52();
    ConstantsFrom56();
    ConstantsFrom60();
  }

  /** The table of the firmware is that of the sine, whichever values between the sums of its
      series are taken for the sine and the cosine of 1. */
  lemma TableIsSine(s: real, c: real, j: nat)
    requires j < 64 && Sine.AreOf1(s, c)
    ensures Number(T(j)) == Sine.ScaledSine(s, c, j + 1)
  {
    hide Number, T, ByteOf, Sine.Row, Sine.Magnitude, Sine.AreOf1, Sine.ScaledSine;
    ConstantsAre(j);
    NumberOfBytes(T(j));
    Sine.RowDecides(s, c, j + 1, Number(T(j)));
  }

  lemma ConstantIs(j: nat)
    requires j < 64
    ensures Number(T(j)) == Constant(j + 1)
  {
    hide Number, T, Sine.AreOf1, Sine.ScaledSine, Sine.SineSum, Sine.CosineSum;
    Sine.SumsAreOf1();
    TableIsSine(Sine.SineSum(18), Sine.CosineSum(18), j);
  }

  lemma StepOfIsStandard(block: Block, r: Registers, j: nat)
    requires j < 64
    ensures NumbersOf(RfcStep(block, r, j)) == StepOf(WordsOfBlock(block), NumbersOf(r), j)
  {
    hide Step, Number, WordOf, RfcWord, T, RfcShift, StandardStep, WordsOfBlock, Distance, Constant;
    var p := RfcRegister(j);
    ConstantIs(j);
    WordIsStandard(block, RfcWord(j));
    ShiftIsStandard(j);
    StepIsStandard(r, p, WordOf(block, RfcWord(j)), RfcShift(j), T(j), j / 16);
    StepKeeps(r, p, WordOf(block, RfcWord(j)), RfcShift(j), T(j), j / 16);
    if j % 4 == 0 {
      assert p == 0;
    } else if j % 4 == 1 {
      assert p == 3;
    } else if j % 4 == 2 {
      assert p == 2;
    } else {
      assert p == 1;
    }
  }

  lemma StepKeeps(r: Registers, p: nat, x: word, s: bv8, t: word, round: nat)
    requires p < 4
    ensures forall q: nat :: q < 4 && q != p ==> Step(r, p, x, s, t, round)[q] == r[q]
  {
  }

  lemma {:induction false} StepsAreStandard(block: Block, r: Registers, n: nat)
    requires n <= 64
    ensures NumbersOf(RfcSteps(block, r, n)) == StepsOf(WordsOfBlock(block), NumbersOf(r), n)
  {
    hide NumbersOf, RfcStep, StepOf, WordsOfBlock;
    if n > 0 {
      StepsAreStandard(block, r, n - 1);
      StepOfIsStandard(block, RfcSteps(block, r, n - 1), n - 1);
    }
  }

  lemma BlockIsStandard(r: Registers, block: Block)
    ensures NumbersOf(Compress(r, block)) == ProcessBlock(NumbersOf(r), block)
  {
    hide RfcSteps, StepsOf, WordsOfBlock, Number, Plus;
    StepsAreStandard(block, r, STEPS);
    var q := RfcSteps(block, r, STEPS);
    SumOfNumbers(r[0], q[0]);
    SumOfNumbers(r[1], q[1]);
    SumOfNumbers(r[2], q[2]);
    SumOfNumbers(r[3], q[3]);
  }

  lemma {:induction false} BlocksAreStandard(r: Registers, s: seq<byte>, n: nat)
    requires 64 * n <= |s|
    ensures NumbersOf(Absorb(r, s[..64 * n])) == ProcessBlocks(NumbersOf(r), s, n)
  {
    hide NumbersOf, Compress, ProcessBlock, Absorb;
    if n == 0 {
      AbsorbNothing(r);
      assert s[..0] == [];
    } else {
      BlocksAreStandard(r, s, n - 1);
      var before, block := s[..64 * (n - 1)], s[64 * (n - 1)..64 * n];
      assert s[..64 * n] == before + block;
      AbsorbOn(r, before, block);
      AbsorbBlock(Absorb(r, before), block);
      BlockIsStandard(Absorb(r, before), block);
    }
  }

  lemma BeginningIsStandard()
    ensures NumbersOf(INIT) == BEGINNING
  {
    hide Number;
    NumberOfBytes(INIT[0]);
    NumberOfBytes(INIT[1]);
    NumberOfBytes(INIT[2]);
    NumberOfBytes(INIT[3]);
  }

  /** Byte `i` of a number, the lowest first, is the number divided by 256 to the `i`. */
  lemma {:induction false} ByteOfLength(n: nat, k: nat, i: nat)
    requires i < k
    ensures LittleEndian(n, k)[i] == n / Pow2(8 * i) % 0x100
    decreases k
  {
    if i == 0 {
      PowerStep(0);
    } else {
      ByteOfLength(n / 0x100, k - 1, i - 1);
      PowersOf2();
      PowersMultiply(8, 8 * (i - 1));
      DividedTwice(n, 0x100, Pow2(8 * (i - 1)));
    }
  }

  lemma DividedTwice(n: nat, p: nat, q: nat)
    requires p > 0 && q > 0
    ensures p * q > 0 && n / p / q == n / (p * q)
  {
    TwoDivisions(n, p, q, n / p, n / p / q, n % p, n / p % q);
  }

  lemma TwoDivisions(n: nat, p: nat, q: nat, a: nat, b: nat, c: nat, d: nat)
    requires p > 0 && q > 0 && n == a * p + c && c < p && a == b * q + d && d < q
    ensures p * q > 0 && n / (p * q) == b
  {
    Products3(b, d, p, q);
    NextMultiple(d, q, p);
    ModulusIsUnique(n, p * q, b, d * p + c);
  }

  lemma Products3(b: nat, c: nat, p: nat, q: nat)
    requires p > 0 && q > 0
    ensures (b * q + c) * p == b * (p * q) + c * p && p * q > 0 && q * p == p * q
    ensures c * p >= 0
  {
  }

  /** Cutting the length to 64 bits does not change its eight lowest bytes. */
  lemma LengthIn64Bits(n: nat, i: nat)
    requires i < 8
    ensures n % 0x1_0000_0000_0000_0000 / Pow2(8 * i) % 0x100 == n / Pow2(8 * i) % 0x100
  {
    hide Pow2;
    var p, q, high := Pow2(8 * i), Pow2(8 * (7 - i)), n / 0x1_0000_0000_0000_0000;
    PowersOf2();
    PowersMultiply(8 * i, 8);
    PowersMultiply(8 * i + 8, 8 * (7 - i));
    PowersMultiply(32, 32);
    LowerPart(n, n % 0x1_0000_0000_0000_0000, high, p, q);
  }

  lemma LowerPart(n: nat, low: nat, high: nat, p: nat, q: nat)
    requires p > 0 && q > 0 && n == high * (p * 0x100 * q) + low
    ensures low / p % 0x100 == n / p % 0x100
  {
    Regrouped(high, p, q);
    assert n == (high * q * 0x100) * p + low;
    var l := low / p;
    assert low == l * p + low % p;
    Distributed(high * q * 0x100, l, p);
    ModulusIsUnique(n, p, high * q * 0x100 + l, low % p);
    ModulusIsUnique(high * q * 0x100 + l, 0x100, high * q + l / 0x100, l % 0x100);
  }

  lemma Regrouped(h: nat, p: nat, q: nat)
    ensures h * (p * 0x100 * q) == (h * q * 0x100) * p && h * q >= 0
  {
  }

  lemma Distributed(a: nat, b: nat, p: nat)
    ensures (a + b) * p == a * p + b * p
  {
  }

  /** What the firmware's padding is compared with is the padding of the standard. */
  lemma PaddedIsRfc1321(m: seq<byte>)
    ensures Padded(m) == StandardPadded(m)
  {
    hide LittleEndian, Pow2;
    var bits := 8 * |m| % 0x1_0000_0000_0000_0000;
    forall i | 0 <= i < 8
      ensures LittleEndian(bits, 8)[i] == 8 * |m| / Pow2(8 * i) % 0x100
    {
      ByteOfLength(bits, 8, i);
      LengthIn64Bits(8 * |m|, i);
    }
    assert LittleEndian(bits, 8) == seq(8, i requires 0 <= i < 8 => 8 * |m| / Pow2(8 * i) % 0x100);
    ZerosAre(|m|);
  }

  lemma ZerosAre(n: nat)
    ensures Zeros(n) == (55 - n) % 64
  {
  }

  /** The steps of the firmware over the padding of the standard are its digest. */
  lemma DigestIsRfc1321(m: seq<byte>)
    ensures NumbersOf(Digest(m)) == StandardDigest(m)
  {
    hide NumbersOf, Absorb, ProcessBlocks, Padded, StandardPadded;
    BeginningIsStandard();
    PaddedIsRfc1321(m);
    BlocksAreStandard(INIT, Padded(m), |Padded(m)| / 64);
    assert Padded(m)[..|Padded(m)|] == Padded(m);
  }

  /** Up to 2 to the 32 bits the firmware computes the digest of the standard, wherever its
      caller stops feeding single blocks. */
  method HashStandard(m: seq<byte>, blocks: nat) returns (a: Registers)
    requires 64 * blocks <= |m| && 8 * (|m| - 64 * blocks) < 0x1_0000 && 8 * |m| < TWO_TO_THE_32
    ensures NumbersOf(a) == StandardDigest(m)
  {
    hide NumbersOf, Absorb, PaddedWith, Digest, StandardDigest;
    a := Hash(m, blocks);
    DigestIsStandard(m);
    DigestIsRfc1321(m);
  }
}
