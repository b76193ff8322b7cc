/** The MD5 message digest of RFC 1321, with the loops and the padding of the firmware. */
module Md5 {
  import opened Integers
  import opened Words

  type Block = b: seq<byte> | |b| == 64 witness seq(64, _ => 0)
  /** The registers A, B, C and D. */
  type Registers = r: seq<word> | |r| == 4 witness [0, 0, 0, 0]

  const INIT: Registers := [0x67452301, 0xefcdab89, 0x98badcfe, 0x10325476]

  const TABLE: seq<word> :=
    [0xd76aa478, 0xe8c7b756, 0x242070db, 0xc1bdceee, 0xf57c0faf, 0x4787c62a, 0xa8304613, 0xfd469501] +
    [0x698098d8, 0x8b44f7af, 0xffff5bb1, 0x895cd7be, 0x6b901122, 0xfd987193, 0xa679438e, 0x49b40821] +
    [0xf61e2562, 0xc040b340, 0x265e5a51, 0xe9b6c7aa, 0xd62f105d, 0x02441453, 0xd8a1e681, 0xe7d3fbc8] +
    [0x21e1cde6, 0xc33707d6, 0xf4d50d87, 0x455a14ed, 0xa9e3e905, 0xfcefa3f8, 0x676f02d9, 0x8d2a4c8a] +
    [0xfffa3942, 0x8771f681, 0x6d9d6122, 0xfde5380c, 0xa4beea44, 0x4bdecfa9, 0xf6bb4b60, 0xbebfbc70] +
    [0x289b7ec6, 0xeaa127fa, 0xd4ef3085, 0x04881d05, 0xd9d4d039, 0xe6db99e5, 0x1fa27cf8, 0xc4ac5665] +
    [0xf4292244, 0x432aff97, 0xab9423a7, 0xfc93a039, 0x655b59c3, 0x8f0ccc92, 0xffeff47d, 0x85845dd1] +
    [0x6fa87e4f, 0xfe2ce6e0, 0xa3014314, 0x4e0811a1, 0xf7537e82, 0xbd3af235, 0x2ad7d2bb, 0xeb86d391]

  function T(i: nat): word {
    if i < |TABLE| then TABLE[i] else 0
  }

  const STEPS: nat := 64

  // ---------- one step ----------

  function F(x: word, y: word, z: word): word { (x & y) | ((!x) & z) }
  function G(x: word, y: word, z: word): word { (x & z) | ((!z) & y) }
  function H(x: word, y: word, z: word): word { x ^ y ^ z }
  function I(x: word, y: word, z: word): word { y ^ (x | (!z)) }

  function Mix(round: nat, x: word, y: word, z: word): word {
    if round == 0 then F(x, y, z) else if round == 1 then G(x, y, z) else if round == 2 then H(x, y, z) else I(x, y, z)
  }

  /** The little endian word `k` of a block. */
  function WordOf(block: Block, k: nat): word
    requires k < 16
  {
    FromBytes(block[4 * k] as bv8, block[4 * k + 1] as bv8, block[4 * k + 2] as bv8, block[4 * k + 3] as bv8)
  }

  /** `[abcd k s i]` of the standard, with `p` the register that takes the part of a. */
  function Step(r: Registers, p: nat, x: word, s: bv8, t: word, round: nat): Registers
    requires p < 4
  {
    var f := Mix(round, r[(p + 1) % 4], r[(p + 2) % 4], r[(p + 3) % 4]);
    r[p := Plus(r[(p + 1) % 4], RotateLeft(Plus(Plus(Plus(r[p], f), x), t), s))]
  }

  // ---------- the step list of RFC 1321, section 3.4 ----------

  /** Which word of the block each of the 64 steps takes, as the standard lists them. */
  function RfcWord(j: nat): (k: nat)
    ensures k < 16
  {
    match j
    case 0 => 0 case 1 => 1 case 2 => 2 case 3 => 3 case 4 => 4 case 5 => 5 case 6 => 6 case 7 => 7
    case 8 => 8 case 9 => 9 case 10 => 10 case 11 => 11 case 12 => 12 case 13 => 13 case 14 => 14 case 15 => 15
    case 16 => 1 case 17 => 6 case 18 => 11 case 19 => 0 case 20 => 5 case 21 => 10 case 22 => 15 case 23 => 4
    case 24 => 9 case 25 => 14 case 26 => 3 case 27 => 8 case 28 => 13 case 29 => 2 case 30 => 7 case 31 => 12
    case 32 => 5 case 33 => 8 case 34 => 11 case 35 => 14 case 36 => 1 case 37 => 4 case 38 => 7 case 39 => 10
    case 40 => 13 case 41 => 0 case 42 => 3 case 43 => 6 case 44 => 9 case 45 => 12 case 46 => 15 case 47 => 2
    case 48 => 0 case 49 => 7 case 50 => 14 case 51 => 5 case 52 => 12 case 53 => 3 case 54 => 10 case 55 => 1
    case 56 => 8 case 57 => 15 case 58 => 6 case 59 => 13 case 60 => 4 case 61 => 11 case 62 => 2 case 63 => 9
    case _ => 0
  }

  /** The register that a step changes: A, D, C, B and so on. */
  function RfcRegister(j: nat): (p: nat)
    ensures p < 4
  {
    match j % 4 case 0 => 0 case 1 => 3 case 2 => 2 case _ => 1
  }

  const SHIFTS: seq<seq<bv8>> := [[7, 12, 17, 22], [5, 9, 14, 20], [4, 11, 16, 23], [6, 10, 15, 21]]

  function RfcShift(j: nat): (s: bv8)
    requires j < 64
  {
    SHIFTS[j / 16][j % 4]
  }

  function RfcStep(block: Block, r: Registers, j: nat): Registers
    requires j < 64
  {
    Step(r, RfcRegister(j), WordOf(block, RfcWord(j)), RfcShift(j), T(j), j / 16)
  }

  /** The first `n` steps. */
  function RfcSteps(block: Block, r: Registers, n: nat): Registers
    requires n <= 64
  {
    if n == 0 then r else RfcStep(block, RfcSteps(block, r, n - 1), n - 1)
  }

  /** What one block does to the registers. */
  function Compress(r: Registers, block: Block): Registers {
    var a := RfcSteps(block, r, STEPS);
    [Plus(r[0], a[0]), Plus(r[1], a[1]), Plus(r[2], a[2]), Plus(r[3], a[3])]
  }

  // ---------- padding, sections 3.1 and 3.2 ----------

  /** The lowest `k` bytes of a number, the lowest first. */
  function LittleEndian(n: nat, k: nat): (s: seq<byte>)
    ensures |s| == k
    decreases k
  {
    if k == 0 then [] else [n % 0x100] + LittleEndian(n / 0x100, k - 1)
  }

  /** How many zeros follow the one that is padded to `n` bytes. */
  function Zeros(n: nat): (z: nat)
    ensures (n + 1 + z + 8) % 64 == 0 && z < 64
  {
    (119 - n % 64) % 64
  }

  /** Whole bytes and a last one with the first bit of the padding, padded, with `bits` for
      the length. */
  function PaddedAfter(m: seq<byte>, last: byte, bits: nat): (s: seq<byte>)
    ensures |s| % 64 == 0
  {
    m + [last] + seq(Zeros(|m|), _ => 0) + LittleEndian(bits, 8)
  }

  /** A message of whole bytes, padded, with `bits` for its length. */
  function PaddedWith(m: seq<byte>, bits: nat): (s: seq<byte>)
    ensures |s| % 64 == 0
  {
    PaddedAfter(m, 0x80, bits)
  }

  /** What the standard pads: the length counts modulo 2 to the 64. */
  function Padded(m: seq<byte>): (s: seq<byte>)
    ensures |s| % 64 == 0
  {
    PaddedWith(m, 8 * |m| % 0x1_0000_0000_0000_0000)
  }

  /** The registers after a sequence of whole blocks. */
  function Absorb(r: Registers, s: seq<byte>): Registers
    requires |s| % 64 == 0
    decreases |s|
  {
    if |s| == 0 then r else Absorb(Compress(r, s[..64]), s[64..])
  }

  function Digest(m: seq<byte>): Registers {
    Absorb(INIT, Padded(m))
  }

  lemma {:induction false} AbsorbOn(r: Registers, s: seq<byte>, t: seq<byte>)
    requires |s| % 64 == 0 && |t| % 64 == 0
    ensures Absorb(r, s + t) == Absorb(Absorb(r, s), t)
    decreases |s|
  {
    hide Compress;
    if |s| == 0 {
      assert s + t == t;
    } else {
      AbsorbOn(Compress(r, s[..64]), s[64..], t);
      assert (s + t)[..64] == s[..64] && (s + t)[64..] == s[64..] + t;
    }
  }

  lemma AbsorbBlock(r: Registers, block: Block)
    ensures Absorb(r, block) == Compress(r, block)
  {
    hide Compress;
    assert block[..64] == block && block[64..] == [];
  }

  // ---------- the loops of the firmware ----------

  /** The word index that the four rounds compute from their loop counters. */
  function WordIndex(round: nat, m: nat, n: nat): (k: nat)
    requires round < 4 && m < 4 && n < 4
    ensures k < 16
  {
    match round
    case 0 => m * 4 + n
    case 1 => (1 + m * 4 + n * 5) % 16
    case 2 => (5 - m * 4 + n * 3) % 16
    case _ => (0 - m * 4 + n * 7) % 16
  }

  /** The closed forms give the listed indices, registers and shifts. */
  lemma IndexIsListed(round: nat, m: nat, n: nat)
    requires round < 4 && m < 4 && n < 4
    ensures var j := 16 * round + 4 * m + n;
      && WordIndex(round, m, n) == RfcWord(j) && (4 - n) % 4 == RfcRegister(j)
      && RfcShift(j) == SHIFTS[round][n] && j / 16 == round
  {
    hide RfcWord, WordIndex;
    var j := 16 * round + 4 * m + n;
    assert j % 4 == n;
    if round == 0 {
      FirstRound(m, n);
    } else if round == 1 {
      SecondRound(m, n);
    } else if round == 2 {
      ThirdRound(m, n);
    } else {
      FourthRound(m, n);
    }
  }

  lemma FirstRound(m: nat, n: nat)
    requires m < 4 && n < 4
    ensures RfcWord(4 * m + n) == WordIndex(0, m, n)
  {
  }

  lemma SecondRound(m: nat, n: nat)
    requires m < 4 && n < 4
    ensures RfcWord(16 + 4 * m + n) == WordIndex(1, m, n)
  {
  }

  lemma ThirdRound(m: nat, n: nat)
    requires m < 4 && n < 4
    ensures RfcWord(32 + 4 * m + n) == WordIndex(2, m, n)
  {
  }

  lemma FourthRound(m: nat, n: nat)
    requires m < 4 && n < 4
    ensures RfcWord(48 + 4 * m + n) == WordIndex(3, m, n)
  {
  }

  lemma StepsStep(block: Block, r: Registers, n: nat)
    requires n < 64
    ensures RfcSteps(block, r, n + 1) == RfcStep(block, RfcSteps(block, r, n), n)
    ensures RfcSteps(block, r, 0) == r
  {
  }

  /** `md5_core` */
  method Core(a: array<word>, register: nat, block: Block, k: nat, s: bv8, i: nat, fi: nat)
    requires a.Length == 4 && k < 16
    modifies a
    ensures a[..] == Step(old(a[..]), register % 4, WordOf(block, k), s, T(i), fi)
  {
    hide Mix, RotateLeft, WordOf, T, Plus;
    var p := register % 4;
    var f := Mix(fi, a[(p + 1) % 4], a[(p + 2) % 4], a[(p + 3) % 4]);
    var t := Plus(Plus(Plus(a[p], f), WordOf(block, k)), T(i));
    ghost var r := a[..];
    a[p] := Plus(a[(p + 1) % 4], RotateLeft(t, s));
    assert a[..] == r[p := a[p]];
  }

  /** One of the four double loops of `md5_nextBlock`. */
  method Round(a: array<word>, block: Block, round: nat, ghost r: Registers)
    requires a.Length == 4 && round < 4 && a[..] == RfcSteps(block, r, 16 * round)
    modifies a
    ensures a[..] == RfcSteps(block, r, 16 * round + 16)
  {
    hide RfcSteps, Step, WordOf, T, RfcWord, WordIndex, RfcRegister, RfcShift;
    var i := 16 * round;
    for m := 0 to 4
      invariant i == 16 * round + 4 * m && a[..] == RfcSteps(block, r, i)
    {
      for n := 0 to 4
        invariant i == 16 * round + 4 * m + n && a[..] == RfcSteps(block, r, i)
      {
        IndexIsListed(round, m, n);
        StepsStep(block, r, i);
        Core(a, 4 - n, block, WordIndex(round, m, n), SHIFTS[round][n], i, round);
        i := i + 1;
      }
    }
  }

  method AllRounds(a: array<word>, block: Block, ghost r: Registers)
    requires a.Length == 4 && a[..] == r
    modifies a
    ensures a[..] == RfcSteps(block, r, STEPS)
  {
    hide RfcSteps;
    StepsStep(block, r, 0);
    for round := 0 to 4
      invariant a[..] == RfcSteps(block, r, 16 * round)
    {
      Round(a, block, round, r);
    }
  }

  class Context {
    var a: Registers
    var counter: u32

    /** `md5_init` */
    constructor ()
      ensures a == INIT && counter == 0
    {
      a, counter := INIT, 0;
    }

    /** `md5_nextBlock` */
    method NextBlock(block: Block)
      modifies this
      ensures a == Compress(old(a), block)
      ensures counter == (old(counter) + 1) % 0x1_0000_0000
    {
      hide RfcSteps, Plus;
      var b := new word[4](i requires 0 <= i < 4 reads this => a[i]);
      assert b[..] == a;
      AllRounds(b, block, a);
      a := a[0 := Plus(a[0], b[0])];
      a := a[1 := Plus(a[1], b[1])];
      a := a[2 := Plus(a[2], b[2])];
      a := a[3 := Plus(a[3], b[3])];
      counter := (counter + 1) % 0x1_0000_0000;
    }

    /** The first loop of `md5_lastBlock`: whole blocks. */
    method WholeBlocks(data: seq<byte>, length: u16) returns (rest: seq<byte>, left: u16)
      requires length <= 8 * |data|
      modifies this
      ensures left == length % 512 && left <= 8 * |rest| && rest == data[64 * (length / 512)..]
      ensures a == Absorb(old(a), data[..64 * (length / 512)])
      ensures TotalBits(counter, left) == TotalBits(old(counter), length)
    {
      hide Absorb, TotalBits, Compress;
      rest, left := data, length;
      ghost var done: nat := 0;
      AbsorbNothing(a);
      assert data[..0] == [] && data[0..] == data;
      while left >= 512
        invariant 8 * done + left == length && done % 64 == 0 && done <= |data| && rest == data[done..]
        invariant a == Absorb(old(a), data[..done])
        invariant TotalBits(counter, left) == TotalBits(old(counter), length)
      {
        ghost var before, block := a, rest[..64];
        BlockCounted(counter, left);
        NextBlock(rest[..64]);
        AbsorbBlock(before, block);
        AbsorbOn(old(a), data[..done], block);
        FrontAndNext(data, done, 64);
        left := left - 512;
        rest := rest[64..];
        done := done + 64;
      }
      assert done == 64 * (length / 512);
    }

    /** The rest of `md5_lastBlock`: less than a block, the padding, and the length. */
    method Finish(data: seq<byte>, length: nat)
      requires length < 512 && length <= 8 * |data|
      modifies this
      ensures a == Absorb(old(a), PaddedAfter(data[..length / 8], LastByte(data, length), TotalBits(old(counter), length)))
    {
      hide Absorb, PaddedAfter, TotalBits, Zeros, LittleEndian, Compress, WithOne;
      var l := length / 8;
      var b: Block := seq(64, i requires 0 <= i => if i < l then data[i] else 0);
      if length % 8 != 0 {
        b := b[l := WithOne(data[l], length % 8)];
      } else {
        b := b[l := 0x80];
      }
      ghost var r, m, bits := a, data[..l], TotalBits(counter, length);
      ghost var first := b;
      if l + 8 >= 64 {
        NextBlock(b);
        counter := (counter + 0xFFFF_FFFF) % 0x1_0000_0000;
        b := seq(64, _ => 0);
      }
      b := b[..56] + LittleEndian(TotalBits(counter, length), 8);
      NextBlock(b);
      if l + 8 >= 64 {
        TwoBlocks(m, LastByte(data, length), bits, first, b);
        AbsorbOn(r, first, b);
        AbsorbBlock(r, first);
        AbsorbBlock(Compress(r, first), b);
      } else {
        OneBlock(m, LastByte(data, length), bits, b);
        AbsorbBlock(r, b);
      }
    }

    /** `md5_lastBlock` */
    method LastBlock(data: seq<byte>, length: u16)
      requires length <= 8 * |data|
      modifies this
      ensures a == Absorb(old(a), PaddedAfter(data[..length / 8], LastByte(data, length), TotalBits(old(counter), length)))
    {
      hide Absorb, PaddedAfter, TotalBits, Compress, WithOne;
      ghost var r := a;
      var rest, left := WholeBlocks(data, length);
      ghost var bits, last := TotalBits(counter, left), LastByte(rest, left);
      Finish(rest, left);
      ghost var whole := data[..64 * (length / 512)];
      PaddingOfRest(whole, rest[..left / 8], last, bits);
      AbsorbOn(r, whole, PaddedAfter(rest[..left / 8], last, bits));
      FrontAndNext(data, 64 * (length / 512), left / 8);
    }
  }

  lemma FrontAndNext(data: seq<byte>, i: nat, n: nat)
    requires i + n <= |data|
    ensures data[..i] + data[i..][..n] == data[..i + n] && data[i..][n..] == data[i + n..]
  {
  }

  /** What follows the whole bytes of a message of `length` bits: the bits that are left, with
      the first bit of the padding. */
  function LastByte(data: seq<byte>, length: nat): byte
    requires length <= 8 * |data|
  {
    if length % 8 == 0 then 0x80 else WithOne(data[length / 8], length % 8)
  }

  /** The length in bits as the firmware computes it, in 32 bits. */
  function TotalBits(counter: u32, length: nat): (bits: nat) {
    (counter * 512 + length) % 0x1_0000_0000
  }

  function WithOne(t: byte, r: nat): byte
    requires r < 8
  {
    ((t as bv8) | ((0x80 as bv8) >> r)) as byte
  }

  /** The standard clears the bits behind the message: the first `r` bits of `t`, then a one,
      then zeros. */
  function StandardLast(t: byte, r: nat): byte
    requires r < 8
  {
    (((t as bv8) & !((0xFF as bv8) >> r)) | ((0x80 as bv8) >> r)) as byte
  }

  /** The firmware leaves the bits behind a message that does not end with a whole byte as they
      are, so its padding is that of the standard if and only if they are zero. */
  lemma LastByteIsStandard(t: byte, r: nat)
    requires r < 8
    ensures WithOne(t, r) == StandardLast(t, r) <==> (t as bv8) & ((0x7F as bv8) >> r) == 0
  {
    LastBits(t as bv8, r);
  }

  lemma LastBits(t: bv8, r: nat)
    requires r < 8
    ensures t | ((0x80 as bv8) >> r) == (t & !((0xFF as bv8) >> r)) | ((0x80 as bv8) >> r) <==> t & ((0x7F as bv8) >> r) == 0
  {
  }

  lemma AbsorbNothing(r: Registers)
    ensures Absorb(r, []) == r
  {
  }

  lemma BlockCounted(counter: u32, left: nat)
    requires left >= 512
    ensures TotalBits((counter + 1) % 0x1_0000_0000, left - 512) == TotalBits(counter, left)
  {
  }

  /** Fewer than 56 bytes: the padding fits. */
  lemma OneBlock(m: seq<byte>, last: byte, bits: nat, b: Block)
    requires |m| < 56 && forall i :: 0 <= i < 56 ==> b[i] == if i < |m| then m[i] else if i == |m| then last else 0
    requires b[56..] == LittleEndian(bits, 8)
    ensures PaddedAfter(m, last, bits) == b
  {
    hide LittleEndian;
    assert Zeros(|m|) == 55 - |m|;
    assert PaddedAfter(m, last, bits)[..56] == b[..56];
    assert b == b[..56] + b[56..];
  }

  /** 56 bytes or more: it takes a block more. */
  lemma TwoBlocks(m: seq<byte>, last: byte, bits: nat, first: Block, second: Block)
    requires 56 <= |m| < 64 && forall i :: 0 <= i < 64 ==> first[i] == if i < |m| then m[i] else if i == |m| then last else 0
    requires forall i :: 0 <= i < 56 ==> second[i] == 0
    requires second[56..] == LittleEndian(bits, 8)
    ensures PaddedAfter(m, last, bits) == first + second
  {
    hide LittleEndian;
    assert Zeros(|m|) == 119 - |m|;
    assert PaddedAfter(m, last, bits)[..120] == first + second[..56];
    assert second == second[..56] + second[56..];
  }

  lemma PaddingOfRest(whole: seq<byte>, rest: seq<byte>, last: byte, bits: nat)
    requires |whole| % 64 == 0
    ensures PaddedAfter(whole + rest, last, bits) == whole + PaddedAfter(rest, last, bits)
  {
    hide LittleEndian;
    SameZeros(|whole|, |rest|);
  }

  lemma SameZeros(whole: nat, rest: nat)
    requires whole % 64 == 0
    ensures Zeros(whole + rest) == Zeros(rest)
  {
    assert (whole + rest) % 64 == rest % 64;
  }

  // ---------- the digest ----------

  /** Hash a message: any number of its whole blocks one by one, and the rest at once. */
  method Hash(m: seq<byte>, blocks: nat) returns (a: Registers)
    requires 64 * blocks <= |m| && 8 * (|m| - 64 * blocks) < 0x1_0000
    ensures a == Absorb(INIT, PaddedWith(m, 8 * |m| % 0x1_0000_0000))
  {
    hide Absorb, PaddedAfter, Compress, TotalBits;
    var context := new Context();
    AbsorbNothing(INIT);
    assert m[..0] == [];
    for i := 0 to blocks
      invariant context.a == Absorb(INIT, m[..64 * i]) && context.counter == i % 0x1_0000_0000
      invariant fresh(context)
    {
      var block := m[64 * i..64 * (i + 1)];
      AbsorbOn(INIT, m[..64 * i], block);
      AbsorbBlock(context.a, block);
      assert m[..64 * i] + block == m[..64 * (i + 1)];
      context.NextBlock(block);
    }
    var rest := m[64 * blocks..];
    var length := 8 * |rest|;
    LengthOfAll(blocks, length);
    context.LastBlock(rest, length);
    PaddingOfRest(m[..64 * blocks], rest, 0x80, 8 * |m| % 0x1_0000_0000);
    AbsorbOn(INIT, m[..64 * blocks], PaddedWith(rest, 8 * |m| % 0x1_0000_0000));
    assert m[..64 * blocks] + rest == m && rest[..length / 8] == rest;
    a := context.a;
  }

  lemma LengthOfAll(blocks: nat, length: nat)
    ensures TotalBits(blocks % 0x1_0000_0000, length) == (512 * blocks + length) % 0x1_0000_0000
  {
    SameRemainder(blocks, blocks / 0x1_0000_0000, blocks % 0x1_0000_0000, length);
  }

  lemma SameRemainder(n: nat, q: nat, r: nat, length: nat)
    requires n == q * 0x1_0000_0000 + r
    ensures (r * 512 + length) % 0x1_0000_0000 == (512 * n + length) % 0x1_0000_0000
  {
    var inner := r * 512 + length;
    ModulusIsUnique(512 * n + length, 0x1_0000_0000, 512 * q + inner / 0x1_0000_0000, inner % 0x1_0000_0000);
  }

  /** The firmware pads as the standard does if and only if the message has less than 2 to the
      32 bits, or its length comes to the same in 32 and in 64 bits. */
  lemma PaddingIsStandard(m: seq<byte>)
    ensures PaddedWith(m, 8 * |m| % 0x1_0000_0000) == Padded(m) <==> 8 * |m| % 0x1_0000_0000_0000_0000 < 0x1_0000_0000
  {
    hide LittleEndian, PaddedWith;
    var bits, all := 8 * |m| % 0x1_0000_0000, 8 * |m| % 0x1_0000_0000_0000_0000;
    TailOf(m, bits);
    TailOf(m, all);
    CutTwice(8 * |m|);
    if PaddedWith(m, bits) == Padded(m) {
      LittleEndianTells(bits, all, 8);
    }
  }

  lemma TailOf(m: seq<byte>, bits: nat)
    ensures |m| + 1 + Zeros(|m|) <= |PaddedWith(m, bits)| && PaddedWith(m, bits)[|m| + 1 + Zeros(|m|)..] == LittleEndian(bits, 8)
  {
    hide LittleEndian, Zeros;
  }

  lemma CutTwice(n: nat)
    ensures n % 0x1_0000_0000 == n % 0x1_0000_0000_0000_0000 % 0x1_0000_0000
  {
  }

  function Pow256(k: nat): nat {
    if k == 0 then 1 else 0x100 * Pow256(k - 1)
  }

  lemma {:induction false} LittleEndianTells(n: nat, m: nat, k: nat)
    requires n < Pow256(k) && m < Pow256(k) && LittleEndian(n, k) == LittleEndian(m, k)
    ensures n == m
    decreases k
  {
    if k > 0 {
      var s, t := LittleEndian(n, k), LittleEndian(m, k);
      assert s[0] == t[0] && s[1..] == LittleEndian(n / 0x100, k - 1) && t[1..] == LittleEndian(m / 0x100, k - 1);
      LittleEndianTells(n / 0x100, m / 0x100, k - 1);
    }
  }

  /** Below 2 to the 32 bits, wherever the caller stops feeding single blocks, the result is
      the digest of the standard. */
  lemma DigestIsStandard(m: seq<byte>)
    requires 8 * |m| < 0x1_0000_0000
    ensures Absorb(INIT, PaddedWith(m, 8 * |m| % 0x1_0000_0000)) == Digest(m)
  {
    hide Absorb, Compress, PaddedWith;
    PaddingIsStandard(m);
  }
}
