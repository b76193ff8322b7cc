/** The CAST-128 encryption of RFC 2144 over numbers, written from the standard, and that the
    firmware computes it. */
module Rfc2144 {
  import opened Integers
  import opened W = Words
  import C = Cast5
  import B = Bits
  import K = Cast5Keys

  // ---------- sections 2.1 and 2.2 ----------

  function Look(box: bv8 -> word, i: int): nat {
    Number(box((i % 0x100) as bv8))
  }

  /** The round function of the three types: `d` is the data, `km` the masking key and `kr` the
      rotation key. */
  function Value(boxes: C.Boxes, kind: nat, d: nat, km: nat, kr: nat): nat
    requires kr < 32
  {
    var i := RotatedNumber(match kind case 0 => (km + d) % TWO_TO_THE_32 case 1 => XorNumbers(km, d) case _ => (km - d) % TWO_TO_THE_32, kr);
    var (ia, ib, ic, id) := (Look(boxes.s1, i / 0x100_0000), Look(boxes.s2, i / 0x1_0000), Look(boxes.s3, i / 0x100), Look(boxes.s4, i));
    match kind
    case 0 => (XorNumbers(ia, ib) - ic + id) % TWO_TO_THE_32
    case 1 => XorNumbers((ia - ib + ic) % TWO_TO_THE_32, id)
    case _ => (XorNumbers((ia + ib) % TWO_TO_THE_32, ic) - id) % TWO_TO_THE_32
  }

  datatype Pair = Pair(l: nat, r: nat)

  /** The left half becomes the right one of the round before, and the right one the exclusive or
      of the left one with the round function of type 1, 2, 3, 1, 2, 3 and so on. */
  function StandardRounds(boxes: C.Boxes, km: seq<nat>, kr: seq<nat>, n: nat, h: Pair): Pair
    requires |km| == |kr| == 16 && n <= 16 && forall i :: 0 <= i < 16 ==> kr[i] < 32
  {
    if n == 0 then h
    else
      var p := StandardRounds(boxes, km, kr, n - 1, h);
      Pair(p.r, XorNumbers(p.l, Value(boxes, (n - 1) % 3, p.r, km[n - 1], kr[n - 1])))
  }

  /** The halves are exchanged at the end. */
  function StandardEncrypt(boxes: C.Boxes, km: seq<nat>, kr: seq<nat>, rounds: nat, h: Pair): Pair
    requires |km| == |kr| == 16 && rounds <= 16 && forall i :: 0 <= i < 16 ==> kr[i] < 32
  {
    var p := StandardRounds(boxes, km, kr, rounds, h);
    Pair(p.r, p.l)
  }

  // ---------- words in memory ----------

  /** The number that four bytes make that were loaded as a little endian word, the first of
      them highest. */
  function BigEndian(x: word): nat {
    0x100_0000 * ByteOf(x, 0) as int + 0x1_0000 * ByteOf(x, 1) as int + 0x100 * ByteOf(x, 2) as int + ByteOf(x, 3) as int
  }

  lemma EndianIsChanged(x: word)
    ensures Number(C.ChangeEndian(x)) == BigEndian(x)
  {
    hide ByteOf, C.ChangeEndian, Number;
    BytesChanged(x);
    NumberOfBytes(C.ChangeEndian(x));
  }

  lemma BytesChanged(x: word)
    ensures ByteOf(C.ChangeEndian(x), 0) == ByteOf(x, 3) && ByteOf(C.ChangeEndian(x), 1) == ByteOf(x, 2)
    ensures ByteOf(C.ChangeEndian(x), 2) == ByteOf(x, 1) && ByteOf(C.ChangeEndian(x), 3) == ByteOf(x, 0)
  {
  }

  lemma ChangedTwice(x: word, y: word)
    ensures C.ChangeEndian(Xor(x, C.ChangeEndian(y))) == Xor(C.ChangeEndian(x), y)
  {
  }

  // ---------- the round functions ----------

  lemma LookedUp(box: bv8 -> word, x: word, i: nat)
    requires i < 4
    ensures Number(box(ByteOf(x, i))) == Look(box, Number(x) / Pow2(8 * i))
  {
    hide ByteOf, Pow2, Number;
    ByteOfNumber(x, i);
    ThereAndBack(ByteOf(x, i));
  }

  lemma ThereAndBack(b: bv8)
    ensures (b as int) as bv8 == b
  {
  }

  lemma FirstLook(box: bv8 -> word, x: word)
    ensures Number(box(ByteOf(x, 3))) == Look(box, Number(x) / 0x100_0000)
  {
    hide ByteOf, Pow2, Number, Look;
    PowersOf2();
    LookedUp(box, x, 3);
  }

  lemma SecondLook(box: bv8 -> word, x: word)
    ensures Number(box(ByteOf(x, 2))) == Look(box, Number(x) / 0x1_0000)
  {
    hide ByteOf, Pow2, Number, Look;
    PowersOf2();
    LookedUp(box, x, 2);
  }

  lemma ThirdLook(box: bv8 -> word, x: word)
    ensures Number(box(ByteOf(x, 1))) == Look(box, Number(x) / 0x100)
  {
    hide ByteOf, Pow2, Number, Look;
    PowersOf2();
    LookedUp(box, x, 1);
  }

  lemma FourthLook(box: bv8 -> word, x: word)
    ensures Number(box(ByteOf(x, 0))) == Look(box, Number(x))
  {
    hide ByteOf, Pow2, Number, Look;
    PowerStep(0);
    LookedUp(box, x, 0);
  }

  /** What is rotated: the sum, the exclusive or, or the difference of data and masking key. */
  lemma MaskedIsStandard(kind: nat, d: word, m: word)
    ensures Number(if kind == 0 then Plus(d, m) else if kind == 1 then Xor(d, m) else Minus(m, d))
      == (match kind case 0 => (Number(m) + Number(d)) % TWO_TO_THE_32 case 1 => XorNumbers(Number(m), Number(d)) case _ => (Number(m) - Number(d)) % TWO_TO_THE_32)
  {
    hide Number, Plus, Minus, Xor, XorNumbers;
    SumOfNumbers(d, m);
    XorOfNumbers(m, d);
    XorCommutes(m, d);
    DifferenceOfNumbers(m, d);
  }

  lemma XorCommutes(x: word, y: word)
    ensures Xor(x, y) == Xor(y, x)
  {
  }

  lemma ModuloOnce(x: int, y: int)
    ensures (x % TWO_TO_THE_32 + y) % TWO_TO_THE_32 == (x + y) % TWO_TO_THE_32
  {
  }

  /** How the four table entries are combined. */
  lemma FirstCombination(a: word, b: word, c: word, e: word)
    ensures Number(Plus(Minus(Xor(a, b), c), e)) == (XorNumbers(Number(a), Number(b)) - Number(c) + Number(e)) % TWO_TO_THE_32
  {
    hide Number, Plus, Minus, Xor, XorNumbers;
    XorOfNumbers(a, b);
    DifferenceOfNumbers(Xor(a, b), c);
    SumOfNumbers(Minus(Xor(a, b), c), e);
    ModuloOnce(XorNumbers(Number(a), Number(b)) - Number(c), Number(e));
  }

  lemma SecondCombination(a: word, b: word, c: word, e: word)
    ensures Number(Xor(Plus(Minus(a, b), c), e)) == XorNumbers((Number(a) - Number(b) + Number(c)) % TWO_TO_THE_32, Number(e))
  {
    hide Number, Plus, Minus, Xor, XorNumbers;
    DifferenceOfNumbers(a, b);
    SumOfNumbers(Minus(a, b), c);
    ModuloOnce(Number(a) - Number(b), Number(c));
    XorOfNumbers(Plus(Minus(a, b), c), e);
  }

  lemma ThirdCombination(a: word, b: word, c: word, e: word)
    ensures Number(Minus(Xor(Plus(a, b), c), e)) == (XorNumbers((Number(a) + Number(b)) % TWO_TO_THE_32, Number(c)) - Number(e)) % TWO_TO_THE_32
  {
    hide Number, Plus, Minus, Xor, XorNumbers;
    SumOfNumbers(a, b);
    XorOfNumbers(Plus(a, b), c);
    DifferenceOfNumbers(Xor(Plus(a, b), c), e);
  }

  /** The functions of the firmware are the three types of round function. */
  lemma ValueIsStandard(boxes: C.Boxes, kind: nat, d: word, m: word, r: bv8)
    requires kind < 3 && Distance(r) < 32
    ensures Number(C.F(kind, boxes, d, m, r)) == Value(boxes, kind, Number(d), Number(m), Distance(r))
  {
    hide Number, Plus, Minus, Xor, XorNumbers, RotateLeft, RotatedNumber, ByteOf, Look, Distance;
    var masked := if kind == 0 then Plus(d, m) else if kind == 1 then Xor(d, m) else Minus(m, d);
    var t := RotateLeft(masked, r);
    MaskedIsStandard(kind, d, m);
    RotationBy(masked, r);
    FirstLook(boxes.s1, t);
    SecondLook(boxes.s2, t);
    ThirdLook(boxes.s3, t);
    FourthLook(boxes.s4, t);
    var a, b, c, e := boxes.s1(ByteOf(t, 3)), boxes.s2(ByteOf(t, 2)), boxes.s3(ByteOf(t, 1)), boxes.s4(ByteOf(t, 0));
    FirstCombination(a, b, c, e);
    SecondCombination(a, b, c, e);
    ThirdCombination(a, b, c, e);
  }

  // ---------- the rounds ----------

  function Masks(k: C.Keys): (km: seq<nat>)
    requires C.AreKeys(k)
    ensures |km| == 16
  {
    seq(16, i requires 0 <= i < 16 => BigEndian(k.mask[i]))
  }

  function Rotations(k: C.Keys): (kr: seq<nat>)
    requires C.AreKeys(k)
    ensures |kr| == 16
  {
    seq(16, i requires 0 <= i < 16 => Distance(C.Rotation(k.rotl, k.roth, i)))
  }

  lemma RotationIsSmall(k: C.Keys, i: nat)
    requires C.AreKeys(k) && i < 16
    ensures Distance(C.Rotation(k.rotl, k.roth, i)) < 32
  {
    hide B.IsSet;
    FiveBitsAreSmall(B.IsSet(k.roth[i / 8], i % 8), k.rotl[i / 2], i % 2);
  }

  lemma FiveBitsAreSmall(fifth: bool, b: bv8, half: nat)
    ensures Distance(C.Rejoined(fifth, C.Nibble(b, half))) < 32
  {
  }

  function PairOf(h: C.Halves): Pair {
    Pair(BigEndian(h.l), BigEndian(h.r))
  }

  lemma RoundIsStandard(boxes: C.Boxes, k: C.Keys, i: nat, h: C.Halves)
    requires C.AreKeys(k) && i < 16
    ensures Distance(C.Rotation(k.rotl, k.roth, i)) < 32
    ensures PairOf(C.Round(C.RoundOf(boxes, k), i, h)) ==
      Pair(BigEndian(h.r), XorNumbers(BigEndian(h.l), Value(boxes, i % 3, BigEndian(h.r), BigEndian(k.mask[i]), Distance(C.Rotation(k.rotl, k.roth, i)))))
  {
    hide C.F, C.ChangeEndian, C.Rotation, Xor, BigEndian, Number, XorNumbers, Value, Distance;
    RotationIsSmall(k, i);
    var r := C.Rotation(k.rotl, k.roth, i);
    var y := C.F(i % 3, boxes, C.ChangeEndian(h.r), C.ChangeEndian(k.mask[i]), r);
    ValueIsStandard(boxes, i % 3, C.ChangeEndian(h.r), C.ChangeEndian(k.mask[i]), r);
    EndianIsChanged(h.r);
    EndianIsChanged(h.l);
    EndianIsChanged(k.mask[i]);
    EndianIsChanged(Xor(h.l, C.ChangeEndian(y)));
    ChangedTwice(h.l, y);
    XorOfNumbers(C.ChangeEndian(h.l), y);
  }

  lemma RotationsAreSmall(k: C.Keys)
    requires C.AreKeys(k)
    ensures forall i :: 0 <= i < 16 ==> Rotations(k)[i] < 32
  {
    hide C.Rotation, Distance;
    forall i | 0 <= i < 16
      ensures Rotations(k)[i] < 32
    {
      RotationIsSmall(k, i);
    }
  }

  lemma {:induction false} RoundsAreStandard(boxes: C.Boxes, k: C.Keys, n: nat, h: C.Halves)
    requires C.AreKeys(k) && n <= 16
    requires forall i :: 0 <= i < 16 ==> Rotations(k)[i] < 32
    ensures PairOf(C.Rounds(C.RoundOf(boxes, k), n, h)) == StandardRounds(boxes, Masks(k), Rotations(k), n, PairOf(h))
  {
    hide PairOf, C.RoundOf, C.Round, Value, BigEndian, C.Rotation, Distance, XorNumbers;
    if n > 0 {
      RoundsAreStandard(boxes, k, n - 1, h);
      RoundIsStandard(boxes, k, n - 1, C.Rounds(C.RoundOf(boxes, k), n - 1, h));
      PairIs(C.Rounds(C.RoundOf(boxes, k), n - 1, h));
    }
  }

  lemma PairIs(h: C.Halves)
    ensures PairOf(h) == Pair(BigEndian(h.l), BigEndian(h.r))
  {
  }

  /** The encryption of the firmware is that of the standard, with 12 rounds for a short key and
      16 otherwise. */
  lemma EncryptIsRfc2144(boxes: C.Boxes, k: C.Keys, h: C.Halves)
    requires C.AreKeys(k)
    ensures forall i :: 0 <= i < 16 ==> Rotations(k)[i] < 32
    ensures PairOf(C.Encrypt(C.RoundOf(boxes, k), C.RoundCount(k), h)) ==
      StandardEncrypt(boxes, Masks(k), Rotations(k), if k.shortkey then 12 else 16, PairOf(h))
  {
    hide C.RoundOf, C.Rounds, StandardRounds, BigEndian, Masks, Rotations;
    RotationsAreSmall(k);
    RoundsAreStandard(boxes, k, C.RoundCount(k), h);
  }

  // ---------- from the key to the block ----------

  /** Section 2.4: the words K1 to K16 of the schedule mask, K17 to K32 rotate by their low five
      bits. */
  function StandardMasks(boxes: K.KeyBoxes, key: K.Words): (km: seq<nat>)
    ensures |km| == 16
  {
    seq(16, i requires 0 <= i < 16 => BigEndian(K.Schedule(boxes, key).0[i]))
  }

  function StandardRotations(boxes: K.KeyBoxes, key: K.Words): (kr: seq<nat>)
    ensures |kr| == 16 && forall i :: 0 <= i < 16 ==> kr[i] < 32
  {
    seq(16, i requires 0 <= i < 16 => BigEndian(K.Schedule(boxes, key).1[i]) % 32)
  }

  lemma LowFiveIsModulo(x: word)
    ensures Distance(C.LowFive(K.Top(x))) == BigEndian(x) % 32
  {
    hide ByteOf, C.LowFive, Distance;
    LowFiveOf(ByteOf(x, 3));
    LowestModulo(ByteOf(x, 0) as int, ByteOf(x, 1) as int, ByteOf(x, 2) as int, ByteOf(x, 3) as int);
  }

  lemma LowestModulo(a: nat, b: nat, c: nat, d: nat)
    ensures (0x100_0000 * a + 0x1_0000 * b + 0x100 * c + d) % 32 == d % 32
  {
    ModulusIsUnique(0x100_0000 * a + 0x1_0000 * b + 0x100 * c + d, 32, 0x8_0000 * a + 0x800 * b + 8 * c + d / 32, d % 32);
  }

  lemma LowFiveOf(b: bv8)
    ensures Distance(C.LowFive(b)) == b as int % 32
  {
  }

  /** Set up a key and encrypt a block: with up to 80 bits of key 12 rounds of the standard, with
      more of them 16. */
  method SetUpAndEncrypt(keyBoxes: K.KeyBoxes, boxes: C.Boxes, key: seq<bv8>, keyLength: nat, block: array<word>)
    requires keyLength <= 128 && keyLength / 8 <= |key| && block.Length == 2
    modifies block
    ensures var x := K.KeyWords(key, keyLength);
      PairOf(C.Halves(block[0], block[1])) == StandardEncrypt(boxes, StandardMasks(keyBoxes, x), StandardRotations(keyBoxes, x),
        if keyLength <= 80 then 12 else 16, PairOf(old(C.Halves(block[0], block[1]))))
  {
    hide C.Encrypt, C.RoundOf, C.RoundCount, StandardEncrypt, BigEndian, C.Rotation, C.LowFive, K.Top, K.Schedule, Distance, PairOf, K.KeyWords;
    ghost var x := K.KeyWords(key, keyLength);
    var keys := K.Init(keyBoxes, key, keyLength);
    ghost var h := C.Halves(block[0], block[1]);
    C.CastEnc(boxes, keys, block);
    EncryptIsRfc2144(boxes, keys, h);
    assert Masks(keys) == StandardMasks(keyBoxes, x);
    forall i | 0 <= i < 16
      ensures Rotations(keys)[i] == StandardRotations(keyBoxes, x)[i]
    {
      LowFiveIsModulo(K.Schedule(keyBoxes, x).1[i]);
    }
    assert Rotations(keys) == StandardRotations(keyBoxes, x);
  }
}
