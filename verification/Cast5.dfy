/** The CAST-128 block cipher of RFC 2144: the Feistel rounds over any round functions, and
    the packed rotation keys. */
module Cast5 {
  import opened Bits
  import opened Words

  type byte = bv8
  /** What a round mixes into the other half, for every round number: an arbitrary function. */
  type RoundFunction = (nat, word) -> word

  lemma XorCancels(a: word, b: word)
    ensures Xor(Xor(a, b), b) == a
  {
  }

  // ---------- the rounds ----------

  datatype Halves = Halves(l: word, r: word)

  function Round(f: RoundFunction, i: nat, h: Halves): Halves {
    Halves(h.r, Xor(h.l, f(i, h.r)))
  }

  /** The rounds 0 to `n` - 1. */
  function Rounds(f: RoundFunction, n: nat, h: Halves): Halves {
    if n == 0 then h else Round(f, n - 1, Rounds(f, n - 1, h))
  }

  /** The rounds `n` - 1 to 0. */
  function RoundsBack(f: RoundFunction, n: nat, h: Halves): Halves {
    if n == 0 then h else RoundsBack(f, n - 1, Round(f, n - 1, h))
  }

  function Swap(h: Halves): Halves {
    Halves(h.r, h.l)
  }

  function Encrypt(f: RoundFunction, n: nat, h: Halves): Halves {
    Swap(Rounds(f, n, h))
  }

  function Decrypt(f: RoundFunction, n: nat, h: Halves): Halves {
    Swap(RoundsBack(f, n, h))
  }

  /** A round done again on the swapped halves takes itself back. */
  lemma RoundTwice(f: RoundFunction, i: nat, h: Halves)
    ensures Round(f, i, Swap(Round(f, i, h))) == Swap(h)
  {
    hide Xor;
    XorCancels(h.l, f(i, h.r));
  }

  lemma {:induction false} BackUndoesRounds(f: RoundFunction, n: nat, h: Halves)
    ensures RoundsBack(f, n, Swap(Rounds(f, n, h))) == Swap(h)
  {
    hide Round;
    if n > 0 {
      RoundTwice(f, n - 1, Rounds(f, n - 1, h));
      BackUndoesRounds(f, n - 1, h);
    }
  }

  lemma {:induction false} RoundsUndoBack(f: RoundFunction, n: nat, h: Halves)
    ensures Rounds(f, n, Swap(RoundsBack(f, n, h))) == Swap(h)
    decreases n
  {
    hide Round;
    if n > 0 {
      RoundsUndoBack(f, n - 1, Round(f, n - 1, h));
      RoundTwice(f, n - 1, h);
    }
  }

  /** For any round functions and any number of rounds, so for 12 and for 16. */
  lemma DecryptUndoesEncrypt(f: RoundFunction, n: nat, h: Halves)
    ensures Decrypt(f, n, Encrypt(f, n, h)) == h
    ensures Encrypt(f, n, Decrypt(f, n, h)) == h
  {
    BackUndoesRounds(f, n, h);
    RoundsUndoBack(f, n, h);
  }

  // ---------- the context ----------

  /** The substitution boxes S1 to S4. */
  datatype Boxes = Boxes(s1: byte -> word, s2: byte -> word, s3: byte -> word, s4: byte -> word)

  function ChangeEndian(x: word): word {
    (x << 24) | (x >> 24) | ((x & 0xff00) << 8) | ((x & 0xff0000) >> 8)
  }

  /** `cast5_f1`, `cast5_f2` and `cast5_f3` */
  function F(kind: nat, boxes: Boxes, d: word, m: word, r: byte): word {
    var t := RotateLeft(if kind == 0 then Plus(d, m) else if kind == 1 then Xor(d, m) else Minus(m, d), r);
    var a, b, c, e := boxes.s1(ByteOf(t, 3)), boxes.s2(ByteOf(t, 2)), boxes.s3(ByteOf(t, 1)), boxes.s4(ByteOf(t, 0));
    if kind == 0 then Plus(Minus(Xor(a, b), c), e) else if kind == 1 then Xor(Plus(Minus(a, b), c), e) else Minus(Xor(Plus(a, b), c), e)
  }

  datatype Keys = Keys(mask: seq<word>, rotl: seq<byte>, roth: seq<byte>, shortkey: bool)

  predicate AreKeys(k: Keys) {
    |k.mask| == 16 && |k.rotl| == 8 && |k.roth| == 2
  }

  /** The rotation of round `i`: four bits from one place and the fifth from another. */
  function Rotation(rotl: seq<byte>, roth: seq<byte>, i: nat): (r: byte)
    requires |rotl| == 8 && |roth| == 2 && i < 16
  {
    Rejoined(IsSet(roth[i / 8], i % 8), Nibble(rotl[i / 2], i % 2))
  }

  function Rejoined(fifth: bool, low: byte): byte {
    (if fifth then 0x10 else 0x00) + low
  }

  function Nibble(b: byte, half: nat): byte {
    (if half == 1 then b >> 4 else b) & 0x0f
  }

  /** The round function that the keys make. */
  function RoundOf(boxes: Boxes, k: Keys): RoundFunction
    requires AreKeys(k)
  {
    (i: nat, r: word) =>
      if i < 16 then ChangeEndian(F(i % 3, boxes, ChangeEndian(r), ChangeEndian(k.mask[i]), Rotation(k.rotl, k.roth, i)))
      else 0
  }

  function RoundCount(k: Keys): nat {
    if k.shortkey then 12 else 16
  }

  /** `cast5_enc` */
  method CastEnc(boxes: Boxes, k: Keys, block: array<word>)
    requires AreKeys(k) && block.Length == 2
    modifies block
    ensures Halves(block[0], block[1]) == Encrypt(RoundOf(boxes, k), RoundCount(k), old(Halves(block[0], block[1])))
  {
    hide Rounds, F, ChangeEndian, Rotation, Xor;
    var l, r := block[0], block[1];
    ghost var f, h := RoundOf(boxes, k), Halves(l, r);
    RoundsStep(f, 0, h);
    for i := 0 to RoundCount(k)
      invariant Halves(l, r) == Rounds(f, i, h) && Halves(block[0], block[1]) == h
    {
      RoundsStep(f, i, h);
      var x := r;
      var y := F(i % 3, boxes, ChangeEndian(r), ChangeEndian(k.mask[i]), Rotation(k.rotl, k.roth, i));
      r := Xor(l, ChangeEndian(y));
      l := x;
    }
    block[0], block[1] := r, l;
  }

  /** `cast5_dec` */
  method CastDec(boxes: Boxes, k: Keys, block: array<word>)
    requires AreKeys(k) && block.Length == 2
    modifies block
    ensures Halves(block[0], block[1]) == Decrypt(RoundOf(boxes, k), RoundCount(k), old(Halves(block[0], block[1])))
  {
    hide RoundsBack, F, ChangeEndian, Rotation, Xor;
    var l, r := block[0], block[1];
    ghost var f, h := RoundOf(boxes, k), Halves(l, r);
    var i: int := RoundCount(k) - 1;
    while i >= 0
      invariant -1 <= i < RoundCount(k)
      invariant RoundsBack(f, i + 1, Halves(l, r)) == RoundsBack(f, RoundCount(k), h) && Halves(block[0], block[1]) == h
    {
      BackStep(f, i + 1, Halves(l, r));
      var x := r;
      var y := F(i % 3, boxes, ChangeEndian(r), ChangeEndian(k.mask[i]), Rotation(k.rotl, k.roth, i));
      r := Xor(l, ChangeEndian(y));
      l := x;
      i := i - 1;
    }
    BackStep(f, 0, Halves(l, r));
    block[0], block[1] := r, l;
  }

  lemma RoundsStep(f: RoundFunction, n: nat, h: Halves)
    ensures Rounds(f, n + 1, h) == Round(f, n, Rounds(f, n, h)) && Rounds(f, 0, h) == h
  {
  }

  lemma BackStep(f: RoundFunction, n: nat, h: Halves)
    ensures RoundsBack(f, n, h) == if n == 0 then h else RoundsBack(f, n - 1, Round(f, n - 1, h))
  {
  }

  /** The implementation decrypts what it encrypts, in place. */
  method RoundTrip(boxes: Boxes, k: Keys, block: array<word>)
    requires AreKeys(k) && block.Length == 2
    modifies block
    ensures block[..] == old(block[..])
  {
    hide Encrypt, Decrypt, RoundOf;
    ghost var h := Halves(block[0], block[1]);
    CastEnc(boxes, k, block);
    CastDec(boxes, k, block);
    DecryptUndoesEncrypt(RoundOf(boxes, k), RoundCount(k), h);
  }

  // ---------- packing the rotation keys ----------

  function Or(a: byte, b: byte): byte { a | b }
  function LowNibble(t: byte): byte { t & 0x0f }
  function Raised(t: byte): byte { t << 4 }
  function LowFive(t: byte): byte { t & 0x1f }
  predicate Fifth(t: byte) { t & 0x10 != 0 }

  /** Collect bit 4 of a byte in front of those collected before. */
  function ShiftIn(h: byte, t: byte): byte {
    (h | (t & 0x10)) >> 1
  }

  function Fifths(t: seq<byte>): byte
    requires |t| == 4
  {
    ShiftIn(ShiftIn(ShiftIn(ShiftIn(0, t[0]), t[1]), t[2]), t[3])
  }

  /** `cast5_init_rM`, with the four bytes taken from the boxes in `t`: the low five bits of
      each go to two places. */
  method PackRotations(rotl: seq<byte>, roth: seq<byte>, offset: nat, t: seq<byte>) returns (rotl': seq<byte>, roth': seq<byte>)
    requires |rotl| == 8 && |roth| == 2 && offset < 4 && |t| == 4
    ensures |rotl'| == 8 && |roth'| == 2
    ensures rotl'[2 * offset] == Or(Or(rotl[2 * offset], LowNibble(t[0])), Raised(t[1]))
    ensures rotl'[2 * offset + 1] == Or(Or(rotl[2 * offset + 1], LowNibble(t[2])), Raised(t[3]))
    ensures forall m :: 0 <= m < 8 && m != 2 * offset && m != 2 * offset + 1 ==> rotl'[m] == rotl[m]
    ensures roth'[offset / 2] == Or(roth[offset / 2], if offset % 2 == 1 then Raised(Fifths(t)) else Fifths(t))
    ensures roth'[1 - offset / 2] == roth[1 - offset / 2]
  {
    hide Or, LowNibble, Raised, ShiftIn;
    rotl', roth' := rotl, roth;
    var h := ShiftIn(0, t[0]);
    rotl' := rotl'[offset * 2 := Or(rotl'[offset * 2], LowNibble(t[0]))];
    rotl' := rotl'[offset * 2 := Or(rotl'[offset * 2], Raised(t[1]))];
    h := ShiftIn(h, t[1]);
    rotl' := rotl'[offset * 2 + 1 := Or(rotl'[offset * 2 + 1], LowNibble(t[2]))];
    h := ShiftIn(h, t[2]);
    rotl' := rotl'[offset * 2 + 1 := Or(rotl'[offset * 2 + 1], Raised(t[3]))];
    h := ShiftIn(h, t[3]);
    roth' := roth'[offset / 2 := Or(roth'[offset / 2], if offset % 2 == 1 then Raised(h) else h)];
  }

  lemma FiveBits(t: byte)
    ensures Rejoined(Fifth(t), LowNibble(t)) == LowFive(t)
  {
  }

  /** The rotation part of `cast5_init`: a round gets back the low five bits of its byte. */
  method PackAll(t: seq<byte>) returns (rotl: seq<byte>, roth: seq<byte>)
    requires |t| == 16
    ensures |rotl| == 8 && |roth| == 2
    ensures forall i: nat :: i < 16 ==> Rotation(rotl, roth, i) == LowFive(t[i])
  {
    hide Fifths, LowNibble, Raised, Or, Nibble, IsSet, Rejoined, LowFive, Fifth, Rotation;
    rotl, roth := [0, 0, 0, 0, 0, 0, 0, 0], [0, 0];
    rotl, roth := PackRotations(rotl, roth, 0, t[0..4]);
    rotl, roth := PackRotations(rotl, roth, 1, t[4..8]);
    assert AreLow(rotl, t, 4) && roth == [Or(Or(0, Fifths(t[0..4])), Raised(Fifths(t[4..8]))), 0];
    rotl, roth := PackRotations(rotl, roth, 2, t[8..12]);
    rotl, roth := PackRotations(rotl, roth, 3, t[12..16]);
    RotationsArePacked(rotl, roth, t);
  }

  /** The first `n` bytes hold the low nibbles of `2 * n` bytes; the others are zero. */
  predicate AreLow(rotl: seq<byte>, t: seq<byte>, n: nat)
    requires |t| == 16 && n <= 8
  {
    && |rotl| == 8 && (forall m: nat :: m < n ==> rotl[m] == Or(Or(0, LowNibble(t[2 * m])), Raised(t[2 * m + 1])))
    && forall m: nat :: n <= m < 8 ==> rotl[m] == 0
  }

  lemma RotationsArePacked(rotl: seq<byte>, roth: seq<byte>, t: seq<byte>)
    requires |t| == 16 && |roth| == 2 && AreLow(rotl, t, 8)
    requires roth[0] == Or(Or(0, Fifths(t[0..4])), Raised(Fifths(t[4..8])))
    requires roth[1] == Or(Or(0, Fifths(t[8..12])), Raised(Fifths(t[12..16])))
    ensures forall i: nat :: i < 16 ==> Rotation(rotl, roth, i) == LowFive(t[i])
  {
    hide Fifths, LowNibble, Raised, Or, Nibble, IsSet, Rejoined, LowFive, Fifth;
    forall i: nat | i < 16
      ensures Rotation(rotl, roth, i) == LowFive(t[i])
    {
      LowIsPacked(rotl, t, i);
      FifthIsPacked(roth, t, i);
      FiveBits(t[i]);
    }
  }

  lemma LowIsPacked(rotl: seq<byte>, t: seq<byte>, i: nat)
    requires |rotl| == 8 && |t| == 16 && i < 16
    requires forall m: nat :: m < 8 ==> rotl[m] == Or(Or(0, LowNibble(t[2 * m])), Raised(t[2 * m + 1]))
    ensures Nibble(rotl[i / 2], i % 2) == LowNibble(t[i])
  {
  }

  lemma FifthIsPacked(roth: seq<byte>, t: seq<byte>, i: nat)
    requires |roth| == 2 && |t| == 16 && i < 16
    requires roth[0] == Or(Or(0, Fifths(t[0..4])), Raised(Fifths(t[4..8])))
    requires roth[1] == Or(Or(0, Fifths(t[8..12])), Raised(Fifths(t[12..16])))
    ensures IsSet(roth[i / 8], i % 8) <==> Fifth(t[i])
  {
    hide Fifths, Raised, Or, IsSet, Fifth;
    if i < 8 {
      assert t[0..8][0..4] == t[0..4] && t[0..8][4..8] == t[4..8];
      FifthInByte(roth[0], t[0..8], i);
    } else {
      assert t[8..16][0..4] == t[8..12] && t[8..16][4..8] == t[12..16];
      FifthInByte(roth[1], t[8..16], i - 8);
    }
  }

  lemma FifthInByte(b: byte, t: seq<byte>, j: nat)
    requires |t| == 8 && j < 8 && b == Or(Or(0, Fifths(t[0..4])), Raised(Fifths(t[4..8])))
    ensures IsSet(b, j) <==> Fifth(t[j])
  {
  }
}
