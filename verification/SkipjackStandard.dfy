/** The rounds of Skipjack on 16-bit words, written from its specification, and that the
    firmware computes them. */
module SkipjackStandard {
  import W = Words
  import opened Skipjack

  type word16 = bv16
  datatype Quad = Quad(w1: word16, w2: word16, w3: word16, w4: word16)

  /** Where the four key bytes of each round begin, over and over again. */
  const OFFSETS: seq<nat> := [0, 4, 8, 2, 6]

  function High(w: word16): byte { (w >> 8) as bv8 }
  function Low(w: word16): byte { (w & 0xff) as bv8 }
  function Joined(l: byte, r: byte): word16 { ((l as bv16) << 8) | (r as bv16) }

  function HalfStep(f: Table, g: byte, key: byte, before: byte): byte {
    f(g ^ key) ^ before
  }

  /** The permutation G: g3 to g6 from the two bytes of the word, each with the next key byte. */
  function Permuted(f: Table, k: Key, offset: nat, w: word16): word16 {
    var g1, g2 := High(w), Low(w);
    var g3 := HalfStep(f, g2, k[offset % 10], g1);
    var g4 := HalfStep(f, g3, k[(offset + 1) % 10], g2);
    var g5 := HalfStep(f, g4, k[(offset + 2) % 10], g3);
    var g6 := HalfStep(f, g5, k[(offset + 3) % 10], g4);
    Joined(g5, g6)
  }

  /** Rule A in round `n`, which is also the counter. */
  function RoundA(f: Table, k: Key, n: nat, b: Quad): Quad
    requires 1 <= n <= 32
  {
    var g := Permuted(f, k, OFFSETS[(n - 1) % 5], b.w1);
    Quad(g ^ b.w4 ^ (n as bv16), g, b.w2, b.w3)
  }

  /** Rule B in round `n`. */
  function RoundB(f: Table, k: Key, n: nat, b: Quad): Quad
    requires 1 <= n <= 32
  {
    var g := Permuted(f, k, OFFSETS[(n - 1) % 5], b.w1);
    Quad(b.w4, g, b.w1 ^ b.w2 ^ (n as bv16), b.w3)
  }

  /** `count` rounds from round `first` on. */
  function RoundsA(f: Table, k: Key, first: nat, count: nat, b: Quad): Quad
    requires 1 <= first && first + count <= 33
  {
    if count == 0 then b else RoundA(f, k, first + count - 1, RoundsA(f, k, first, count - 1, b))
  }

  function RoundsB(f: Table, k: Key, first: nat, count: nat, b: Quad): Quad
    requires 1 <= first && first + count <= 33
  {
    if count == 0 then b else RoundB(f, k, first + count - 1, RoundsB(f, k, first, count - 1, b))
  }

  /** Eight rounds by rule A, eight by rule B, and both once more. */
  function StandardEncrypt(f: Table, k: Key, b: Quad): Quad {
    RoundsB(f, k, 25, 8, RoundsA(f, k, 17, 8, RoundsB(f, k, 9, 8, RoundsA(f, k, 1, 8, b))))
  }

  // ---------- the bytes of the firmware ----------

  function WordOf(w: Word): word16 {
    Joined(w.l, w.r)
  }

  function QuadOf(b: Block): Quad {
    Quad(WordOf(b.w1), WordOf(b.w2), WordOf(b.w3), WordOf(b.w4))
  }

  lemma HighAndLow(l: byte, r: byte)
    ensures High(Joined(l, r)) == l && Low(Joined(l, r)) == r
  {
  }

  lemma XorIs(a: byte, b: byte)
    ensures Xor(a, b) == a ^ b == b ^ a
  {
  }

  /** Half a step of the firmware is one of the steps g3 to g6. */
  lemma MixedIs(f: Table, key: byte, target: byte, source: byte)
    ensures Mixed(f, key, target, source) == HalfStep(f, source, key, target)
  {
    XorIs(key, source);
    XorIs(target, f(source ^ key));
  }

  lemma GIsStandard(f: Table, k: Key, i: nat, w: Word)
    ensures WordOf(G(f, k, i, w)) == Permuted(f, k, i, WordOf(w))
  {
    hide Joined, High, Low, Mixed, HalfStep;
    HighAndLow(w.l, w.r);
    MixedIs(f, k[i % 10], w.l, w.r);
    var l := Mixed(f, k[i % 10], w.l, w.r);
    MixedIs(f, k[(i + 1) % 10], w.r, l);
    var r := Mixed(f, k[(i + 1) % 10], w.r, l);
    MixedIs(f, k[(i + 2) % 10], l, r);
    var l' := Mixed(f, k[(i + 2) % 10], l, r);
    MixedIs(f, k[(i + 3) % 10], r, l');
  }

  lemma PlusIs(a: Word, b: Word, c: byte)
    ensures WordOf(Plus(a, b, c)) == WordOf(a) ^ WordOf(b) ^ (c as bv16)
  {
  }

  lemma WiderIsSame(x: bv8)
    ensures (x as bv16) as int == x as int
  {
  }

  lemma NumberAndBack16(x: bv16)
    ensures (x as int) as bv16 == x
  {
  }

  lemma CounterIs(n: nat)
    requires n <= 32
    ensures Counter(n) as bv16 == n as bv16
  {
    W.ByteAndBack(n);
    WiderIsSame(Counter(n));
    NumberAndBack16(Counter(n) as bv16);
  }

  lemma KeyIndexIs(n: nat)
    requires 1 <= n <= 32
    ensures KeyIndex(n) == OFFSETS[(n - 1) % 5]
  {
    var q, r := (n - 1) / 5, (n - 1) % 5;
    assert 4 * (n - 1) == 10 * (2 * q) + 4 * r;
  }

  lemma RoundIsStandard(f: Table, k: Key, n: nat, b: Block)
    requires 1 <= n <= 32
    ensures QuadOf(Round(f, k, n, b)) == if n <= 8 || 17 <= n <= 24 then RoundA(f, k, n, QuadOf(b)) else RoundB(f, k, n, QuadOf(b))
  {
    hide G, Plus, WordOf, Permuted, Counter, KeyIndex, OFFSETS;
    var c, i := Counter(n), KeyIndex(n);
    KeyIndexIs(n);
    CounterIs(n);
    GIsStandard(f, k, i, b.w1);
    PlusIs(G(f, k, i, b.w1), b.w4, c);
    PlusIs(b.w1, b.w2, c);
  }

  lemma {:induction false} GroupIsStandard(f: Table, k: Key, first: nat, count: nat, b: Block)
    requires first in {1, 9, 17, 25} && count <= 8
    ensures QuadOf(Rounds(f, k, first + count - 1, b)) ==
      var start := QuadOf(Rounds(f, k, first - 1, b)); if first == 1 || first == 17 then RoundsA(f, k, first, count, start) else RoundsB(f, k, first, count, start)
    decreases count
  {
    hide Round, RoundA, RoundB, QuadOf;
    if count > 0 {
      GroupIsStandard(f, k, first, count - 1, b);
      RoundsStep(f, k, first + count - 1, b);
      RoundIsStandard(f, k, first + count - 1, Rounds(f, k, first + count - 2, b));
    }
  }

  /** The firmware encrypts with the rounds of the specification, for every table and key. */
  lemma EncryptIsStandard(f: Table, k: Key, b: Block)
    ensures QuadOf(Encrypt(f, k, b)) == StandardEncrypt(f, k, QuadOf(b))
  {
    hide Rounds, RoundsA, RoundsB, QuadOf;
    RoundsStep(f, k, 0, b);
    GroupIsStandard(f, k, 1, 8, b);
    GroupIsStandard(f, k, 9, 8, b);
    GroupIsStandard(f, k, 17, 8, b);
    GroupIsStandard(f, k, 25, 8, b);
  }
}
