/** The Skipjack block cipher, in place on eight bytes of an array, over any substitution
    table. */
module Skipjack {

  type byte = bv8
  type Key = k: seq<byte> | |k| == 10 witness seq(10, _ => 0)
  /** The substitution table, an arbitrary function of a byte. */
  type Table = byte -> byte

  const ROUNDS: nat := 32

  function Xor(a: byte, b: byte): byte {
    a ^ b
  }

  lemma XorCancels(a: byte, b: byte)
    ensures Xor(Xor(a, b), b) == a
  {
  }

  lemma XorAssociates(a: byte, b: byte, c: byte)
    ensures Xor(a, Xor(b, c)) == Xor(Xor(a, b), c)
    ensures Xor(a, b) == Xor(b, a)
  {
  }

  lemma XorUndone(a: byte, b: byte)
    ensures Xor(Xor(a, b), a) == b
    ensures Xor(a, Xor(a, b)) == b
  {
  }

  lemma XorUndoneWith(a: byte, b: byte, c: byte)
    ensures Xor(Xor(Xor(Xor(a, b), c), a), c) == b
  {
  }

  lemma XorUndoneAfter(a: byte, b: byte, c: byte)
    ensures Xor(Xor(a, Xor(Xor(a, b), c)), c) == b
  {
  }

  lemma XorUndoneBefore(a: byte, b: byte, c: byte)
    ensures Xor(Xor(b, Xor(Xor(a, b), c)), c) == a
  {
  }

  function Counter(n: nat): byte {
    (n % 0x100) as bv8
  }

  // ---------- the specification: words and rounds ----------

  datatype Word = Word(l: byte, r: byte)
  datatype Block = Block(w1: Word, w2: Word, w3: Word, w4: Word)

  function KeyByte(k: Key, i: nat): byte {
    k[i % 10]
  }

  /** Half a step of the keyed permutation: one byte of a word is mixed into the other. */
  function Mixed(f: Table, key: byte, target: byte, source: byte): byte {
    Xor(target, f(Xor(key, source)))
  }

  /** The keyed permutation G, with the four key bytes from `i` on. */
  function G(f: Table, k: Key, i: nat, w: Word): Word {
    var l := Mixed(f, KeyByte(k, i), w.l, w.r);
    var r := Mixed(f, KeyByte(k, i + 1), w.r, l);
    var l' := Mixed(f, KeyByte(k, i + 2), l, r);
    Word(l', Mixed(f, KeyByte(k, i + 3), r, l'))
  }

  function GInv(f: Table, k: Key, i: nat, w: Word): Word {
    var r := Mixed(f, KeyByte(k, i + 3), w.r, w.l);
    var l := Mixed(f, KeyByte(k, i + 2), w.l, r);
    var r' := Mixed(f, KeyByte(k, i + 1), r, l);
    Word(Mixed(f, KeyByte(k, i), l, r'), r')
  }

  /** Two words and a counter, which goes into the right byte. */
  function Plus(a: Word, b: Word, counter: byte): Word {
    Word(Xor(a.l, b.l), Xor(Xor(a.r, b.r), counter))
  }

  function RuleA(b: Block, c: byte): Block {
    Block(Plus(b.w1, b.w4, c), b.w1, b.w2, b.w3)
  }

  function RuleB(b: Block, c: byte): Block {
    Block(b.w4, b.w1, Plus(b.w1, b.w2, c), b.w3)
  }

  function RuleAInv(b: Block, c: byte): Block {
    Block(b.w2, b.w3, b.w4, Plus(b.w1, b.w2, c))
  }

  function RuleBInv(b: Block, c: byte): Block {
    Block(b.w2, Plus(b.w2, b.w3, c), b.w4, b.w1)
  }

  /** Rounds 1 to 8 and 17 to 24 step by rule A, the others by rule B. */
  predicate StepsByA(n: nat) {
    n <= 8 || 17 <= n <= 24
  }

  /** Where the key bytes of round `n` begin. */
  function KeyIndex(n: nat): (i: nat)
    requires n > 0
  {
    4 * (n - 1) % 10
  }

  function Round(f: Table, k: Key, n: nat, b: Block): Block
    requires n > 0
  {
    if StepsByA(n) then RuleA(b.(w1 := G(f, k, KeyIndex(n), b.w1)), Counter(n))
    else var c := RuleB(b, Counter(n)); c.(w2 := G(f, k, KeyIndex(n), c.w2))
  }

  function RoundInv(f: Table, k: Key, n: nat, b: Block): Block
    requires n > 0
  {
    if StepsByA(n) then var c := RuleAInv(b, Counter(n)); c.(w1 := GInv(f, k, KeyIndex(n), c.w1))
    else RuleBInv(b.(w2 := GInv(f, k, KeyIndex(n), b.w2)), Counter(n))
  }

  function Rounds(f: Table, k: Key, n: nat, b: Block): Block {
    if n == 0 then b else Round(f, k, n, Rounds(f, k, n - 1, b))
  }

  /** The rounds `n` to 1 undone. */
  function RoundsInv(f: Table, k: Key, n: nat, b: Block): Block {
    if n == 0 then b else RoundsInv(f, k, n - 1, RoundInv(f, k, n, b))
  }

  function Encrypt(f: Table, k: Key, b: Block): Block {
    Rounds(f, k, ROUNDS, b)
  }

  function Decrypt(f: Table, k: Key, b: Block): Block {
    RoundsInv(f, k, ROUNDS, b)
  }

  // ---------- decryption and encryption undo each other ----------

  lemma GInverse(f: Table, k: Key, i: nat, w: Word)
    ensures GInv(f, k, i, G(f, k, i, w)) == w
    ensures G(f, k, i, GInv(f, k, i, w)) == w
  {
    hide Xor, KeyByte;
    forall a: byte, b: byte
      ensures Xor(Xor(a, b), b) == a
    {
      XorCancels(a, b);
    }
  }

  lemma PlusTwice(a: Word, b: Word, c: byte)
    ensures Plus(Plus(a, b, c), a, c) == b
    ensures Plus(a, Plus(a, b, c), c) == b
    ensures Plus(b, Plus(a, b, c), c) == a
  {
    hide Xor;
    XorUndone(a.l, b.l);
    XorUndone(b.l, a.l);
    XorAssociates(a.l, b.l, c);
    XorUndoneWith(a.r, b.r, c);
    XorUndoneAfter(a.r, b.r, c);
    XorUndoneBefore(a.r, b.r, c);
  }

  lemma RoundInverse(f: Table, k: Key, n: nat, b: Block)
    requires n > 0
    ensures RoundInv(f, k, n, Round(f, k, n, b)) == b
    ensures Round(f, k, n, RoundInv(f, k, n, b)) == b
  {
    hide G, GInv, Plus, KeyIndex, Counter;
    var i, c := KeyIndex(n), Counter(n);
    GInverse(f, k, i, b.w1);
    GInverse(f, k, i, b.w2);
    if StepsByA(n) {
      PlusTwice(G(f, k, i, b.w1), b.w4, c);
      PlusTwice(b.w1, b.w2, c);
    } else {
      PlusTwice(b.w1, b.w2, c);
      PlusTwice(GInv(f, k, i, b.w2), b.w3, c);
    }
  }

  lemma {:induction false} RoundsInverse(f: Table, k: Key, n: nat, b: Block)
    ensures RoundsInv(f, k, n, Rounds(f, k, n, b)) == b
    ensures Rounds(f, k, n, RoundsInv(f, k, n, b)) == b
    decreases n
  {
    hide Round, RoundInv;
    if n > 0 {
      RoundInverse(f, k, n, Rounds(f, k, n - 1, b));
      RoundsInverse(f, k, n - 1, b);
      RoundInverse(f, k, n, b);
      RoundsInverse(f, k, n - 1, RoundInv(f, k, n, b));
    }
  }

  /** For every key, every table and every block. */
  lemma DecryptUndoesEncrypt(f: Table, k: Key, b: Block)
    ensures Decrypt(f, k, Encrypt(f, k, b)) == b
    ensures Encrypt(f, k, Decrypt(f, k, b)) == b
  {
    hide Rounds, RoundsInv;
    RoundsInverse(f, k, ROUNDS, b);
  }

  // ---------- the implementation ----------

  ghost function WordAt(s: seq<byte>, at: nat): Word
    requires at + 2 <= |s|
  {
    Word(s[at], s[at + 1])
  }

  ghost function BlockAt(s: seq<byte>, at: nat): Block
    requires at + 8 <= |s|
  {
    Block(WordAt(s, at), WordAt(s, at + 2), WordAt(s, at + 4), WordAt(s, at + 6))
  }

  /** Nothing but the bytes from `at` to `end` differs. */
  ghost predicate SameOutside(s: seq<byte>, t: seq<byte>, at: nat, end: nat) {
    |s| == |t| && forall i :: 0 <= i < |s| && !(at <= i < end) ==> s[i] == t[i]
  }

  lemma KeyBytes(k: Key, i: nat)
    requires i < 10 && i % 2 == 0
    ensures i + 1 < 10 && KeyByte(k, i) == k[i] && KeyByte(k, i + 1) == k[i + 1]
    ensures var j := if i + 2 >= 10 then 0 else i + 2;
      && j + 1 < 10 && KeyByte(k, i + 2) == k[j] && KeyByte(k, i + 3) == k[j + 1]
      && (i + 2) % 10 == j && (i + 3) % 10 == j + 1
  {
  }

  /** `g` */
  method MixWord(f: Table, v: array<byte>, at: nat, k: Key, kidx: nat)
    requires at + 2 <= v.Length && kidx < 10 && kidx % 2 == 0
    modifies v
    ensures SameOutside(v[..], old(v[..]), at, at + 2)
    ensures WordAt(v[..], at) == G(f, k, kidx, WordAt(old(v[..]), at))
  {
    hide Xor, KeyByte;
    KeyBytes(k, kidx);
    var i := kidx;
    v[at] := Xor(v[at], f(Xor(k[i], v[at + 1])));
    i := i + 1;
    v[at + 1] := Xor(v[at + 1], f(Xor(k[i], v[at])));
    i := i + 1;
    if i >= 10 {
      i := i - 10;
    }
    v[at] := Xor(v[at], f(Xor(k[i], v[at + 1])));
    i := i + 1;
    v[at + 1] := Xor(v[at + 1], f(Xor(k[i], v[at])));
  }

  /** `ginv` */
  method UnmixWord(f: Table, v: array<byte>, at: nat, k: Key, kidx: nat)
    requires at + 2 <= v.Length && kidx < 10 && kidx % 2 == 0
    modifies v
    ensures SameOutside(v[..], old(v[..]), at, at + 2)
    ensures WordAt(v[..], at) == GInv(f, k, kidx, WordAt(old(v[..]), at))
  {
    hide Xor, KeyByte;
    KeyBytes(k, kidx);
    v[at + 1] := Xor(v[at + 1], f(Xor(k[(kidx + 3) % 10], v[at])));
    v[at] := Xor(v[at], f(Xor(k[(kidx + 2) % 10], v[at + 1])));
    v[at + 1] := Xor(v[at + 1], f(Xor(k[kidx + 1], v[at])));
    v[at] := Xor(v[at], f(Xor(k[kidx], v[at + 1])));
  }

  method ApplyRuleA(v: array<byte>, at: nat, counter: byte)
    requires at + 8 <= v.Length
    modifies v
    ensures SameOutside(v[..], old(v[..]), at, at + 8)
    ensures BlockAt(v[..], at) == RuleA(BlockAt(old(v[..]), at), counter)
  {
    hide Xor;
    var tmp := v[at + 6];
    v[at + 6] := v[at + 4];
    v[at + 4] := v[at + 2];
    v[at + 2] := v[at];
    v[at] := Xor(v[at], tmp);
    tmp := v[at + 7];
    v[at + 7] := v[at + 5];
    v[at + 5] := v[at + 3];
    v[at + 3] := v[at + 1];
    XorAssociates(v[at + 1], tmp, counter);
    v[at + 1] := Xor(v[at + 1], Xor(tmp, counter));
  }

  method ApplyRuleB(v: array<byte>, at: nat, counter: byte)
    requires at + 8 <= v.Length
    modifies v
    ensures SameOutside(v[..], old(v[..]), at, at + 8)
    ensures BlockAt(v[..], at) == RuleB(BlockAt(old(v[..]), at), counter)
  {
    hide Xor;
    var tmp := v[at + 6];
    v[at + 6] := v[at + 4];
    v[at + 4] := Xor(v[at], v[at + 2]);
    v[at + 2] := v[at];
    v[at] := tmp;
    tmp := v[at + 7];
    v[at + 7] := v[at + 5];
    v[at + 5] := Xor(Xor(v[at + 1], v[at + 3]), counter);
    v[at + 3] := v[at + 1];
    v[at + 1] := tmp;
  }

  method ApplyRuleAInv(v: array<byte>, at: nat, counter: byte)
    requires at + 8 <= v.Length
    modifies v
    ensures SameOutside(v[..], old(v[..]), at, at + 8)
    ensures BlockAt(v[..], at) == RuleAInv(BlockAt(old(v[..]), at), counter)
  {
    hide Xor;
    var tmp := v[at];
    v[at] := v[at + 2];
    v[at + 2] := v[at + 4];
    v[at + 4] := v[at + 6];
    v[at + 6] := Xor(tmp, v[at]);
    tmp := v[at + 1];
    v[at + 1] := v[at + 3];
    v[at + 3] := v[at + 5];
    v[at + 5] := v[at + 7];
    v[at + 7] := Xor(Xor(tmp, v[at + 1]), counter);
  }

  method ApplyRuleBInv(v: array<byte>, at: nat, counter: byte)
    requires at + 8 <= v.Length
    modifies v
    ensures SameOutside(v[..], old(v[..]), at, at + 8)
    ensures BlockAt(v[..], at) == RuleBInv(BlockAt(old(v[..]), at), counter)
  {
    hide Xor;
    var tmp := v[at];
    v[at] := v[at + 2];
    v[at + 2] := Xor(v[at + 2], v[at + 4]);
    v[at + 4] := v[at + 6];
    v[at + 6] := tmp;
    tmp := v[at + 1];
    v[at + 1] := v[at + 3];
    XorAssociates(v[at + 3], v[at + 5], counter);
    v[at + 3] := Xor(v[at + 3], Xor(v[at + 5], counter));
    v[at + 5] := v[at + 7];
    v[at + 7] := tmp;
  }

  /** The key index goes on by 4, and back by 4 in steps of 6. */
  lemma KeyIndexMoves(n: nat)
    requires n > 0
    ensures KeyIndex(n) < 10 && KeyIndex(n) % 2 == 0
    ensures var i := KeyIndex(n) + 4; KeyIndex(n + 1) == if i >= 10 then i - 10 else i
    ensures var i := KeyIndex(n + 1) + 6; KeyIndex(n) == if i >= 10 then i - 10 else i
  {
    FourOn(4 * (n - 1));
    assert 4 * (n - 1) + 4 == 4 * n;
    assert 4 * (n - 1) == 2 * (2 * (n - 1));
    EvenModulus(2 * (n - 1));
  }

  lemma FourOn(x: nat)
    ensures (x + 4) % 10 == if x % 10 + 4 >= 10 then x % 10 - 6 else x % 10 + 4
  {
  }

  lemma EvenModulus(h: nat)
    ensures 2 * h % 10 % 2 == 0
  {
  }

  /** A changed first word makes a changed block. */
  lemma WordInBlock(s: seq<byte>, t: seq<byte>, at: nat, o: nat)
    requires at + 8 <= |t| && (o == 0 || o == 2) && SameOutside(s, t, at + o, at + o + 2)
    ensures BlockAt(s, at) == if o == 0 then BlockAt(t, at).(w1 := WordAt(s, at)) else BlockAt(t, at).(w2 := WordAt(s, at + 2))
  {
  }

  /** One round, and the step of the key index and of the counter after it. */
  method ApplyRound(f: Table, v: array<byte>, at: nat, k: Key, kidx: nat, counter: nat) returns (next: nat)
    requires at + 8 <= v.Length && 0 < counter <= ROUNDS && kidx == KeyIndex(counter)
    modifies v
    ensures SameOutside(v[..], old(v[..]), at, at + 8)
    ensures BlockAt(v[..], at) == Round(f, k, counter, BlockAt(old(v[..]), at))
    ensures next == KeyIndex(counter + 1)
  {
    hide G, BlockAt, WordAt, RuleA, RuleB, Counter, KeyIndex;
    KeyIndexMoves(counter);
    if StepsByA(counter) {
      MixWord(f, v, at, k, kidx);
      WordInBlock(v[..], old(v[..]), at, 0);
      BlockWords(old(v[..]), at);
      ApplyRuleA(v, at, Counter(counter));
    } else {
      ApplyRuleB(v, at, Counter(counter));
      ghost var between := v[..];
      MixWord(f, v, at + 2, k, kidx);
      WordInBlock(v[..], between, at, 2);
      BlockWords(between, at);
    }
    next := kidx + 4;
    if next >= 10 {
      next := next - 10;
    }
  }

  lemma BlockWords(s: seq<byte>, at: nat)
    requires at + 8 <= |s|
    ensures BlockAt(s, at).w1 == WordAt(s, at) && BlockAt(s, at).w2 == WordAt(s, at + 2)
  {
  }

  /** `skipjack_enc` */
  method SkipjackEnc(f: Table, v: array<byte>, at: nat, k: Key)
    requires at + 8 <= v.Length
    modifies v
    ensures SameOutside(v[..], old(v[..]), at, at + 8)
    ensures BlockAt(v[..], at) == Encrypt(f, k, BlockAt(old(v[..]), at))
  {
    hide BlockAt, Round, KeyIndex, Rounds;
    var kidx, counter := 0, 1;
    FirstIndex();
    ghost var b := BlockAt(v[..], at);
    RoundsStep(f, k, 0, b);
    while counter < ROUNDS + 1
      invariant 1 <= counter <= ROUNDS + 1 && kidx == KeyIndex(counter)
      invariant SameOutside(v[..], old(v[..]), at, at + 8)
      invariant BlockAt(v[..], at) == Rounds(f, k, counter - 1, b)
    {
      RoundsStep(f, k, counter, b);
      kidx := ApplyRound(f, v, at, k, kidx, counter);
      counter := counter + 1;
    }
  }

  lemma FirstIndex()
    ensures KeyIndex(1) == 0 && KeyIndex(ROUNDS) == 4
  {
  }

  lemma RoundsStep(f: Table, k: Key, n: nat, b: Block)
    ensures Rounds(f, k, n, b) == if n == 0 then b else Round(f, k, n, Rounds(f, k, n - 1, b))
    ensures RoundsInv(f, k, n, b) == if n == 0 then b else RoundsInv(f, k, n - 1, RoundInv(f, k, n, b))
  {
  }

  /** One round undone, and the step of the key index to the round before. */
  method UndoRound(f: Table, v: array<byte>, at: nat, k: Key, kidx: nat, counter: nat) returns (next: nat)
    requires at + 8 <= v.Length && 0 < counter <= ROUNDS && kidx == KeyIndex(counter)
    modifies v
    ensures SameOutside(v[..], old(v[..]), at, at + 8)
    ensures BlockAt(v[..], at) == RoundInv(f, k, counter, BlockAt(old(v[..]), at))
    ensures counter > 1 ==> next == KeyIndex(counter - 1)
  {
    hide GInv, BlockAt, WordAt, RuleAInv, RuleBInv, Counter, KeyIndex;
    KeyIndexMoves(counter);
    if counter > 1 {
      KeyIndexMoves(counter - 1);
    }
    if StepsByA(counter) {
      ApplyRuleAInv(v, at, Counter(counter));
      ghost var between := v[..];
      UnmixWord(f, v, at, k, kidx);
      WordInBlock(v[..], between, at, 0);
      BlockWords(between, at);
    } else {
      UnmixWord(f, v, at + 2, k, kidx);
      WordInBlock(v[..], old(v[..]), at, 2);
      BlockWords(old(v[..]), at);
      ApplyRuleBInv(v, at, Counter(counter));
    }
    next := kidx + 6;
    if next >= 10 {
      next := next - 10;
    }
  }

  /** `skipjack_dec` */
  method SkipjackDec(f: Table, v: array<byte>, at: nat, k: Key)
    requires at + 8 <= v.Length
    modifies v
    ensures SameOutside(v[..], old(v[..]), at, at + 8)
    ensures BlockAt(v[..], at) == Decrypt(f, k, BlockAt(old(v[..]), at))
  {
    hide BlockAt, RoundInv, KeyIndex, RoundsInv;
    var kidx, counter := 4, 32;
    FirstIndex();
    while counter > 0
      invariant 0 <= counter <= ROUNDS && (counter > 0 ==> kidx == KeyIndex(counter))
      invariant SameOutside(v[..], old(v[..]), at, at + 8)
      invariant RoundsInv(f, k, counter, BlockAt(v[..], at)) == RoundsInv(f, k, ROUNDS, BlockAt(old(v[..]), at))
    {
      RoundsStep(f, k, counter, BlockAt(v[..], at));
      kidx := UndoRound(f, v, at, k, kidx, counter);
      counter := counter - 1;
    }
    RoundsStep(f, k, 0, BlockAt(v[..], at));
  }
}
