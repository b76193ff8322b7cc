/** What the operations on 32-bit words do to the numbers that the words stand for. */
module Words {
  import opened Bits

  type word = bv32

  const TWO_TO_THE_32: nat := 0x1_0000_0000

  function Pow2(k: nat): (p: nat)
    ensures p > 0
  {
    if k == 0 then 1 else 2 * Pow2(k - 1)
  }

  lemma PowersOf2()
    ensures Pow2(8) == 0x100 && Pow2(16) == 0x1_0000 && Pow2(24) == 0x100_0000 && Pow2(32) == TWO_TO_THE_32
  {
    assert Pow2(4) == 16;
    PowersMultiply(4, 4);
    PowersMultiply(8, 8);
    PowersMultiply(8, 16);
    PowersMultiply(16, 16);
  }

  lemma {:induction false} PowersMultiply(k: nat, n: nat)
    ensures Pow2(k + n) == Pow2(k) * Pow2(n)
  {
    if k > 0 {
      PowersMultiply(k - 1, n);
      assert Pow2(k) * Pow2(n) == 2 * (Pow2(k - 1) * Pow2(n));
    }
  }

  function Digit(b: bool): (d: nat)
    ensures d <= 1
  {
    if b then 1 else 0
  }

  // ---------- arithmetic ----------

  lemma Times(a: nat, b: nat, p: nat, v: nat)
    ensures a + 2 * (b + p * v) == (a + 2 * b) + (2 * p) * v
  {
  }

  lemma ModulusIsUnique(n: nat, m: nat, q: nat, r: nat)
    requires n == q * m + r && r < m
    ensures n % m == r && n / m == q
  {
    var d := n / m;
    assert n == d * m + n % m;
    NextMultiple(q, d, m);
    NextMultiple(d, q, m);
  }

  lemma NextMultiple(a: nat, b: nat, m: nat)
    ensures a < b ==> a * m + m <= b * m
  {
    if a < b {
      Distribution(a, b - a - 1, m);
    }
  }

  lemma Distribution(a: nat, c: nat, m: nat)
    ensures (a + 1 + c) * m == a * m + m + c * m && c * m >= 0
  {
  }

  lemma TwiceProduct(q: nat, p: nat)
    ensures q * (2 * p) == 2 * (q * p)
  {
  }

  lemma ModulusOfDouble(d: nat, m: nat, p: nat)
    requires d < 2 && p > 0
    ensures (d + 2 * m) % (2 * p) == d + 2 * (m % p)
  {
    var q, r := m / p, m % p;
    assert m == q * p + r;
    TwiceProduct(q, p);
    ModulusIsUnique(d + 2 * m, 2 * p, q, d + 2 * r);
  }

  // ---------- operations on words ----------

  function Xor(x: word, y: word): word { x ^ y }
  function And(x: word, y: word): word { x & y }
  function Or(x: word, y: word): word { x | y }
  /** Addition and subtraction modulo 2 to the 32. */
  function Plus(x: word, y: word): word { x + y }
  function Minus(x: word, y: word): word { x - y }

  function ShiftLeft(x: word, s: bv8): word { if s <= 32 then x << s else 0 }
  function ShiftRight(x: word, s: bv8): word { if s <= 32 then x >> s else 0 }

  /** Sums, differences and order of shift distances. */
  function Up(a: bv8, b: bv8): bv8 { a + b }
  function Down(a: bv8, b: bv8): bv8 { a - b }
  predicate IsBelow(a: bv8, b: bv8) { a < b }

  /** `ROTL32` */
  function RotateLeft(x: word, s: bv8): word {
    Or(ShiftLeft(x, s), ShiftRight(x, Down(32, s)))
  }

  // ---------- words as numbers ----------

  function Index(j: nat): bv8
    requires j < 64
  {
    j as bv8
  }

  function Distance(b: bv8): nat {
    b as int
  }

  lemma NextByte(x: bv8)
    ensures Distance(x) < 255 ==> Distance(x + 1) == Distance(x) + 1
    ensures Distance(x) > 0 ==> Distance(x - 1) == Distance(x) - 1
    ensures Distance(x) == 0 ==> x == 0
  {
  }

  lemma OneLess(a: bv8, b: bv8)
    ensures Up(a, b) == Up(a, b - 1) + 1 && Down(a, b) == Down(a - 1, b - 1)
    ensures Up(a, 0) == Down(a, 0) == a
  {
  }

  lemma {:induction false} ByteDifference(a: bv8, b: bv8)
    requires Distance(b) <= Distance(a)
    ensures Distance(Down(a, b)) == Distance(a) - Distance(b)
    decreases Distance(b)
  {
    hide Distance, Down;
    NextByte(a);
    NextByte(b);
    OneLess(a, b);
    if Distance(b) > 0 {
      ByteDifference(a - 1, b - 1);
    } else {
      ZeroByte();
    }
  }

  lemma {:induction false} ByteSum(a: bv8, b: bv8)
    requires Distance(a) + Distance(b) < 0x100
    ensures Distance(Up(a, b)) == Distance(a) + Distance(b)
    decreases Distance(b)
  {
    hide Distance, Up;
    NextByte(b);
    OneLess(a, b);
    if Distance(b) > 0 {
      ByteSum(a, b - 1);
      NextByte(Up(a, b - 1));
    } else {
      ZeroByte();
    }
  }

  lemma ZeroByte()
    ensures Distance(0) == 0
  {
  }

  lemma ByteOrder(a: bv8, b: bv8)
    ensures IsBelow(a, b) <==> Distance(a) < Distance(b)
    ensures Distance(32) == 32
  {
  }

  lemma SameByte(a: bv8, b: bv8)
    requires Distance(a) == Distance(b)
    ensures a == b
  {
    assert (a as int) as bv8 == a && (b as int) as bv8 == b;
  }

  lemma IndexIs(j: nat)
    requires j < 64
    ensures Distance(Index(j)) == j
  {
  }

  lemma NextIndex(j: nat)
    requires j < 63
    ensures Index(j + 1) == Up(Index(j), 1)
  {
    hide Index, Up, Distance;
    IndexIs(j);
    IndexIs(j + 1);
    OneIsOne();
    ByteSum(Index(j), 1);
    SameByte(Index(j + 1), Up(Index(j), 1));
  }

  lemma OneIsOne()
    ensures Distance(1) == 1
  {
  }

  lemma SmallIndex(j: nat)
    ensures j < 32 ==> Index(j) < 32
    ensures j < 31 ==> Index(j) < 31
  {
  }

  predicate BitOf(x: word, b: bv8) {
    b < 32 && (x >> b) & 1 != 0
  }

  predicate Bit(x: word, j: nat) {
    j < 32 && BitOf(x, Index(j))
  }

  /** The number that the `n` bits from `j` up make. */
  function NumberFrom(x: word, j: nat, n: nat): (v: nat)
    ensures v < Pow2(n)
    decreases n
  {
    if n == 0 then 0 else Digit(Bit(x, j)) + 2 * NumberFrom(x, j + 1, n - 1)
  }

  function Number(x: word): (v: nat)
    ensures v < TWO_TO_THE_32
  {
    PowersOf2();
    NumberFrom(x, 0, 32)
  }

  lemma NumberStep(x: word, j: nat, n: nat)
    ensures n > 0 ==> NumberFrom(x, j, n) == Digit(Bit(x, j)) + 2 * NumberFrom(x, j + 1, n - 1)
    ensures n == 0 ==> NumberFrom(x, j, n) == 0
  {
    hide Bit;
  }

  /** The bits from `j` up make two numbers, one above the other. */
  lemma {:induction false} Split(x: word, j: nat, m: nat, n: nat)
    ensures NumberFrom(x, j, m + n) == NumberFrom(x, j, m) + Pow2(m) * NumberFrom(x, j + m, n)
    decreases m
  {
    hide Bit;
    if m > 0 {
      Split(x, j + 1, m - 1, n);
      Times(Digit(Bit(x, j)), NumberFrom(x, j + 1, m - 1), Pow2(m - 1), NumberFrom(x, j + m, n));
    }
  }

  // ---------- bit by bit ----------

  lemma XorBitOf(x: word, y: word, b: bv8)
    ensures BitOf(Xor(x, y), b) == (BitOf(x, b) != BitOf(y, b))
  {
  }

  lemma AndBitOf(x: word, y: word, b: bv8)
    ensures BitOf(And(x, y), b) == (BitOf(x, b) && BitOf(y, b))
  {
  }

  lemma OrBitOf(x: word, y: word, b: bv8)
    ensures BitOf(Or(x, y), b) == (BitOf(x, b) || BitOf(y, b))
  {
  }

  lemma XorBit(x: word, y: word, j: nat)
    ensures Bit(Xor(x, y), j) == (Bit(x, j) != Bit(y, j))
  {
    hide BitOf, Index, Xor;
    if j < 32 {
      XorBitOf(x, y, Index(j));
    }
  }

  lemma AndBit(x: word, y: word, j: nat)
    ensures Bit(And(x, y), j) == (Bit(x, j) && Bit(y, j))
  {
    hide BitOf, Index, And;
    if j < 32 {
      AndBitOf(x, y, Index(j));
    }
  }

  lemma OrBit(x: word, y: word, j: nat)
    ensures Bit(Or(x, y), j) == (Bit(x, j) || Bit(y, j))
  {
    hide BitOf, Index, Or;
    if j < 32 {
      OrBitOf(x, y, Index(j));
    }
  }

  /** The carry into each bit. */
  function Carries(x: word, y: word): word {
    Xor(Xor(x, y), Plus(x, y))
  }

  lemma XorTwice(a: word, b: word)
    ensures Xor(a, Xor(a, b)) == b
  {
  }

  lemma SumBit(x: word, y: word, j: nat)
    ensures Bit(Plus(x, y), j) == ((Bit(x, j) != Bit(y, j)) != Bit(Carries(x, y), j))
  {
    hide Bit, Xor, Plus;
    XorTwice(Xor(x, y), Plus(x, y));
    XorBit(x, y, j);
    XorBit(Xor(x, y), Carries(x, y), j);
  }

  lemma CarriesOn(x: word, y: word, b: bv8)
    requires b < 31
    ensures var c := x ^ y ^ (x + y); (c >> (b + 1)) & 1 == (((x & y) | (x & c) | (y & c)) >> b) & 1
  {
  }

  lemma CarriesOnBits(x: word, y: word, b: bv8)
    requires b < 31
    ensures var c := Carries(x, y); BitOf(c, Up(b, 1)) == BitOf(Or(Or(And(x, y), And(x, c)), And(y, c)), b)
  {
    CarriesOn(x, y, b);
  }

  lemma CarryBit(x: word, y: word, j: nat)
    requires j < 31
    ensures var c := Carries(x, y); Bit(c, j + 1) == Majority(Bit(x, j), Bit(y, j), Bit(c, j))
  {
    hide BitOf, Carries, Xor, And, Or, Plus, Index, Up;
    var c := Carries(x, y);
    NextIndex(j);
    SmallIndex(j);
    CarriesOnBits(x, y, Index(j));
    OrBit(Or(And(x, y), And(x, c)), And(y, c), j);
    OrBit(And(x, y), And(x, c), j);
    AndBit(x, y, j);
    AndBit(x, c, j);
    AndBit(y, c, j);
  }

  lemma NoCarryIn(x: word, y: word)
    ensures !Bit(Carries(x, y), 0)
  {
  }

  // ---------- sums and differences ----------

  function Majority(x: bool, y: bool, c: bool): bool {
    (x && y) || (x && c) || (y && c)
  }

  /** One place of an addition. */
  lemma AddDigits(x: bool, y: bool, c: bool, a: nat, b: nat, p: nat)
    requires p > 0
    ensures Digit((x != y) != c) + 2 * ((a + b + Digit(Majority(x, y, c))) % p)
      == (Digit(x) + 2 * a + (Digit(y) + 2 * b) + Digit(c)) % (2 * p)
  {
    ModulusOfDouble(Digit((x != y) != c), a + b + Digit(Majority(x, y, c)), p);
  }

  lemma {:induction false} SumFrom(x: word, y: word, j: nat, n: nat)
    requires j + n == 32 && n > 0
    ensures NumberFrom(Plus(x, y), j, n) == (NumberFrom(x, j, n) + NumberFrom(y, j, n) + Digit(Bit(Carries(x, y), j))) % Pow2(n)
    decreases n
  {
    hide Bit, Carries, Plus, Majority, NumberFrom, Digit, Pow2;
    NumberStep(x, j, n);
    NumberStep(y, j, n);
    NumberStep(Plus(x, y), j, n);
    PowerStep(n);
    SumBit(x, y, j);
    AddDigits(Bit(x, j), Bit(y, j), Bit(Carries(x, y), j), NumberFrom(x, j + 1, n - 1), NumberFrom(y, j + 1, n - 1), Pow2(n - 1));
    if n > 1 {
      SumFrom(x, y, j + 1, n - 1);
      CarryBit(x, y, j);
    } else {
      NumberStep(Plus(x, y), j + 1, 0);
      PowerStep(0);
    }
  }

  lemma PowerStep(n: nat)
    ensures Pow2(n) == if n == 0 then 1 else 2 * Pow2(n - 1)
    ensures Pow2(0) == 1
  {
  }

  lemma SumOfNumbers(x: word, y: word)
    ensures Number(Plus(x, y)) == (Number(x) + Number(y)) % TWO_TO_THE_32
  {
    hide Bit, Carries, NumberFrom, Pow2, Plus;
    PowersOf2();
    NoCarryIn(x, y);
    SumFrom(x, y, 0, 32);
  }

  lemma IsDifference(x: word, y: word)
    ensures Minus(x, y) == x - y
  {
  }

  lemma DifferenceAdded(x: word, y: word)
    ensures Plus(x - y, y) == x
  {
    hide Minus;
  }

  lemma DifferenceOfNumbers(x: word, y: word)
    ensures Number(Minus(x, y)) == (Number(x) - Number(y)) % TWO_TO_THE_32
  {
    hide Number, Plus, Minus;
    SumOfNumbers(Minus(x, y), y);
    IsDifference(x, y);
    DifferenceAdded(x, y);
  }

  // ---------- operations that work on each place alone ----------

  /** The number whose lowest `n` binary places come from those of `x`, `y` and `z`. */
  function Bitwise(f: (bool, bool, bool) -> bool, x: nat, y: nat, z: nat, n: nat): (v: nat) {
    if n == 0 then 0
    else Digit(f(x % 2 == 1, y % 2 == 1, z % 2 == 1)) + 2 * Bitwise(f, x / 2, y / 2, z / 2, n - 1)
  }

  ghost predicate IsBitwise(f: (bool, bool, bool) -> bool, w: word, x: word, y: word, z: word) {
    forall j: nat :: j < 32 ==> Bit(w, j) == f(Bit(x, j), Bit(y, j), Bit(z, j))
  }

  lemma {:induction false} BitwiseFrom(f: (bool, bool, bool) -> bool, w: word, x: word, y: word, z: word, j: nat, n: nat)
    requires IsBitwise(f, w, x, y, z) && j + n <= 32
    ensures NumberFrom(w, j, n) == Bitwise(f, NumberFrom(x, j, n), NumberFrom(y, j, n), NumberFrom(z, j, n), n)
    decreases n
  {
    hide Bit, NumberFrom, Bitwise, IsBitwise;
    if n > 0 {
      PlaceOf(f, w, x, y, z, j);
      BitwiseFrom(f, w, x, y, z, j + 1, n - 1);
      NumberStep(w, j, n);
      NumberStep(x, j, n);
      NumberStep(y, j, n);
      NumberStep(z, j, n);
      BitwiseStep(f, Bit(x, j), Bit(y, j), Bit(z, j), NumberFrom(x, j + 1, n - 1), NumberFrom(y, j + 1, n - 1), NumberFrom(z, j + 1, n - 1), n);
    } else {
      NoBits(w, x, y, z, f, j);
    }
  }

  lemma PlaceOf(f: (bool, bool, bool) -> bool, w: word, x: word, y: word, z: word, j: nat)
    requires IsBitwise(f, w, x, y, z) && j < 32
    ensures Bit(w, j) == f(Bit(x, j), Bit(y, j), Bit(z, j))
  {
    hide Bit;
  }

  lemma NoBits(w: word, x: word, y: word, z: word, f: (bool, bool, bool) -> bool, j: nat)
    ensures NumberFrom(w, j, 0) == Bitwise(f, NumberFrom(x, j, 0), NumberFrom(y, j, 0), NumberFrom(z, j, 0), 0)
  {
  }

  lemma BitwiseStep(f: (bool, bool, bool) -> bool, a: bool, b: bool, c: bool, x: nat, y: nat, z: nat, n: nat)
    requires n > 0
    ensures Bitwise(f, Digit(a) + 2 * x, Digit(b) + 2 * y, Digit(c) + 2 * z, n) == Digit(f(a, b, c)) + 2 * Bitwise(f, x, y, z, n - 1)
  {
    Halves(a, x);
    Halves(b, y);
    Halves(c, z);
  }

  lemma Halves(b: bool, n: nat)
    ensures ((Digit(b) + 2 * n) % 2 == 1) == b && (Digit(b) + 2 * n) / 2 == n
  {
  }

  lemma BitwiseOfNumbers(f: (bool, bool, bool) -> bool, w: word, x: word, y: word, z: word)
    requires IsBitwise(f, w, x, y, z)
    ensures Number(w) == Bitwise(f, Number(x), Number(y), Number(z), 32)
  {
    hide IsBitwise, NumberFrom, Bitwise;
    BitwiseFrom(f, w, x, y, z, 0, 32);
  }

  predicate Differ(a: bool, b: bool, c: bool) {
    a != b
  }

  /** Exclusive or of two numbers, place by place. */
  function XorNumbers(x: nat, y: nat): nat {
    Bitwise(Differ, x, y, 0, 32)
  }

  lemma XorOfNumbers(x: word, y: word)
    ensures Number(Xor(x, y)) == XorNumbers(Number(x), Number(y))
  {
    hide Bit, Xor, Number, Bitwise;
    forall j: nat | j < 32
      ensures Bit(Xor(x, y), j) == Differ(Bit(x, j), Bit(y, j), Bit(0, j))
    {
      XorBit(x, y, j);
    }
    NumberOfZero();
    BitwiseOfNumbers(Differ, Xor(x, y), x, y, 0);
  }

  lemma NumberOfZero()
    ensures Number(0) == 0
  {
    ZeroFrom(0, 32);
  }

  lemma {:induction false} ZeroFrom(j: nat, n: nat)
    ensures NumberFrom(0, j, n) == 0
    decreases n
  {
    ZeroBit(j);
    if n > 0 {
      ZeroFrom(j + 1, n - 1);
    }
  }

  lemma ZeroBit(j: nat)
    ensures !Bit(0, j)
  {
    hide Index;
  }

  // ---------- rotation ----------

  /** Rotating a number of 32 places by `s` multiplies it by 2 to the `s`; what leaves at the
      top comes in again below. */
  function RotatedNumber(x: int, s: nat): int
    requires s <= 32
  {
    x * Pow2(s) % TWO_TO_THE_32 + x / Pow2(32 - s)
  }

  lemma LeftBitOf(x: word, s: bv8, b: bv8)
    requires s < 32 && b < 32
    ensures BitOf(x << s, b) == (b >= s && BitOf(x, b - s))
  {
  }

  lemma RightBitOf(x: word, s: bv8, b: bv8)
    requires s <= 32 && b < 32
    ensures BitOf(x >> s, b) == (s < 32 && b + s < 32 && BitOf(x, b + s))
  {
  }

  lemma ShiftedLeft(x: word, s: bv8, b: bv8)
    requires IsBelow(s, 32) && IsBelow(b, 32)
    ensures BitOf(ShiftLeft(x, s), b) == (!IsBelow(b, s) && BitOf(x, Down(b, s)))
  {
    hide BitOf;
    LeftBitOf(x, s, b);
  }

  lemma ShiftedRight(x: word, s: bv8, b: bv8)
    requires !IsBelow(32, s) && IsBelow(b, 32)
    ensures BitOf(ShiftRight(x, s), b) == (IsBelow(s, 32) && IsBelow(Up(b, s), 32) && BitOf(x, Up(b, s)))
  {
    hide BitOf;
    RightBitOf(x, s, b);
  }

  lemma PlaceBelow(s: bv8, b: bv8)
    requires IsBelow(s, 32) && IsBelow(b, 32)
    ensures !IsBelow(32, Down(32, s))
    ensures IsBelow(Down(32, s), 32) && IsBelow(Up(b, Down(32, s)), 32) <==> IsBelow(b, s)
  {
  }

  lemma RotatedBitOf(x: word, s: bv8, b: bv8)
    requires IsBelow(s, 32) && IsBelow(b, 32)
    ensures BitOf(RotateLeft(x, s), b) == BitOf(x, if IsBelow(b, s) then Up(b, Down(32, s)) else Down(b, s))
  {
    hide BitOf, ShiftLeft, ShiftRight, Or, Up, Down, IsBelow;
    PlaceBelow(s, b);
    OrBitOf(ShiftLeft(x, s), ShiftRight(x, Down(32, s)), b);
    ShiftedLeft(x, s, b);
    ShiftedRight(x, Down(32, s), b);
  }

  lemma RotatedBit(x: word, s: nat, j: nat)
    requires s < 32 && j < 32
    ensures Bit(RotateLeft(x, Index(s)), j) == Bit(x, if j >= s then j - s else j + 32 - s)
  {
    hide BitOf, RotateLeft, Index, Up, Down, IsBelow;
    IndexDistance(s, j);
    RotatedBitOf(x, Index(s), Index(j));
  }

  lemma IndexDistance(s: nat, j: nat)
    requires s < 32 && j < 32
    ensures IsBelow(Index(s), 32) && IsBelow(Index(j), 32) && (IsBelow(Index(j), Index(s)) <==> j < s)
    ensures j >= s ==> Down(Index(j), Index(s)) == Index(j - s)
    ensures j < s ==> Up(Index(j), Down(32, Index(s))) == Index(j + 32 - s)
  {
    hide Index, Up, Down, IsBelow, Distance;
    IndexIs(s);
    IndexIs(j);
    ByteOrder(Index(s), 32);
    ByteOrder(Index(j), 32);
    ByteOrder(Index(j), Index(s));
    if j >= s {
      ByteDifference(Index(j), Index(s));
      IndexIs(j - s);
      SameByte(Down(Index(j), Index(s)), Index(j - s));
    } else {
      ByteDifference(32, Index(s));
      ByteSum(Index(j), Down(32, Index(s)));
      IndexIs(j + 32 - s);
      SameByte(Up(Index(j), Down(32, Index(s))), Index(j + 32 - s));
    }
  }

  lemma {:induction false} RotatedFrom(x: word, s: nat, j: nat, n: nat)
    requires s < 32 && j + n <= 32 && (j >= s || j + n <= s)
    ensures NumberFrom(RotateLeft(x, Index(s)), j, n) == NumberFrom(x, if j >= s then j - s else j + 32 - s, n)
    decreases n
  {
    hide Bit, RotateLeft, Index;
    SmallIndex(s);
    if n > 0 {
      RotatedBit(x, s, j);
      RotatedFrom(x, s, j + 1, n - 1);
    }
  }

  lemma RotationOfNumber(x: word, s: nat)
    requires s < 32
    ensures Number(RotateLeft(x, Index(s))) == RotatedNumber(Number(x), s)
  {
    hide RotateLeft, Index, NumberFrom, Pow2;
    var low, high := NumberFrom(x, 0, 32 - s), NumberFrom(x, 32 - s, s);
    RotatedParts(x, s);
    Split(x, 0, 32 - s, s);
    Rejoined(low, high, s);
  }

  lemma RotatedParts(x: word, s: nat)
    requires s < 32
    ensures Number(RotateLeft(x, Index(s))) == NumberFrom(x, 32 - s, s) + Pow2(s) * NumberFrom(x, 0, 32 - s)
  {
    hide RotateLeft, Index, NumberFrom, Pow2;
    SmallIndex(s);
    Split(RotateLeft(x, Index(s)), 0, s, 32 - s);
    NumberStep(RotateLeft(x, Index(s)), 0, s);
    NumberStep(x, 32 - s, s);
    RotatedFrom(x, s, 0, s);
    RotatedFrom(x, s, s, 32 - s);
  }

  lemma RotationBy(x: word, s: bv8)
    requires Distance(s) < 32
    ensures Number(RotateLeft(x, s)) == RotatedNumber(Number(x), Distance(s))
  {
    hide RotateLeft, Index, Number, Pow2, Distance;
    IndexIs(Distance(s));
    SameByte(Index(Distance(s)), s);
    RotationOfNumber(x, Distance(s));
  }

  lemma Rejoined(low: nat, high: nat, s: nat)
    requires s <= 32 && low < Pow2(32 - s) && high < Pow2(s)
    ensures var n := low + Pow2(32 - s) * high;
      n * Pow2(s) % TWO_TO_THE_32 == Pow2(s) * low && n / Pow2(32 - s) == high
  {
    hide Pow2;
    var p, q := Pow2(s), Pow2(32 - s);
    PowersOf2();
    PowersMultiply(s, 32 - s);
    Products(low, high, p, q);
    ModulusIsUnique(low + q * high, q, high, low);
    NextMultiple(low, q, p);
    ModulusIsUnique((low + q * high) * p, p * q, high, p * low);
  }

  lemma Products(low: nat, high: nat, p: nat, q: nat)
    ensures (low + q * high) * p == high * (p * q) + p * low
    ensures low * p == p * low && q * p == p * q && high * q == q * high
  {
  }

  // ---------- bytes ----------

  /** The four bytes of a word, the lowest first. */
  function ByteOf(x: word, i: nat): bv8
    requires i < 4
  {
    if i == 0 then (x & 0xff) as bv8 else if i == 1 then ((x >> 8) & 0xff) as bv8
    else if i == 2 then ((x >> 16) & 0xff) as bv8 else (x >> 24) as bv8
  }

  function Four(a: bool, b: bool, c: bool, d: bool): nat {
    Digit(a) + 2 * (Digit(b) + 2 * (Digit(c) + 2 * Digit(d)))
  }

  /** The number that eight places make. */
  function Eight(a: bool, b: bool, c: bool, d: bool, e: bool, f: bool, g: bool, h: bool): nat {
    Four(a, b, c, d) + 16 * Four(e, f, g, h)
  }

  lemma NumberOfByte(b: bv8)
    ensures b as int == Eight(IsSet(b, 0), IsSet(b, 1), IsSet(b, 2), IsSet(b, 3), IsSet(b, 4), IsSet(b, 5), IsSet(b, 6), IsSet(b, 7))
  {
  }

  lemma LowBitsOfByte0(x: word)
    ensures BitOf(x, 0) == IsSet(ByteOf(x, 0), 0)
    ensures BitOf(x, 1) == IsSet(ByteOf(x, 0), 1)
    ensures BitOf(x, 2) == IsSet(ByteOf(x, 0), 2)
    ensures BitOf(x, 3) == IsSet(ByteOf(x, 0), 3)
  {
  }

  lemma HighBitsOfByte0(x: word)
    ensures BitOf(x, 4) == IsSet(ByteOf(x, 0), 4)
    ensures BitOf(x, 5) == IsSet(ByteOf(x, 0), 5)
    ensures BitOf(x, 6) == IsSet(ByteOf(x, 0), 6)
    ensures BitOf(x, 7) == IsSet(ByteOf(x, 0), 7)
  {
  }

  lemma LowBitsOfByte1(x: word)
    ensures BitOf(x, 8) == IsSet(ByteOf(x, 1), 0)
    ensures BitOf(x, 9) == IsSet(ByteOf(x, 1), 1)
    ensures BitOf(x, 10) == IsSet(ByteOf(x, 1), 2)
    ensures BitOf(x, 11) == IsSet(ByteOf(x, 1), 3)
  {
  }

  lemma HighBitsOfByte1(x: word)
    ensures BitOf(x, 12) == IsSet(ByteOf(x, 1), 4)
    ensures BitOf(x, 13) == IsSet(ByteOf(x, 1), 5)
    ensures BitOf(x, 14) == IsSet(ByteOf(x, 1), 6)
    ensures BitOf(x, 15) == IsSet(ByteOf(x, 1), 7)
  {
  }

  lemma LowBitsOfByte2(x: word)
    ensures BitOf(x, 16) == IsSet(ByteOf(x, 2), 0)
    ensures BitOf(x, 17) == IsSet(ByteOf(x, 2), 1)
    ensures BitOf(x, 18) == IsSet(ByteOf(x, 2), 2)
    ensures BitOf(x, 19) == IsSet(ByteOf(x, 2), 3)
  {
  }

  lemma HighBitsOfByte2(x: word)
    ensures BitOf(x, 20) == IsSet(ByteOf(x, 2), 4)
    ensures BitOf(x, 21) == IsSet(ByteOf(x, 2), 5)
    ensures BitOf(x, 22) == IsSet(ByteOf(x, 2), 6)
    ensures BitOf(x, 23) == IsSet(ByteOf(x, 2), 7)
  {
  }

  lemma LowBitsOfByte3(x: word)
    ensures BitOf(x, 24) == IsSet(ByteOf(x, 3), 0)
    ensures BitOf(x, 25) == IsSet(ByteOf(x, 3), 1)
    ensures BitOf(x, 26) == IsSet(ByteOf(x, 3), 2)
    ensures BitOf(x, 27) == IsSet(ByteOf(x, 3), 3)
  {
  }

  lemma HighBitsOfByte3(x: word)
    ensures BitOf(x, 28) == IsSet(ByteOf(x, 3), 4)
    ensures BitOf(x, 29) == IsSet(ByteOf(x, 3), 5)
    ensures BitOf(x, 30) == IsSet(ByteOf(x, 3), 6)
    ensures BitOf(x, 31) == IsSet(ByteOf(x, 3), 7)
  {
  }

  lemma IndicesOfByte0()
    ensures Index(0) == 0 && Index(1) == 1 && Index(2) == 2 && Index(3) == 3 && Index(4) == 4 && Index(5) == 5 && Index(6) == 6 && Index(7) == 7
  {
  }

  lemma IndicesOfByte1()
    ensures Index(8) == 8 && Index(9) == 9 && Index(10) == 10 && Index(11) == 11 && Index(12) == 12 && Index(13) == 13 && Index(14) == 14 && Index(15) == 15
  {
  }

  lemma IndicesOfByte2()
    ensures Index(16) == 16 && Index(17) == 17 && Index(18) == 18 && Index(19) == 19 && Index(20) == 20 && Index(21) == 21 && Index(22) == 22 && Index(23) == 23
  {
  }

  lemma IndicesOfByte3()
    ensures Index(24) == 24 && Index(25) == 25 && Index(26) == 26 && Index(27) == 27 && Index(28) == 28 && Index(29) == 29 && Index(30) == 30 && Index(31) == 31
  {
  }

  lemma BitsOfByte0(x: word)
    ensures Bit(x, 0) == IsSet(ByteOf(x, 0), 0) && Bit(x, 1) == IsSet(ByteOf(x, 0), 1)
    ensures Bit(x, 2) == IsSet(ByteOf(x, 0), 2) && Bit(x, 3) == IsSet(ByteOf(x, 0), 3)
    ensures Bit(x, 4) == IsSet(ByteOf(x, 0), 4) && Bit(x, 5) == IsSet(ByteOf(x, 0), 5)
    ensures Bit(x, 6) == IsSet(ByteOf(x, 0), 6) && Bit(x, 7) == IsSet(ByteOf(x, 0), 7)
  {
    hide BitOf, Index, ByteOf, IsSet;
    IndicesOfByte0();
    LowBitsOfByte0(x);
    HighBitsOfByte0(x);
  }

  lemma BitsOfByte1(x: word)
    ensures Bit(x, 8) == IsSet(ByteOf(x, 1), 0) && Bit(x, 9) == IsSet(ByteOf(x, 1), 1)
    ensures Bit(x, 10) == IsSet(ByteOf(x, 1), 2) && Bit(x, 11) == IsSet(ByteOf(x, 1), 3)
    ensures Bit(x, 12) == IsSet(ByteOf(x, 1), 4) && Bit(x, 13) == IsSet(ByteOf(x, 1), 5)
    ensures Bit(x, 14) == IsSet(ByteOf(x, 1), 6) && Bit(x, 15) == IsSet(ByteOf(x, 1), 7)
  {
    hide BitOf, Index, ByteOf, IsSet;
    IndicesOfByte1();
    LowBitsOfByte1(x);
    HighBitsOfByte1(x);
  }

  lemma BitsOfByte2(x: word)
    ensures Bit(x, 16) == IsSet(ByteOf(x, 2), 0) && Bit(x, 17) == IsSet(ByteOf(x, 2), 1)
    ensures Bit(x, 18) == IsSet(ByteOf(x, 2), 2) && Bit(x, 19) == IsSet(ByteOf(x, 2), 3)
    ensures Bit(x, 20) == IsSet(ByteOf(x, 2), 4) && Bit(x, 21) == IsSet(ByteOf(x, 2), 5)
    ensures Bit(x, 22) == IsSet(ByteOf(x, 2), 6) && Bit(x, 23) == IsSet(ByteOf(x, 2), 7)
  {
    hide BitOf, Index, ByteOf, IsSet;
    IndicesOfByte2();
    LowBitsOfByte2(x);
    HighBitsOfByte2(x);
  }

  lemma BitsOfByte3(x: word)
    ensures Bit(x, 24) == IsSet(ByteOf(x, 3), 0) && Bit(x, 25) == IsSet(ByteOf(x, 3), 1)
    ensures Bit(x, 26) == IsSet(ByteOf(x, 3), 2) && Bit(x, 27) == IsSet(ByteOf(x, 3), 3)
    ensures Bit(x, 28) == IsSet(ByteOf(x, 3), 4) && Bit(x, 29) == IsSet(ByteOf(x, 3), 5)
    ensures Bit(x, 30) == IsSet(ByteOf(x, 3), 6) && Bit(x, 31) == IsSet(ByteOf(x, 3), 7)
  {
    hide BitOf, Index, ByteOf, IsSet;
    IndicesOfByte3();
    LowBitsOfByte3(x);
    HighBitsOfByte3(x);
  }

  lemma BitsOfByte(x: word, i: nat)
    requires i < 4
    ensures Bit(x, 8 * i) == IsSet(ByteOf(x, i), 0) && Bit(x, 8 * i + 1) == IsSet(ByteOf(x, i), 1)
    ensures Bit(x, 8 * i + 2) == IsSet(ByteOf(x, i), 2) && Bit(x, 8 * i + 3) == IsSet(ByteOf(x, i), 3)
    ensures Bit(x, 8 * i + 4) == IsSet(ByteOf(x, i), 4) && Bit(x, 8 * i + 5) == IsSet(ByteOf(x, i), 5)
    ensures Bit(x, 8 * i + 6) == IsSet(ByteOf(x, i), 6) && Bit(x, 8 * i + 7) == IsSet(ByteOf(x, i), 7)
  {
    hide Bit, ByteOf, IsSet;
    BitsOfByte0(x);
    BitsOfByte1(x);
    BitsOfByte2(x);
    BitsOfByte3(x);
  }

  lemma EightBits(x: word, j: nat)
    ensures NumberFrom(x, j, 8) ==
      Eight(Bit(x, j), Bit(x, j + 1), Bit(x, j + 2), Bit(x, j + 3), Bit(x, j + 4), Bit(x, j + 5), Bit(x, j + 6), Bit(x, j + 7))
  {
    hide Bit, NumberFrom, Four;
    assert Pow2(4) == 16;
    Split(x, j, 4, 4);
    FourBits(x, j);
    FourBits(x, j + 4);
  }

  lemma FourBits(x: word, j: nat)
    ensures NumberFrom(x, j, 4) == Four(Bit(x, j), Bit(x, j + 1), Bit(x, j + 2), Bit(x, j + 3))
  {
    hide Bit, NumberFrom, Digit;
    NumberStep(x, j, 4);
    NumberStep(x, j + 1, 3);
    NumberStep(x, j + 2, 2);
    NumberStep(x, j + 3, 1);
    NumberStep(x, j + 4, 0);
  }

  lemma ByteIsNumber(x: word, i: nat)
    requires i < 4
    ensures ByteOf(x, i) as int == NumberFrom(x, 8 * i, 8)
  {
    hide Bit, NumberFrom, Eight, ByteOf, IsSet;
    BitsOfByte(x, i);
    EightBits(x, 8 * i);
    NumberOfByte(ByteOf(x, i));
  }

  /** Byte `i` of a word is its number divided by 256 to the `i`, modulo 256. */
  lemma ByteOfNumber(x: word, i: nat)
    requires i < 4
    ensures ByteOf(x, i) as int == Number(x) / Pow2(8 * i) % 0x100
  {
    hide NumberFrom, ByteOf, Pow2;
    ByteIsNumber(x, i);
    Split(x, 0, 8 * i, 32 - 8 * i);
    Split(x, 8 * i, 8, 24 - 8 * i);
    PowersOf2();
    var low, byte, high := NumberFrom(x, 0, 8 * i), NumberFrom(x, 8 * i, 8), NumberFrom(x, 8 * i + 8, 24 - 8 * i);
    Commutes(Pow2(8 * i), byte + 0x100 * high);
    Commutes(0x100, high);
    ModulusIsUnique(Number(x), Pow2(8 * i), byte + 0x100 * high, low);
    ModulusIsUnique(byte + 0x100 * high, 0x100, high, byte);
  }

  lemma Commutes(a: nat, b: nat)
    ensures a * b == b * a
  {
  }

  /** A word is made of its bytes. */
  lemma NumberOfBytes(x: word)
    ensures Number(x) == ByteOf(x, 0) as int + 0x100 * ByteOf(x, 1) as int + 0x1_0000 * ByteOf(x, 2) as int + 0x100_0000 * ByteOf(x, 3) as int
  {
    hide NumberFrom, ByteOf, Pow2;
    PowersOf2();
    ByteIsNumber(x, 0);
    ByteIsNumber(x, 1);
    ByteIsNumber(x, 2);
    ByteIsNumber(x, 3);
    Split(x, 0, 8, 24);
    Split(x, 8, 8, 16);
    Split(x, 16, 8, 8);
  }

  /** The word with these bytes, the lowest first. */
  function FromBytes(a: bv8, b: bv8, c: bv8, d: bv8): word {
    (a as word) | ((b as word) << 8) | ((c as word) << 16) | ((d as word) << 24)
  }

  lemma BytesOfWord(a: bv8, b: bv8, c: bv8, d: bv8)
    ensures var x := FromBytes(a, b, c, d); ByteOf(x, 0) == a && ByteOf(x, 1) == b && ByteOf(x, 2) == c && ByteOf(x, 3) == d
  {
  }

  // ---------- numbers as bytes ----------

  function Doubled(y: bv8, d: bool): bv8 {
    if d then (y << 1) | 1 else y << 1
  }

  lemma DoubledIs(y: bv8, d: bool)
    requires y as int < 128
    ensures Doubled(y, d) as int == 2 * (y as int) + Digit(d)
  {
  }

  /** Every number of up to eight places is that of a byte. */
  lemma {:induction false} SomeByte(b: nat, n: nat) returns (x: bv8)
    requires n <= 8 && b < Pow2(n)
    ensures Distance(x) == b
  {
    hide Doubled;
    if n == 0 {
      x := 0;
    } else {
      var y := SomeByte(b / 2, n - 1);
      Fewer(n);
      DoubledIs(y, b % 2 == 1);
      x := Doubled(y, b % 2 == 1);
    }
  }

  lemma Fewer(n: nat)
    requires 0 < n <= 8
    ensures Pow2(n - 1) <= 128
  {
    assert Pow2(7) == 128;
    PowersGrow(n - 1, 7);
  }

  lemma {:induction false} PowersGrow(a: nat, b: nat)
    requires a <= b
    ensures Pow2(a) <= Pow2(b)
    decreases b - a
  {
    if a < b {
      PowersGrow(a + 1, b);
    }
  }

  lemma NumberAndBack(x: bv8)
    ensures (x as int) as bv8 == x
  {
  }

  /** A number below 256 survives being made a byte. */
  lemma ByteAndBack(b: nat)
    requires b < 0x100
    ensures (b as bv8) as int == b
  {
    PowersOf2();
    var x := SomeByte(b, 8);
    NumberAndBack(x);
  }
}
