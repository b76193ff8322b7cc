/** What the checksum of a root page computes, and which damage it finds. */
module Checksum {
  import opened Bits
  import opened Integers
  import opened FlashLayout
  import W = Words

  // ---------- polynomials over two elements ----------

  /** A coefficient of a polynomial that is written from its highest power down. */
  predicate Coefficient(q: seq<bool>, k: int) {
    0 <= k < |q| && q[k]
  }

  /** Coefficient `k` of the product with x^8 + x^5 + x^4 + 1. */
  predicate ProductAt(q: seq<bool>, k: int) {
    ((Coefficient(q, k) != Coefficient(q, k - 3)) != Coefficient(q, k - 4)) != Coefficient(q, k - 8)
  }

  ghost predicate IsProduct(s: seq<bool>, q: seq<bool>) {
    |s| == |q| + 8 && forall k :: 0 <= k < |s| ==> s[k] == ProductAt(q, k)
  }

  /** `s` is a multiple of x^8 + x^5 + x^4 + 1. */
  ghost predicate IsMultiple(s: seq<bool>) {
    exists q :: IsProduct(s, q)
  }

  /** The bits of bytes in the order in which they go into the checksum, the lowest first. */
  function BitsOf(bytes: seq<byte>): (s: seq<bool>)
    ensures |s| == 8 * |bytes|
  {
    seq(8 * |bytes|, i requires 0 <= i < 8 * |bytes| => IsSet(Octet(bytes[i / 8]), i % 8))
  }

  // ---------- division, a bit at a time ----------

  function BitStep(r: bv8, m: bool): bv8 {
    if IsSet(r, 0) != m then (r >> 1) ^ 0x8C else r >> 1
  }

  /** The register after the bits `m`. */
  function Register(m: seq<bool>): bv8 {
    if m == [] then 0 else BitStep(Register(m[..|m| - 1]), m[|m| - 1])
  }

  function Quotient(m: seq<bool>): (q: seq<bool>)
    ensures |q| == |m|
  {
    if m == [] then [] else Quotient(m[..|m| - 1]) + [IsSet(Register(m[..|m| - 1]), 0) != m[|m| - 1]]
  }

  /** One more coefficient of the quotient changes four of the product. */
  lemma ProductOfNext(q: seq<bool>, b: bool, k: nat)
    ensures var n := |q|; ProductAt(q + [b], k) == (ProductAt(q, k) != (b && (k == n || k == n + 3 || k == n + 4 || k == n + 8)))
  {
  }

  lemma BitsOfStep(r: bv8, m: bool)
    ensures var b := IsSet(r, 0) != m; var t := BitStep(r, m);
      && IsSet(t, 0) == IsSet(r, 1) && IsSet(t, 1) == IsSet(r, 2)
      && IsSet(t, 2) == (IsSet(r, 3) != b) && IsSet(t, 3) == (IsSet(r, 4) != b)
      && IsSet(t, 4) == IsSet(r, 5) && IsSet(t, 5) == IsSet(r, 6) && IsSet(t, 6) == IsSet(r, 7)
      && IsSet(t, 7) == b
  {
  }

  /** The bits so far and the register behind them are the product of the quotient. */
  lemma {:induction false} Divides(m: seq<bool>)
    ensures forall k :: 0 <= k < |m| ==> m[k] == ProductAt(Quotient(m), k)
    ensures forall j: nat :: j < 8 ==> IsSet(Register(m), j) == ProductAt(Quotient(m), |m| + j)
  {
    hide IsSet, BitStep;
    if m == [] {
      NothingSet();
    } else {
      var n, last := |m| - 1, m[|m| - 1];
      var before, r, q := m[..n], Register(m[..n]), Quotient(m[..n]);
      Divides(before);
      BitsOfStep(r, last);
      var b := IsSet(r, 0) != last;
      hide ProductAt;
      forall k | 0 <= k < |m|
        ensures m[k] == ProductAt(Quotient(m), k)
      {
        ProductOfNext(q, b, k);
        if k == n {
          assert IsSet(r, 0) == ProductAt(q, n + 0);
        } else {
          assert before[k] == m[k];
        }
      }
      forall j: nat | j < 8
        ensures IsSet(Register(m), j) == ProductAt(Quotient(m), |m| + j)
      {
        ProductOfNext(q, b, |m| + j);
        if j < 7 {
          assert IsSet(r, j + 1) == ProductAt(q, n + (j + 1));
        } else {
          PastTheEnd(q);
        }
      }
    }
  }

  lemma NothingSet()
    ensures forall j: nat :: j < 8 ==> !IsSet(0, j)
  {
  }

  lemma PastTheEnd(q: seq<bool>)
    ensures !ProductAt(q, |q| + 8)
  {
  }

  /** A product determines the quotient. */
  lemma {:induction false} SameQuotient(q: seq<bool>, p: seq<bool>, n: nat)
    requires |q| == |p| && n <= |q| && forall k :: 0 <= k < n ==> ProductAt(q, k) == ProductAt(p, k)
    ensures q[..n] == p[..n]
  {
    if n > 0 {
      SameQuotient(q, p, n - 1);
      assert ProductAt(q, n - 1) == ProductAt(p, n - 1);
      forall j | 0 <= j < n - 1
        ensures q[j] == p[j]
      {
        assert q[..n - 1][j] == p[..n - 1][j];
      }
    }
  }

  lemma SameBits(a: bv8, b: bv8)
    requires forall j: nat :: j < 8 ==> IsSet(a, j) == IsSet(b, j)
    ensures a == b
  {
    assert IsSet(a, 0) == IsSet(b, 0) && IsSet(a, 1) == IsSet(b, 1) && IsSet(a, 2) == IsSet(b, 2) && IsSet(a, 3) == IsSet(b, 3);
    assert IsSet(a, 4) == IsSet(b, 4) && IsSet(a, 5) == IsSet(b, 5) && IsSet(a, 6) == IsSet(b, 6) && IsSet(a, 7) == IsSet(b, 7);
  }

  /** Bits with eight more behind them are a multiple if and only if these are the register. */
  lemma MultipleIffRegister(m: seq<bool>, s: seq<bool>, c: bv8)
    requires |s| == |m| + 8 && s[..|m|] == m && forall j: nat :: j < 8 ==> s[|m| + j] == IsSet(c, j)
    ensures IsMultiple(s) <==> c == Register(m)
  {
    hide IsSet, ProductAt, Register, Quotient;
    Divides(m);
    if c == Register(m) {
      forall k | 0 <= k < |s|
        ensures s[k] == ProductAt(Quotient(m), k)
      {
        if k < |m| {
          assert s[k] == m[k];
        } else {
          var j: nat := k - |m|;
          assert s[|m| + j] == IsSet(c, j);
        }
      }
      assert IsProduct(s, Quotient(m));
    }
    if IsMultiple(s) {
      var q :| IsProduct(s, q);
      forall k | 0 <= k < |m|
        ensures ProductAt(q, k) == ProductAt(Quotient(m), k)
      {
        assert s[k] == m[k];
      }
      SameQuotient(q, Quotient(m), |m|);
      assert q == q[..|m|] && Quotient(m) == Quotient(m)[..|m|];
      forall j: nat | j < 8
        ensures IsSet(c, j) == IsSet(Register(m), j)
      {
        assert s[|m| + j] == ProductAt(q, |m| + j);
      }
      SameBits(c, Register(m));
    }
  }

  // ---------- the loops of the firmware ----------

  /** One turn of the loop over the bits. */
  function Shift(x: bv8): bv8 {
    if x & 1 != 0 then (x >> 1) ^ 0x8C else x >> 1
  }

  function Shifts(x: bv8, n: nat): bv8
    decreases n
  {
    if n == 0 then x else Shifts(Shift(x), n - 1)
  }

  lemma {:induction false} RunOverBits(crc: bv8, bits: seq<nat>, bytes: seq<byte>)
    ensures CrcRun(crc, bits, bytes) == CrcRun(Shifts(crc, |bits|), [], bytes)
    decreases |bits|
  {
    if bits != [] {
      RunOverBits(Shift(crc), bits[1..], bytes);
    }
  }

  /** The byte as the loop folds it in. */
  function Octet(b: byte): bv8 {
    b as bv8
  }

  function Fold(crc: bv8, b: bv8): bv8 {
    crc ^ b
  }

  lemma RunOverByte(crc: bv8, bytes: seq<byte>)
    requires bytes != []
    ensures CrcRun(crc, [], bytes) == CrcRun(Shifts(Fold(crc, Octet(bytes[0])), 8), [], bytes[1..])
  {
    hide Shifts;
    RunOverBits(crc ^ (bytes[0] as bv8), BYTE_BITS, bytes[1..]);
  }

  function Feed(r: bv8, b: bv8): bv8 {
    BitStep(BitStep(BitStep(BitStep(BitStep(BitStep(BitStep(BitStep(r, IsSet(b, 0)), IsSet(b, 1)), IsSet(b, 2)), IsSet(b, 3)), IsSet(b, 4)), IsSet(b, 5)), IsSet(b, 6)), IsSet(b, 7))
  }

  lemma PlacesOf(b: bv8)
    ensures (b & 1 != 0) == IsSet(b, 0) && ((b >> 1) & 1 != 0) == IsSet(b, 1) && ((b >> 2) & 1 != 0) == IsSet(b, 2) && ((b >> 3) & 1 != 0) == IsSet(b, 3)
    ensures ((b >> 4) & 1 != 0) == IsSet(b, 4) && ((b >> 5) & 1 != 0) == IsSet(b, 5) && ((b >> 6) & 1 != 0) == IsSet(b, 6) && ((b >> 7) & 1 != 0) == IsSet(b, 7)
  {
  }

  /** `Shift` after `Shift`, with the bits of the byte that are still to come. */
  function Pending(r: bv8, b: bv8, k: bv8): bv8
    requires k <= 8
  {
    r ^ (b >> k)
  }

  lemma PendingStep(r: bv8, b: bv8, k: bv8)
    requires k < 8
    ensures Shift(Pending(r, b, k)) == Pending(BitStep(r, (b >> k) & 1 != 0), b, k + 1)
  {
  }

  lemma NothingPending(r: bv8, b: bv8)
    ensures Pending(r, b, 0) == Fold(r, b) && Pending(r, b, 8) == r
  {
  }

  lemma EightShifts(x: bv8)
    ensures Shifts(x, 8) == Shift(Shift(Shift(Shift(Shift(Shift(Shift(Shift(x))))))))
  {
    hide Shift;
  }

  lemma ByteFed(r: bv8, b: bv8)
    ensures Shifts(Fold(r, b), 8) == Feed(r, b)
  {
    hide Shift, Shifts, BitStep, Pending, IsSet, Fold;
    EightShifts(Fold(r, b));
    PlacesOf(b);
    NothingPending(r, b);
    PendingStep(r, b, 0);
    var r1 := BitStep(r, IsSet(b, 0));
    PendingStep(r1, b, 1);
    var r2 := BitStep(r1, IsSet(b, 1));
    PendingStep(r2, b, 2);
    var r3 := BitStep(r2, IsSet(b, 2));
    PendingStep(r3, b, 3);
    var r4 := BitStep(r3, IsSet(b, 3));
    PendingStep(r4, b, 4);
    var r5 := BitStep(r4, IsSet(b, 4));
    PendingStep(r5, b, 5);
    var r6 := BitStep(r5, IsSet(b, 5));
    PendingStep(r6, b, 6);
    var r7 := BitStep(r6, IsSet(b, 6));
    PendingStep(r7, b, 7);
    var r8 := BitStep(r7, IsSet(b, 7));
    NothingPending(r8, b);
  }

  lemma RegisterOn(m: seq<bool>, s: seq<bool>, k: nat)
    requires k < |s|
    ensures Register(m + s[..k + 1]) == BitStep(Register(m + s[..k]), s[k])
  {
    hide BitStep;
    var t := m + s[..k + 1];
    assert t[..|t| - 1] == m + s[..k];
  }

  function EightBits(b: bv8): (s: seq<bool>)
    ensures |s| == 8 && forall j: nat :: j < 8 ==> s[j] == IsSet(b, j)
  {
    seq(8, j requires 0 <= j < 8 => IsSet(b, j))
  }

  lemma RegisterOnByte(m: seq<bool>, b: bv8)
    ensures Register(m + EightBits(b)) == Feed(Register(m), b)
  {
    hide BitStep, Register, IsSet, EightBits;
    var s := EightBits(b);
    assert m + s[..0] == m && m + s[..8] == m + s;
    RegisterOn(m, s, 0);
    RegisterOn(m, s, 1);
    RegisterOn(m, s, 2);
    RegisterOn(m, s, 3);
    RegisterOn(m, s, 4);
    RegisterOn(m, s, 5);
    RegisterOn(m, s, 6);
    RegisterOn(m, s, 7);
  }

  lemma BitsOfNext(bytes: seq<byte>, b: byte)
    ensures BitsOf(bytes + [b]) == BitsOf(bytes) + EightBits(Octet(b))
  {
    hide IsSet, Octet, EightBits;
    var s, t := BitsOf(bytes + [b]), BitsOf(bytes) + EightBits(Octet(b));
    forall i | 0 <= i < |s|
      ensures s[i] == t[i]
    {
      if i < 8 * |bytes| {
        assert (bytes + [b])[i / 8] == bytes[i / 8];
      } else {
        var j: nat := i - 8 * |bytes|;
        assert i / 8 == |bytes| && i % 8 == j;
        assert t[i] == EightBits(Octet(b))[j];
      }
    }
  }

  /** The loops leave in the checksum what the division leaves in its register. */
  lemma {:induction false} RunIsRegister(done: seq<byte>, bytes: seq<byte>)
    ensures CrcRun(Register(BitsOf(done)), [], bytes) == Register(BitsOf(done + bytes))
    decreases |bytes|
  {
    hide Register, BitsOf, Shifts, Feed, Octet, Fold;
    if bytes == [] {
      assert done + bytes == done;
      EmptyRun(Register(BitsOf(done)));
    } else {
      hide CrcRun;
      var r, b := Register(BitsOf(done)), bytes[0];
      RunOverByte(r, bytes);
      ByteFed(r, Octet(b));
      RegisterOnByte(BitsOf(done), Octet(b));
      BitsOfNext(done, b);
      RunIsRegister(done + [b], bytes[1..]);
      assert done + [b] + bytes[1..] == done + bytes;
    }
  }

  lemma EmptyRun(crc: bv8)
    ensures CrcRun(crc, [], []) == crc
  {
  }

  lemma NothingRegistered()
    ensures Register(BitsOf([])) == 0
  {
  }

  /** The checksum is the remainder: bytes with one more behind them are a multiple of the
      polynomial if and only if that one is their checksum. */
  lemma ChecksumIsRemainder(bytes: seq<byte>, c: byte)
    ensures IsMultiple(BitsOf(bytes + [c])) <==> c == CrcRun(0, [], bytes) as int
  {
    hide IsMultiple, Register, CrcRun, IsSet, Octet, EightBits;
    NothingRegistered();
    RunIsRegister([], bytes);
    assert [] + bytes == bytes;
    BitsOfNext(bytes, c);
    var m, s, b := BitsOf(bytes), BitsOf(bytes + [c]), Octet(c);
    assert s[..|m|] == m;
    forall j: nat | j < 8
      ensures s[|m| + j] == IsSet(b, j)
    {
      assert s[|m| + j] == EightBits(b)[j];
    }
    MultipleIffRegister(m, s, b);
    SmallNumbers(c, CrcRun(0, [], bytes));
  }

  function NumberOf(x: bv8): byte {
    x as int
  }

  lemma NumberOfOctet(b: byte)
    ensures NumberOf(Octet(b)) == b
  {
    W.ByteAndBack(b);
  }

  lemma OctetOfNumber(x: bv8)
    ensures Octet(NumberOf(x)) == x
  {
  }

  lemma SmallNumbers(c: byte, x: bv8)
    ensures Octet(c) == x <==> c == x as int
  {
    NumberIs(x);
    hide Octet, NumberOf;
    NumberOfOctet(c);
    OctetOfNumber(x);
  }

  lemma NumberIs(x: bv8)
    ensures NumberOf(x) == x as int
  {
  }

  /** A page passes the check of its checksum if and only if its first 527 bytes and the
      checksum are a multiple of the polynomial. */
  lemma ValidRootIsMultiple(p: Page)
    ensures ValidRoot(p) <==> !PageHeader(p).unused && PageHeader(p).root && IsMultiple(BitsOf(p))
  {
    hide IsMultiple, CrcRun, BitsOf, PageHeader;
    ChecksumIsRemainder(p[..FS_CRC_OFFSET], p[FS_CRC_OFFSET]);
    assert p[..FS_CRC_OFFSET] + [p[FS_CRC_OFFSET]] == p;
  }

  // ---------- damage ----------

  lemma ShiftIsInjective(x: bv8, y: bv8)
    ensures Shift(x) == Shift(y) ==> x == y
  {
  }

  lemma FoldIsInjective(x: bv8, y: bv8, b: bv8)
    ensures Fold(x, b) == Fold(y, b) ==> x == y
    ensures Fold(b, x) == Fold(b, y) ==> x == y
  {
  }

  lemma {:induction false} ShiftsAreInjective(x: bv8, y: bv8, n: nat)
    requires x != y
    ensures Shifts(x, n) != Shifts(y, n)
    decreases n
  {
    hide Shift;
    if n > 0 {
      ShiftIsInjective(x, y);
      ShiftsAreInjective(Shift(x), Shift(y), n - 1);
    }
  }

  lemma {:induction false} RunIsInjective(x: bv8, y: bv8, bytes: seq<byte>)
    requires x != y
    ensures CrcRun(x, [], bytes) != CrcRun(y, [], bytes)
    decreases |bytes|
  {
    hide CrcRun, Fold, Shifts, Octet;
    if bytes == [] {
      EmptyRun(x);
      EmptyRun(y);
    } else {
      var b := Octet(bytes[0]);
      RunOverByte(x, bytes);
      RunOverByte(y, bytes);
      FoldIsInjective(x, y, b);
      ShiftsAreInjective(Fold(x, b), Fold(y, b), 8);
      RunIsInjective(Shifts(Fold(x, b), 8), Shifts(Fold(y, b), 8), bytes[1..]);
    }
  }

  /** Bytes that differ in one place have different checksums. */
  lemma {:induction false} OneByteIsNoticed(crc: bv8, s: seq<byte>, i: nat, b: byte)
    requires i < |s| && s[i] != b
    ensures CrcRun(crc, [], s) != CrcRun(crc, [], s[i := b])
    decreases |s|
  {
    hide CrcRun, Shifts, Fold, Octet;
    var t := s[i := b];
    RunOverByte(crc, s);
    RunOverByte(crc, t);
    var x := Fold(crc, Octet(s[0]));
    if i == 0 {
      assert s[1..] == t[1..];
      var y := Fold(crc, Octet(b));
      OctetIsInjective(s[0], b);
      FoldIsInjective(Octet(s[0]), Octet(b), crc);
      ShiftsAreInjective(x, y, 8);
      RunIsInjective(Shifts(x, 8), Shifts(y, 8), s[1..]);
    } else {
      assert t[1..] == s[1..][i - 1 := b];
      OneByteIsNoticed(Shifts(x, 8), s[1..], i - 1, b);
    }
  }

  lemma OctetIsInjective(a: byte, b: byte)
    ensures Octet(a) == Octet(b) ==> a == b
  {
    hide Octet, NumberOf;
    NumberOfOctet(a);
    NumberOfOctet(b);
  }

  /** A root page in which one byte was damaged, whichever it is, is not taken for one. */
  lemma DamagedRootIsRefused(p: Page, i: nat, b: byte)
    requires ValidRoot(p) && i < DF_PAGESIZE && p[i] != b
    ensures !ValidRoot(p[i := b])
  {
    hide CrcRun, PageHeader;
    var q: Page := p[i := b];
    if i < FS_CRC_OFFSET {
      assert q[..FS_CRC_OFFSET] == p[..FS_CRC_OFFSET][i := b];
      OneByteIsNoticed(0, p[..FS_CRC_OFFSET], i, b);
      SmallNumbers(p[FS_CRC_OFFSET], CrcRun(0, [], q[..FS_CRC_OFFSET]));
    } else {
      assert q[..FS_CRC_OFFSET] == p[..FS_CRC_OFFSET];
    }
  }
}
