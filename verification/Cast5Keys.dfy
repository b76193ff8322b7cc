/** The key schedule of CAST-128: three compact routines against the unrolled listing. */
module Cast5Keys {
  import opened Cast5
  import opened W = Words

  /** The boxes S5 to S8, arbitrary functions. */
  datatype KeyBoxes = KeyBoxes(s5: byte -> word, s6: byte -> word, s7: byte -> word, s8: byte -> word)

  datatype Words = Words(w0: word, w1: word, w2: word, w3: word)

  function Xor5(a: word, b: word, c: word, d: word, e: word): word {
    Xor(Xor(Xor(Xor(a, b), c), d), e)
  }

  /** Byte `i` of words that lie in memory little endian. */
  function At(x: Words, i: nat): byte
    requires i < 16
  {
    ByteOf(WordAt(x, i), i % 4)
  }

  /** The word that byte `i` belongs to. */
  function WordAt(x: Words, i: nat): word {
    if i < 4 then x.w0 else if i < 8 then x.w1 else if i < 12 then x.w2 else x.w3
  }

  /** The key in memory, filled up with zeros. */
  function KeyByte(key: seq<byte>, keyLength: nat, i: nat): byte
    requires keyLength / 8 <= |key|
  {
    if i < keyLength / 8 then key[i] else 0
  }

  function KeyWords(key: seq<byte>, keyLength: nat): Words
    requires keyLength / 8 <= |key|
  {
    Words(KeyWord(key, keyLength, 0), KeyWord(key, keyLength, 4), KeyWord(key, keyLength, 8), KeyWord(key, keyLength, 12))
  }

  function KeyWord(key: seq<byte>, keyLength: nat, i: nat): word
    requires keyLength / 8 <= |key|
  {
    FromBytes(KeyByte(key, keyLength, i), KeyByte(key, keyLength, i + 1), KeyByte(key, keyLength, i + 2), KeyByte(key, keyLength, i + 3))
  }

  lemma BytesOfKeyWord(key: seq<byte>, keyLength: nat, w: nat, i: nat)
    requires keyLength / 8 <= |key| && i < 4
    ensures ByteOf(KeyWord(key, keyLength, w), i) == KeyByte(key, keyLength, w + i)
  {
    hide ByteOf, FromBytes, KeyByte;
    BytesOfWord(KeyByte(key, keyLength, w), KeyByte(key, keyLength, w + 1), KeyByte(key, keyLength, w + 2), KeyByte(key, keyLength, w + 3));
  }

  /** The bytes of the words are those of the key. */
  lemma BytesOfKey(key: seq<byte>, keyLength: nat, i: nat)
    requires keyLength / 8 <= |key| && i < 16
    ensures At(KeyWords(key, keyLength), i) == KeyByte(key, keyLength, i)
  {
    hide ByteOf, KeyWord, KeyByte;
    BytesOfKeyWord(key, keyLength, if i < 4 then 0 else if i < 8 then 4 else if i < 12 then 8 else 12, i % 4);
  }

  // ---------- the unrolled listing ----------
  // The words of a step are written one after the other. A word that is not written yet is 0
  // here; it is not read.

  function StepA(k: KeyBoxes, x: Words): Words {
    var z0 := Xor(x.w0, Xor5(k.s5(At(x, 0xD)), k.s6(At(x, 0xF)), k.s7(At(x, 0xC)), k.s8(At(x, 0xE)), k.s7(At(x, 0x8))));
    var z := Words(z0, 0, 0, 0);
    var z1 := Xor(x.w2, Xor5(k.s5(At(z, 0x0)), k.s6(At(z, 0x2)), k.s7(At(z, 0x1)), k.s8(At(z, 0x3)), k.s8(At(x, 0xA))));
    var z := Words(z0, z1, 0, 0);
    var z2 := Xor(x.w3, Xor5(k.s5(At(z, 0x7)), k.s6(At(z, 0x6)), k.s7(At(z, 0x5)), k.s8(At(z, 0x4)), k.s5(At(x, 0x9))));
    var z := Words(z0, z1, z2, 0);
    var z3 := Xor(x.w1, Xor5(k.s5(At(z, 0xA)), k.s6(At(z, 0x9)), k.s7(At(z, 0xB)), k.s8(At(z, 0x8)), k.s6(At(x, 0xB))));
    Words(z0, z1, z2, z3)
  }

  function StepB(k: KeyBoxes, z: Words): Words {
    var x0 := Xor(z.w2, Xor5(k.s5(At(z, 0x5)), k.s6(At(z, 0x7)), k.s7(At(z, 0x4)), k.s8(At(z, 0x6)), k.s7(At(z, 0x0))));
    var x := Words(x0, 0, 0, 0);
    var x1 := Xor(z.w0, Xor5(k.s5(At(x, 0x0)), k.s6(At(x, 0x2)), k.s7(At(x, 0x1)), k.s8(At(x, 0x3)), k.s8(At(z, 0x2))));
    var x := Words(x0, x1, 0, 0);
    var x2 := Xor(z.w1, Xor5(k.s5(At(x, 0x7)), k.s6(At(x, 0x6)), k.s7(At(x, 0x5)), k.s8(At(x, 0x4)), k.s5(At(z, 0x1))));
    var x := Words(x0, x1, x2, 0);
    var x3 := Xor(z.w3, Xor5(k.s5(At(x, 0xA)), k.s6(At(x, 0x9)), k.s7(At(x, 0xB)), k.s8(At(x, 0x8)), k.s6(At(z, 0x3))));
    Words(x0, x1, x2, x3)
  }

  function KeysM(k: KeyBoxes, z: Words): Words {
    Words(Xor5(k.s5(At(z, 0x8)), k.s6(At(z, 0x9)), k.s7(At(z, 0x7)), k.s8(At(z, 0x6)), k.s5(At(z, 0x2))),
     Xor5(k.s5(At(z, 0xA)), k.s6(At(z, 0xB)), k.s7(At(z, 0x5)), k.s8(At(z, 0x4)), k.s6(At(z, 0x6))),
     Xor5(k.s5(At(z, 0xC)), k.s6(At(z, 0xD)), k.s7(At(z, 0x3)), k.s8(At(z, 0x2)), k.s7(At(z, 0x9))),
     Xor5(k.s5(At(z, 0xE)), k.s6(At(z, 0xF)), k.s7(At(z, 0x1)), k.s8(At(z, 0x0)), k.s8(At(z, 0xC))))
  }

  function KeysN(k: KeyBoxes, x: Words): Words {
    Words(Xor5(k.s5(At(x, 0x3)), k.s6(At(x, 0x2)), k.s7(At(x, 0xC)), k.s8(At(x, 0xD)), k.s5(At(x, 0x8))),
     Xor5(k.s5(At(x, 0x1)), k.s6(At(x, 0x0)), k.s7(At(x, 0xE)), k.s8(At(x, 0xF)), k.s6(At(x, 0xD))),
     Xor5(k.s5(At(x, 0x7)), k.s6(At(x, 0x6)), k.s7(At(x, 0x8)), k.s8(At(x, 0x9)), k.s7(At(x, 0x3))),
     Xor5(k.s5(At(x, 0x5)), k.s6(At(x, 0x4)), k.s7(At(x, 0xA)), k.s8(At(x, 0xB)), k.s8(At(x, 0x7))))
  }

  function KeysN'(k: KeyBoxes, z: Words): Words {
    Words(Xor5(k.s5(At(z, 0x3)), k.s6(At(z, 0x2)), k.s7(At(z, 0xC)), k.s8(At(z, 0xD)), k.s5(At(z, 0x9))),
     Xor5(k.s5(At(z, 0x1)), k.s6(At(z, 0x0)), k.s7(At(z, 0xE)), k.s8(At(z, 0xF)), k.s6(At(z, 0xC))),
     Xor5(k.s5(At(z, 0x7)), k.s6(At(z, 0x6)), k.s7(At(z, 0x8)), k.s8(At(z, 0x9)), k.s7(At(z, 0x2))),
     Xor5(k.s5(At(z, 0x5)), k.s6(At(z, 0x4)), k.s7(At(z, 0xA)), k.s8(At(z, 0xB)), k.s8(At(z, 0x6))))
  }

  function KeysM'(k: KeyBoxes, x: Words): Words {
    Words(Xor5(k.s5(At(x, 0x8)), k.s6(At(x, 0x9)), k.s7(At(x, 0x7)), k.s8(At(x, 0x6)), k.s5(At(x, 0x3))),
     Xor5(k.s5(At(x, 0xA)), k.s6(At(x, 0xB)), k.s7(At(x, 0x5)), k.s8(At(x, 0x4)), k.s6(At(x, 0x7))),
     Xor5(k.s5(At(x, 0xC)), k.s6(At(x, 0xD)), k.s7(At(x, 0x3)), k.s8(At(x, 0x2)), k.s7(At(x, 0x8))),
     Xor5(k.s5(At(x, 0xE)), k.s6(At(x, 0xF)), k.s7(At(x, 0x1)), k.s8(At(x, 0x0)), k.s8(At(x, 0xD))))
  }

  function ListOf(w: Words): (s: seq<word>)
    ensures |s| == 4
  {
    [w.w0, w.w1, w.w2, w.w3]
  }

  /** Four times four words, and the words that the next sixteen begin from. */
  function SixteenKeys(k: KeyBoxes, x: Words): (r: (seq<word>, Words))
    ensures |r.0| == 16
  {
    var z1 := StepA(k, x);
    var x1 := StepB(k, z1);
    var z2 := StepA(k, x1);
    var x2 := StepB(k, z2);
    (ListOf(KeysM(k, z1)) + ListOf(KeysN(k, x1)) + ListOf(KeysN'(k, z2)) + ListOf(KeysM'(k, x2)), x2)
  }

  /** The masking keys, and the words whose top bytes hold the rotation keys. */
  function Schedule(k: KeyBoxes, x: Words): (r: (seq<word>, seq<word>))
    ensures |r.0| == 16 && |r.1| == 16
  {
    var (masks, x2) := SixteenKeys(k, x);
    (masks, SixteenKeys(k, x2).0)
  }

  // ---------- the compact routines ----------

  /** `i ^ mask` with a mask of 8 or 0. */
  function Flip(i: nat, mode: bool): (j: nat)
    requires i < 16
    ensures j < 16
  {
    if !mode then i else if i < 8 then i + 8 else i - 8
  }

  /** `cast5_init_A` */
  method InitA(k: KeyBoxes, src: Words, bmode: bool) returns (dest: Words)
    ensures dest == if bmode then StepB(k, src) else StepA(k, src)
  {
    hide Xor, Xor5, At;
    dest := Words(0, 0, 0, 0);
    var d0 := Xor(WordAt(src, Flip(0x0, bmode)), Xor5(k.s5(At(src, Flip(0xD, bmode))), k.s6(At(src, Flip(0xF, bmode))),
      k.s7(At(src, Flip(0xC, bmode))), k.s8(At(src, Flip(0xE, bmode))), k.s7(At(src, Flip(0x8, bmode)))));
    dest := dest.(w0 := d0);
    var d1 := Xor(WordAt(src, Flip(0x8, bmode)), Xor5(k.s5(At(dest, 0x0)), k.s6(At(dest, 0x2)),
      k.s7(At(dest, 0x1)), k.s8(At(dest, 0x3)), k.s8(At(src, Flip(0xA, bmode)))));
    dest := dest.(w1 := d1);
    var d2 := Xor(WordAt(src, Flip(0xC, bmode)), Xor5(k.s5(At(dest, 0x7)), k.s6(At(dest, 0x6)),
      k.s7(At(dest, 0x5)), k.s8(At(dest, 0x4)), k.s5(At(src, Flip(0x9, bmode)))));
    dest := dest.(w2 := d2);
    var d3 := Xor(WordAt(src, Flip(0x4, bmode)), Xor5(k.s5(At(dest, 0xA)), k.s6(At(dest, 0x9)),
      k.s7(At(dest, 0xB)), k.s8(At(dest, 0x8)), k.s6(At(src, Flip(0xB, bmode)))));
    dest := dest.(w3 := d3);
  }

  /** The index tables of `cast5_init_M` and `cast5_init_rM`. */
  function Nmt(i: nat): (j: nat)
    requires i < 16
    ensures j < 16
  {
    match i
    case 0x0 => 0xB case 0x1 => 0xA case 0x2 => 0x9 case 0x3 => 0x8
    case 0x4 => 0xF case 0x5 => 0xE case 0x6 => 0xD case 0x7 => 0xC
    case 0x8 => 0x3 case 0x9 => 0x2 case 0xA => 0x1 case 0xB => 0x0
    case 0xC => 0x7 case 0xD => 0x6 case 0xE => 0x5 case _ => 0x4
  }

  function Xmt(row: nat, i: nat): (j: nat)
    requires row < 4 && i < 4
    ensures j < 16
  {
    match row
    case 0 => (match i case 0 => 0x2 case 1 => 0x6 case 2 => 0x9 case _ => 0xC)
    case 1 => (match i case 0 => 0x8 case 1 => 0xD case 2 => 0x3 case _ => 0x7)
    case 2 => (match i case 0 => 0x3 case 1 => 0x7 case 2 => 0x8 case _ => 0xD)
    case _ => (match i case 0 => 0x9 case 1 => 0xC case 2 => 0x2 case _ => 0x6)
  }

  function NmtOf(src: Words, nmode: bool, i: nat): byte
    requires i < 16
  {
    At(src, if nmode then Nmt(i) else i)
  }

  function XmtOf(src: Words, nmode: bool, xmode: bool, i: nat): byte
    requires i < 4
  {
    At(src, Xmt((if xmode then 2 else 0) + (if nmode then 1 else 0), i))
  }

  /** What the two modes stand for. */
  function KeysOf(k: KeyBoxes, src: Words, nmode: bool, xmode: bool): Words {
    if nmode then (if xmode then KeysN'(k, src) else KeysN(k, src)) else (if xmode then KeysM'(k, src) else KeysM(k, src))
  }

  /** `cast5_init_M` */
  method InitM(k: KeyBoxes, src: Words, nmode: bool, xmode: bool) returns (dest: Words)
    ensures dest == KeysOf(k, src, nmode, xmode)
  {
    hide Xor5, At;
    dest := Words(
      Xor5(k.s5(NmtOf(src, nmode, 0x8)), k.s6(NmtOf(src, nmode, 0x9)), k.s7(NmtOf(src, nmode, 0x7)), k.s8(NmtOf(src, nmode, 0x6)), k.s5(XmtOf(src, nmode, xmode, 0))),
      Xor5(k.s5(NmtOf(src, nmode, 0xA)), k.s6(NmtOf(src, nmode, 0xB)), k.s7(NmtOf(src, nmode, 0x5)), k.s8(NmtOf(src, nmode, 0x4)), k.s6(XmtOf(src, nmode, xmode, 1))),
      Xor5(k.s5(NmtOf(src, nmode, 0xC)), k.s6(NmtOf(src, nmode, 0xD)), k.s7(NmtOf(src, nmode, 0x3)), k.s8(NmtOf(src, nmode, 0x2)), k.s7(XmtOf(src, nmode, xmode, 2))),
      Xor5(k.s5(NmtOf(src, nmode, 0xE)), k.s6(NmtOf(src, nmode, 0xF)), k.s7(NmtOf(src, nmode, 0x1)), k.s8(NmtOf(src, nmode, 0x0)), k.s8(XmtOf(src, nmode, xmode, 3))));
  }

  /** `S5B` to `S8B` read the top byte of a table entry alone. */
  function Top(w: word): byte {
    ByteOf(w, 3)
  }

  function XorTops(a: word, b: word, c: word, d: word, e: word): byte {
    XorBytes(XorBytes(XorBytes(XorBytes(Top(a), Top(b)), Top(c)), Top(d)), Top(e))
  }

  function XorBytes(a: byte, b: byte): byte {
    a ^ b
  }

  lemma TopOfXor(a: word, b: word)
    ensures Top(Xor(a, b)) == XorBytes(Top(a), Top(b))
  {
  }

  lemma TopsOfXor(a: word, b: word, c: word, d: word, e: word)
    ensures XorTops(a, b, c, d, e) == Top(Xor5(a, b, c, d, e))
  {
    hide Top, Xor, XorBytes;
    TopOfXor(a, b);
    TopOfXor(Xor(a, b), c);
    TopOfXor(Xor(Xor(a, b), c), d);
    TopOfXor(Xor(Xor(Xor(a, b), c), d), e);
  }

  function TopsOf(w: Words): (t: seq<byte>)
    ensures |t| == 4
  {
    [Top(w.w0), Top(w.w1), Top(w.w2), Top(w.w3)]
  }

  /** The bytes that `cast5_init_rM` computes before it packs them. */
  method RotationBytes(k: KeyBoxes, src: Words, nmode: bool, xmode: bool) returns (t: seq<byte>)
    ensures t == TopsOf(KeysOf(k, src, nmode, xmode))
  {
    hide Xor5, At, Top, XorTops;
    var t0 := XorTops(k.s5(NmtOf(src, nmode, 0x8)), k.s6(NmtOf(src, nmode, 0x9)), k.s7(NmtOf(src, nmode, 0x7)), k.s8(NmtOf(src, nmode, 0x6)), k.s5(XmtOf(src, nmode, xmode, 0)));
    TopsOfXor(k.s5(NmtOf(src, nmode, 0x8)), k.s6(NmtOf(src, nmode, 0x9)), k.s7(NmtOf(src, nmode, 0x7)), k.s8(NmtOf(src, nmode, 0x6)), k.s5(XmtOf(src, nmode, xmode, 0)));
    var t1 := XorTops(k.s5(NmtOf(src, nmode, 0xA)), k.s6(NmtOf(src, nmode, 0xB)), k.s7(NmtOf(src, nmode, 0x5)), k.s8(NmtOf(src, nmode, 0x4)), k.s6(XmtOf(src, nmode, xmode, 1)));
    TopsOfXor(k.s5(NmtOf(src, nmode, 0xA)), k.s6(NmtOf(src, nmode, 0xB)), k.s7(NmtOf(src, nmode, 0x5)), k.s8(NmtOf(src, nmode, 0x4)), k.s6(XmtOf(src, nmode, xmode, 1)));
    var t2 := XorTops(k.s5(NmtOf(src, nmode, 0xC)), k.s6(NmtOf(src, nmode, 0xD)), k.s7(NmtOf(src, nmode, 0x3)), k.s8(NmtOf(src, nmode, 0x2)), k.s7(XmtOf(src, nmode, xmode, 2)));
    TopsOfXor(k.s5(NmtOf(src, nmode, 0xC)), k.s6(NmtOf(src, nmode, 0xD)), k.s7(NmtOf(src, nmode, 0x3)), k.s8(NmtOf(src, nmode, 0x2)), k.s7(XmtOf(src, nmode, xmode, 2)));
    var t3 := XorTops(k.s5(NmtOf(src, nmode, 0xE)), k.s6(NmtOf(src, nmode, 0xF)), k.s7(NmtOf(src, nmode, 0x1)), k.s8(NmtOf(src, nmode, 0x0)), k.s8(XmtOf(src, nmode, xmode, 3)));
    TopsOfXor(k.s5(NmtOf(src, nmode, 0xE)), k.s6(NmtOf(src, nmode, 0xF)), k.s7(NmtOf(src, nmode, 0x1)), k.s8(NmtOf(src, nmode, 0x0)), k.s8(XmtOf(src, nmode, xmode, 3)));
    t := [t0, t1, t2, t3];
  }

  /** `memset` and `memcpy` */
  method CopyKey(key: seq<byte>, keyLength: nat) returns (x: Words)
    requires keyLength <= 128 && keyLength / 8 <= |key|
    ensures x == KeyWords(key, keyLength)
  {
    hide FromBytes;
    var memory: seq<byte> := seq(16, _ => 0);
    for i := 0 to keyLength / 8
      invariant |memory| == 16 && forall j :: 0 <= j < 16 ==> memory[j] == if j < i then key[j] else 0
    {
      memory := memory[i := key[i]];
    }
    x := Words(
      FromBytes(memory[0], memory[1], memory[2], memory[3]), FromBytes(memory[4], memory[5], memory[6], memory[7]),
      FromBytes(memory[8], memory[9], memory[10], memory[11]), FromBytes(memory[12], memory[13], memory[14], memory[15]));
  }

  /** `cast5_init`: from a key of `keyLength` bits to the context. Masking keys and rotation keys
      are those of the unrolled listing; a rotation is the low five bits of the top byte. */
  method Init(k: KeyBoxes, bytes: seq<byte>, keyLength: nat) returns (keys: Keys)
    requires keyLength <= 128 && keyLength / 8 <= |bytes|
    ensures AreKeys(keys) && keys.shortkey == (keyLength <= 80)
    ensures var key := KeyWords(bytes, keyLength);
      && keys.mask == Schedule(k, key).0
      && forall i: nat :: i < 16 ==> Rotation(keys.rotl, keys.roth, i) == LowFive(Top(Schedule(k, key).1[i]))
  {
    var key := CopyKey(bytes, keyLength);
    keys := InitFrom(k, key, keyLength);
  }

  /** The rest of it, from the words of the key. */
  method InitFrom(k: KeyBoxes, key: Words, keyLength: nat) returns (keys: Keys)
    ensures AreKeys(keys) && keys.mask == Schedule(k, key).0 && keys.shortkey == (keyLength <= 80)
    ensures forall i: nat :: i < 16 ==> Rotation(keys.rotl, keys.roth, i) == LowFive(Top(Schedule(k, key).1[i]))
  {
    hide StepA, StepB, KeysM, KeysN, KeysN', KeysM', Rotation, LowFive, Top, TopsOf, ListOf;
    var x := key;
    var z := InitA(k, x, false);
    var m := InitM(k, z, false, false);
    var mask := ListOf(m);
    x := InitA(k, z, true);
    m := InitM(k, x, true, false);
    mask := mask + ListOf(m);
    z := InitA(k, x, false);
    m := InitM(k, z, true, true);
    mask := mask + ListOf(m);
    x := InitA(k, z, true);
    m := InitM(k, x, false, true);
    mask := mask + ListOf(m);
    ghost var x2 := x;
    assert (mask, x2) == SixteenKeys(k, key);
    z := InitA(k, x, false);
    var t := RotationBytes(k, z, false, false);
    x := InitA(k, z, true);
    var u := RotationBytes(k, x, true, false);
    t := t + u;
    z := InitA(k, x, false);
    u := RotationBytes(k, z, true, true);
    t := t + u;
    x := InitA(k, z, true);
    u := RotationBytes(k, x, false, true);
    t := t + u;
    TopsOfKeys(t, KeysM(k, StepA(k, x2)), KeysN(k, StepB(k, StepA(k, x2))), KeysN'(k, z), KeysM'(k, x));
    var rotl, roth := PackAll(t);
    keys := Keys(mask, rotl, roth, keyLength <= 80);
  }

  lemma TopsOfKeys(t: seq<byte>, a: Words, b: Words, c: Words, d: Words)
    requires t == TopsOf(a) + TopsOf(b) + TopsOf(c) + TopsOf(d)
    ensures var w := ListOf(a) + ListOf(b) + ListOf(c) + ListOf(d);
      forall i: nat :: i < 16 ==> t[i] == Top(w[i])
  {
    hide TopsOf, ListOf, Top;
    TopsOfList(a);
    TopsOfList(b);
    TopsOfList(c);
    TopsOfList(d);
  }

  lemma TopsOfList(a: Words)
    ensures forall j :: 0 <= j < 4 ==> TopsOf(a)[j] == Top(ListOf(a)[j])
  {
    hide Top;
  }
}
