/** Base64 decoding in place: the decoded bytes overwrite the text from which they come. */
module Base64 {
  import opened Integers

  /** Six bits. */
  type sextet = v: int | 0 <= v < 64

  // ---------- the encoding of RFC 4648, section 4 ----------

  const PAD: byte := 0x3D

  /** A to Z, a to z, 0 to 9, + and /. */
  function Letter(v: sextet): (c: byte)
    ensures c != 0
  {
    if v < 26 then 0x41 + v as int else if v < 52 then 0x61 + v as int - 26 else if v < 62 then 0x30 + v as int - 52
    else if v == 62 then 0x2B else 0x2F
  }

  function FourLetters(x: byte, y: byte, z: byte): (s: seq<byte>)
    ensures |s| == 4
  {
    [Letter(x / 4), Letter(x % 4 * 16 + y as int / 16), Letter(y % 16 * 4 + z as int / 64), Letter(z % 64)]
  }

  /** How many groups encode `n` bytes. */
  function Groups(n: nat): nat {
    (n + 2) / 3
  }

  function Encode(b: seq<byte>): (s: seq<byte>)
    ensures |s| == 4 * Groups(|b|)
    decreases |b|
  {
    if |b| == 0 then []
    else if |b| == 1 then FourLetters(b[0], 0, 0)[..2] + [PAD, PAD]
    else if |b| == 2 then FourLetters(b[0], b[1], 0)[..3] + [PAD]
    else FourLetters(b[0], b[1], b[2]) + Encode(b[3..])
  }

  lemma {:induction false} EncodedHasNoZero(b: seq<byte>)
    ensures 0 !in Encode(b)
    decreases |b|
  {
    hide Letter, Groups;
    if |b| >= 3 {
      EncodedHasNoZero(b[3..]);
    }
  }

  // ---------- the table ----------

  /** The characters of `cd64`, from '+' on; '$' stands where no letter is. */
  function Cd64(i: nat): (t: byte)
    ensures t == 0x24 || 62 <= t < 126
  {
    match i
    case 0 => 0x7C case 1 => 0x24 case 2 => 0x24 case 3 => 0x24 case 4 => 0x7D case 5 => 0x72 case 6 => 0x73 case 7 => 0x74
    case 8 => 0x75 case 9 => 0x76 case 10 => 0x77 case 11 => 0x78 case 12 => 0x79 case 13 => 0x7A case 14 => 0x7B case 15 => 0x24
    case 16 => 0x24 case 17 => 0x24 case 18 => 0x24 case 19 => 0x24 case 20 => 0x24 case 21 => 0x24 case 22 => 0x3E case 23 => 0x3F
    case 24 => 0x40 case 25 => 0x41 case 26 => 0x42 case 27 => 0x43 case 28 => 0x44 case 29 => 0x45 case 30 => 0x46 case 31 => 0x47
    case 32 => 0x48 case 33 => 0x49 case 34 => 0x4A case 35 => 0x4B case 36 => 0x4C case 37 => 0x4D case 38 => 0x4E case 39 => 0x4F
    case 40 => 0x50 case 41 => 0x51 case 42 => 0x52 case 43 => 0x53 case 44 => 0x54 case 45 => 0x55 case 46 => 0x56 case 47 => 0x57
    case 48 => 0x24 case 49 => 0x24 case 50 => 0x24 case 51 => 0x24 case 52 => 0x24 case 53 => 0x24 case 54 => 0x58 case 55 => 0x59
    case 56 => 0x5A case 57 => 0x5B case 58 => 0x5C case 59 => 0x5D case 60 => 0x5E case 61 => 0x5F case 62 => 0x60 case 63 => 0x61
    case 64 => 0x62 case 65 => 0x63 case 66 => 0x64 case 67 => 0x65 case 68 => 0x66 case 69 => 0x67 case 70 => 0x68 case 71 => 0x69
    case 72 => 0x6A case 73 => 0x6B case 74 => 0x6C case 75 => 0x6D case 76 => 0x6E case 77 => 0x6F case 78 => 0x70 case 79 => 0x71
    case _ => 0x24
  }

  /** What the first loop of `base64_decodeblock` makes of a character. */
  function ValueOf(c: byte): (v: int)
    ensures 0 <= v < 64
  {
    if c < 43 || c > 122 then 0
    else
      var t := Cd64(c - 43) as int;
      if t == 0x24 || t == 61 then 0 else t - 62
  }

  /** The table is inverse to the alphabet, and gives 0 for the padding. */
  lemma ValueOfLetter(v: sextet)
    ensures ValueOf(Letter(v)) == v
  {
  }

  // ---------- decoding ----------

  /** The three bytes that four sextets spell. */
  function Group(a: sextet, b: sextet, c: sextet, d: sextet): (g: seq<byte>)
    ensures |g| == 3
  {
    [4 * a + b as int / 16, b % 16 * 16 + c as int / 4, c % 4 * 64 + d]
  }

  function GroupOf(s: seq<byte>): (g: seq<byte>)
    requires |s| == 4
    ensures |g| == 3
  {
    Group(ValueOf(s[0]), ValueOf(s[1]), ValueOf(s[2]), ValueOf(s[3]))
  }

  /** The first `n` groups of four, decoded. */
  function Decode(s: seq<byte>, n: nat): (b: seq<byte>)
    requires 4 * n <= |s|
    ensures |b| == 3 * n
    decreases n
  {
    if n == 0 then [] else Decode(s, n - 1) + GroupOf(s[4 * n - 4..4 * n])
  }

  lemma DecodeStep(s: seq<byte>, n: nat)
    requires 4 * n <= |s|
    ensures Decode(s, n) == if n == 0 then [] else Decode(s, n - 1) + GroupOf(s[4 * n - 4..4 * n])
  {
  }

  lemma {:induction false} DecodeFromFront(group: seq<byte>, rest: seq<byte>, n: nat)
    requires |group| == 4 && 4 * n <= |rest|
    ensures Decode(group + rest, n + 1) == GroupOf(group) + Decode(rest, n)
    decreases n
  {
    hide GroupOf, Decode;
    var s := group + rest;
    DecodeStep(s, n + 1);
    DecodeStep(rest, n);
    if n == 0 {
      DecodeStep(s, 0);
      assert s[0..4] == group;
    } else {
      DecodeFromFront(group, rest, n - 1);
      assert s[4 * n..4 * n + 4] == rest[4 * n - 4..4 * n];
    }
  }

  function Zeros(n: nat): seq<byte> {
    seq(n, _ => 0)
  }

  lemma PaddingIsZero()
    ensures ValueOf(PAD) == 0
  {
  }

  lemma Rejoined(x: byte, y: byte)
    ensures var b := x % 4 * 16 + y as int / 16; 4 * (x / 4) + b / 16 == x && b % 16 * 16 + y % 16 * 4 / 4 == y
  {
  }

  lemma ThreeBytes(x: byte, y: byte, z: byte)
    ensures GroupOf(FourLetters(x, y, z)) == [x, y, z]
    ensures y == z == 0 ==> GroupOf(FourLetters(x, y, z)[..2] + [PAD, PAD]) == [x, 0, 0]
    ensures z == 0 ==> GroupOf(FourLetters(x, y, z)[..3] + [PAD]) == [x, y, 0]
  {
    hide ValueOf, Letter, Group;
    PaddingIsZero();
    ValueOfLetter(x / 4);
    ValueOfLetter(x % 4 * 16 + y as int / 16);
    ValueOfLetter(y % 16 * 4 + z as int / 64);
    ValueOfLetter(z % 64);
    Regrouped(x, y, z);
  }

  /** Three bytes make four sextets, and these make the three bytes. */
  lemma Regrouped(x: byte, y: byte, z: byte)
    ensures Group(x / 4, x % 4 * 16 + y as int / 16, y % 16 * 4 + z as int / 64, z % 64) == [x, y, z]
  {
    Rejoined(x, y);
    Rejoined3(y, z);
  }

  lemma Rejoined3(y: byte, z: byte)
    ensures var b, c := y / 16, y % 16 * 4 + z as int / 64; c / 4 == y % 16 && c % 4 == z / 64 && c / 4 + 16 * b == y && c % 4 * 64 + z % 64 == z
  {
  }

  /** The padding decodes to as many zeros. */
  lemma {:induction false} DecodeUndoesEncode(b: seq<byte>)
    ensures Decode(Encode(b), Groups(|b|)) == b + Zeros(3 * Groups(|b|) - |b|)
    decreases |b|
  {
    hide GroupOf, FourLetters, Decode;
    if |b| == 0 {
      DecodeNothing(Encode(b));
    } else if |b| <= 2 {
      ThreeBytes(b[0], if |b| == 2 then b[1] else 0, 0);
      LastGroup(Encode(b));
    } else {
      var rest := b[3..];
      DecodeUndoesEncode(rest);
      ThreeBytes(b[0], b[1], b[2]);
      DecodeFromFront(FourLetters(b[0], b[1], b[2]), Encode(rest), Groups(|rest|));
      assert b == [b[0], b[1], b[2]] + rest;
      assert Groups(|b|) == Groups(|rest|) + 1;
    }
  }

  lemma LastGroup(s: seq<byte>)
    requires |s| == 4
    ensures Decode(s, 1) == GroupOf(s)
  {
  }

  // ---------- in place ----------

  /** `base64_decodeblock`: four characters at `from` become three bytes and a zero at `to`.
      The two overlap as long as `to` is behind; no character is overwritten before it was
      read. */
  method DecodeBlock(str: array<byte>, from: nat, to: nat)
    requires to <= from && from + 4 <= str.Length
    modifies str
    ensures str[to..to + 3] == GroupOf(old(str[from..from + 4])) && str[to + 3] == 0
    ensures forall i :: 0 <= i < to || from + 4 <= i < str.Length ==> str[i] == old(str[i])
  {
    hide ValueOf;
    ghost var s := str[from..from + 4];
    for i := 0 to 4
      invariant forall k :: 0 <= k < i ==> str[from + k] == ValueOf(s[k])
      invariant forall k :: i <= k < 4 ==> str[from + k] == s[k]
      invariant forall k :: 0 <= k < from || from + 4 <= k < str.Length ==> str[k] == old(str[k])
    {
      str[from + i] := ValueOf(str[from + i]);
    }
    ghost var a, b, c, d := ValueOf(s[0]), ValueOf(s[1]), ValueOf(s[2]), ValueOf(s[3]);
    assert str[from + 0] == a && str[from + 1] == b && str[from + 2] == c && str[from + 3] == d;
    str[to] := 4 * str[from] + str[from + 1] as int / 16;
    str[to + 1] := str[from + 1] % 16 * 16 + str[from + 2] as int / 4;
    str[to + 2] := str[from + 2] % 4 * 64 + str[from + 3];
    str[to + 3] := 0;
    assert str[to..to + 3] == Group(a, b, c, d);
  }

  /** The first zero is at `n`. */
  ghost predicate HasLength(s: seq<byte>, n: nat) {
    n < |s| && s[n] == 0 && forall i :: 0 <= i < n ==> s[i] != 0
  }

  /** `strlen` */
  method StrLen(str: array<byte>) returns (len: nat)
    requires 0 in str[..]
    ensures HasLength(str[..], len)
  {
    ghost var z :| 0 <= z < str.Length && str[z] == 0;
    len := 0;
    while str[len] != 0
      invariant len <= z && forall i :: 0 <= i < len ==> str[i] != 0
      decreases z - len
    {
      len := len + 1;
    }
  }

  /** One group more: `k` groups of the string `s` are decoded. */
  method DecodeNext(str: array<byte>, k: nat, ghost s: seq<byte>)
    requires 4 * k + 4 <= |s| <= str.Length
    requires str[..3 * k] == Decode(s, k) && str[4 * k..|s|] == s[4 * k..]
    modifies str
    ensures str[..3 * k + 3] == Decode(s, k + 1) && str[3 * k + 3] == 0 && str[4 * k + 4..|s|] == s[4 * k + 4..]
  {
    hide GroupOf;
    ghost var before, group, rest := str[..3 * k], str[4 * k..4 * k + 4], str[4 * k + 4..|s|];
    assert group == s[4 * k..4 * k + 4] && rest == s[4 * k + 4..] by {
      assert group == str[4 * k..|s|][..4] && rest == str[4 * k..|s|][4..];
      assert s[4 * k..4 * k + 4] == s[4 * k..][..4] && s[4 * k + 4..] == s[4 * k..][4..];
    }
    DecodeBlock(str, 4 * k, 3 * k);
    assert str[..3 * k] == before;
    assert str[4 * k + 4..|s|] == rest;
    assert str[..3 * k + 3] == before + str[3 * k..3 * k + 3];
  }

  /** `base64_str_decode`: a string that does not end with a whole group of four is decoded
      with the bytes behind it, its end included. */
  method StrDecode(str: array<byte>) returns (len: nat)
    requires 0 in str[..] && forall n: nat :: HasLength(str[..], n) ==> 4 * Quads(n) <= str.Length
    modifies str
    ensures HasLength(old(str[..]), len)
    ensures 4 * Quads(len) <= str.Length && str[..3 * Quads(len)] == Decode(old(str[..4 * Quads(len)]), Quads(len))
    ensures str[3 * Quads(len)] == 0
  {
    hide Decode;
    len := StrLen(str);
    ghost var s := str[..4 * Quads(len)];
    var k: nat := 0;
    DecodeNothing(s);
    assert s[0..] == s;
    while 4 * k < len
      invariant 4 * k <= |s| && str[..3 * k] == Decode(s, k) && str[4 * k..|s|] == s[4 * k..]
      invariant str[3 * k] == 0 || (k == 0 && len > 0)
    {
      DecodeNext(str, k, s);
      k := k + 1;
    }
  }

  /** How many groups of four a string of `n` characters takes. */
  function Quads(n: nat): (g: nat)
    ensures 4 * g < n + 4 && n <= 4 * g
  {
    (n + 3) / 4
  }

  lemma DecodeNothing(s: seq<byte>)
    ensures Decode(s, 0) == []
  {
  }

  /** The encoding of any bytes, decoded in place, leaves them at the front, with zeros after
      them. */
  method RoundTrip(str: array<byte>, ghost b: seq<byte>) returns (len: nat)
    requires |Encode(b)| < str.Length && str[..|Encode(b)|] == Encode(b) && str[|Encode(b)|] == 0
    modifies str
    ensures len == |Encode(b)| && |b| <= 3 * (len / 4) < |b| + 3
    ensures str[..|b|] == b && forall i :: |b| <= i <= 3 * (len / 4) ==> str[i] == 0
  {
    hide Encode, Decode, HasLength;
    assert str[..][..|Encode(b)|] == str[..|Encode(b)|];
    EncodedHasNoZero(b);
    FirstZero(str[..], |Encode(b)|);
    len := StrDecode(str);
    assert len / 4 == Groups(|b|);
    DecodeUndoesEncode(b);
    assert str[..3 * (len / 4)] == b + Zeros(3 * Groups(|b|) - |b|);
  }

  lemma FirstZero(s: seq<byte>, n: nat)
    requires n < |s| && s[n] == 0 && 0 !in s[..n]
    ensures 0 in s && forall m: nat :: HasLength(s, m) ==> m == n
  {
  }
}
