/** Packet encryption: Skipjack in cipher block chaining mode with a random first block and
    padding, in place in the packet buffer. */
module Llh {
  import opened Skipjack
  import Integers

  // ---------- chaining ----------

  function XorBlocks(a: Block, b: Block): Block {
    Block(XorWords(a.w1, b.w1), XorWords(a.w2, b.w2), XorWords(a.w3, b.w3), XorWords(a.w4, b.w4))
  }

  function XorWords(a: Word, b: Word): Word {
    Word(Xor(a.l, b.l), Xor(a.r, b.r))
  }

  lemma XorBlocksUndone(a: Block, b: Block)
    ensures XorBlocks(a, XorBlocks(a, b)) == b && XorBlocks(XorBlocks(b, a), a) == b
    ensures XorBlocks(a, XorBlocks(b, a)) == b && XorBlocks(a, b) == XorBlocks(b, a)
  {
    hide Xor;
    forall x: byte, y: byte
      ensures Xor(x, Xor(x, y)) == y && Xor(x, y) == Xor(y, x)
    {
      XorUndone(x, y);
      XorAssociates(x, y, x);
    }
  }

  /** Every block after the first is mixed with the encrypted one before it and encrypted. */
  function Chain(f: Table, k: Key, plain: seq<Block>): (c: seq<Block>)
    ensures |c| == |plain|
  {
    if |plain| <= 1 then plain
    else var before := Chain(f, k, plain[..|plain| - 1]);
      before + [Encrypt(f, k, XorBlocks(plain[|plain| - 1], before[|before| - 1]))]
  }

  /** Block `i` of the plain text comes back from the encrypted blocks `i` and `i + 1`. */
  function Unchain(f: Table, k: Key, cipher: seq<Block>): (p: seq<Block>)
    requires cipher != []
    ensures |p| == |cipher| - 1
  {
    seq(|cipher| - 1, i requires 0 <= i < |cipher| - 1 => XorBlocks(cipher[i], Decrypt(f, k, cipher[i + 1])))
  }

  lemma {:induction false} ChainAt(f: Table, k: Key, plain: seq<Block>, i: nat)
    requires i < |plain|
    ensures Chain(f, k, plain)[i] == if i == 0 then plain[0] else Encrypt(f, k, XorBlocks(plain[i], Chain(f, k, plain)[i - 1]))
  {
    hide Encrypt, XorBlocks;
    if i < |plain| - 1 {
      ChainAt(f, k, plain[..|plain| - 1], i);
    }
  }

  lemma UnchainUndoesChain(f: Table, k: Key, plain: seq<Block>)
    requires plain != []
    ensures Unchain(f, k, Chain(f, k, plain)) == plain[1..]
  {
    hide Chain, Encrypt, Decrypt, XorBlocks;
    var c := Chain(f, k, plain);
    forall i | 0 <= i < |plain| - 1
      ensures Unchain(f, k, c)[i] == plain[i + 1]
    {
      ChainAt(f, k, plain, i + 1);
      DecryptUndoesEncrypt(f, k, XorBlocks(plain[i + 1], c[i]));
      XorBlocksUndone(c[i], plain[i + 1]);
    }
  }

  lemma {:induction false} ChainUndoesUnchain(f: Table, k: Key, cipher: seq<Block>)
    requires cipher != []
    ensures Chain(f, k, [cipher[0]] + Unchain(f, k, cipher)) == cipher
  {
    hide Encrypt, Decrypt, XorBlocks;
    var n := |cipher| - 1;
    if n > 0 {
      var before := cipher[..n];
      ChainUndoesUnchain(f, k, before);
      var plain := [cipher[0]] + Unchain(f, k, cipher);
      assert plain[..n] == [before[0]] + Unchain(f, k, before);
      XorBlocksUndone(cipher[n - 1], Decrypt(f, k, cipher[n]));
      DecryptUndoesEncrypt(f, k, cipher[n]);
    }
  }

  // ---------- bytes and blocks ----------

  function BytesOf(b: Block): (s: seq<byte>)
    ensures |s| == 8
  {
    [b.w1.l, b.w1.r, b.w2.l, b.w2.r, b.w3.l, b.w3.r, b.w4.l, b.w4.r]
  }

  /** The blocks that bytes form; a rest of less than a block is dropped. */
  ghost function Blocks(s: seq<byte>): (b: seq<Block>)
    ensures |b| == |s| / 8
  {
    seq(|s| / 8, i requires 0 <= i < |s| / 8 => BlockAt(s, 8 * i))
  }

  lemma SameBlock(s: seq<byte>, t: seq<byte>, at: nat)
    requires at + 8 <= |s| && at + 8 <= |t| && BlockAt(s, at) == BlockAt(t, at)
    ensures forall i {:trigger s[i]} {:trigger t[i]} :: at <= i < at + 8 ==> s[i] == t[i]
  {
  }

  /** Whole blocks tell their bytes. */
  lemma SameBlocks(s: seq<byte>, t: seq<byte>)
    requires |s| == |t| && |s| % 8 == 0 && Blocks(s) == Blocks(t)
    ensures s == t
  {
    hide BlockAt;
    forall i | 0 <= i < |s|
      ensures s[i] == t[i]
    {
      var b := i / 8;
      assert Blocks(s)[b] == Blocks(t)[b];
      SameBlock(s, t, 8 * b);
    }
  }

  lemma BlocksChanged(s: seq<byte>, t: seq<byte>, i: nat)
    requires i < |t| / 8 && SameOutside(s, t, 8 * i, 8 * i + 8)
    ensures Blocks(s) == Blocks(t)[i := BlockAt(s, 8 * i)]
  {
  }

  // ---------- packets ----------

  /** The pad characters, each of which is the number of them. */
  const PAD: seq<byte> := [1, 2, 3, 4, 5, 6, 7, 8]

  /** How many bytes of padding a last byte announces, or none. */
  function PadLength(c: byte): (n: nat)
    ensures n == 0 || (n <= 8 && PAD[n - 1] == c)
    ensures forall i :: 0 <= i < 8 && PAD[i] == c ==> n == i + 1
  {
    if c == 1 then 1 else if c == 2 then 2 else if c == 3 then 3 else if c == 4 then 4
    else if c == 5 then 5 else if c == 6 then 6 else if c == 7 then 7 else if c == 8 then 8 else 0
  }

  /** The payload, filled up to whole blocks. */
  function Padded(p: seq<byte>): (s: seq<byte>)
    ensures |s| % 8 == 0 && |p| < |s| <= |p| + 8
  {
    var n := 8 - |p| % 8;
    p + seq(n, _ => PAD[n - 1])
  }

  /** As many blocks as fit a byte are chained, the others are left alone. */
  ghost predicate Chained(f: Table, k: Key, cipher: seq<byte>, plain: seq<byte>) {
    var b, m := Blocks(plain), |plain| / 8 % 0x100;
    |cipher| == |plain| && Blocks(cipher) == Chain(f, k, b[..m]) + b[m..]
  }

  ghost predicate IsEncryption(f: Table, k: Key, iv: seq<byte>, p: seq<byte>, cipher: seq<byte>) {
    |iv| == 8 && Chained(f, k, cipher, iv + Padded(p))
  }

  /** What is left in the buffer after the blocks are decrypted, without the last one. */
  ghost predicate IsDecrypted(f: Table, k: Key, cipher: seq<byte>, plain: seq<byte>) {
    var c, m := Blocks(cipher), |cipher| / 8 % 0x100;
    && 8 <= |cipher| == |plain| + 8
    && Blocks(plain) == if m == 0 then c[..|c| - 1] else Unchain(f, k, c[..m]) + c[m - 1..|c| - 1]
  }

  /** The length that is left, 0 if the packet is discarded; or the search of the padding
      never ends. */
  datatype Outcome = Length(n: nat) | Hangs

  function Unpadded(plain: seq<byte>): Outcome
    requires |plain| >= 8
  {
    var c := plain[|plain| - 1];
    var pad := PadLength(c);
    if pad == 0 then Length(0)
    else if |plain| <= 0xFF then
      if forall i :: |plain| - pad <= i < |plain| ==> plain[i] == c then Length(|plain| - pad) else Length(0)
    else if forall i :: 0 <= i < 0x100 ==> plain[i] == c then Hangs
    else Length(0)
  }

  lemma BlocksOfIv(iv: seq<byte>, s: seq<byte>)
    requires |iv| == 8
    ensures Blocks(iv + s) == Blocks(iv) + Blocks(s) && |Blocks(iv)| == 1
  {
  }

  lemma PaddedIsUnpadded(p: seq<byte>)
    ensures |p| <= 247 ==> Unpadded(Padded(p)) == Length(|p|)
    ensures |p| > 247 ==> Unpadded(Padded(p)) in {Length(0), Hangs}
    ensures Padded(p)[..|p|] == p
  {
  }

  /** Up to 256 bytes, all blocks are chained and unchained. */
  lemma AllChained(f: Table, k: Key, cipher: seq<byte>, plain: seq<byte>)
    requires Chained(f, k, cipher, plain) && |plain| <= 0x100
    ensures Blocks(cipher) == Chain(f, k, Blocks(plain))
  {
    hide Blocks, Chain;
    var b := Blocks(plain);
    assert b[..|b|] == b && b[|b|..] == [];
  }

  lemma AllUnchained(f: Table, k: Key, cipher: seq<byte>, plain: seq<byte>)
    requires IsDecrypted(f, k, cipher, plain) && |cipher| <= 0x100
    ensures |Blocks(cipher)| >= 1 && Blocks(plain) == Unchain(f, k, Blocks(cipher))
  {
    hide Blocks, Unchain;
    var c := Blocks(cipher);
    assert c[..|c|] == c && c[|c| - 1..|c| - 1] == [];
  }

  lemma AllRoundTrip(f: Table, k: Key, iv: seq<byte>, s: seq<byte>, cipher: seq<byte>, plain: seq<byte>)
    requires |iv| == 8 && |s| % 8 == 0 && |s| == |plain| && Blocks(cipher) == Chain(f, k, Blocks(iv + s))
    requires |Blocks(cipher)| >= 1 && Blocks(plain) == Unchain(f, k, Blocks(cipher))
    ensures plain == s
  {
    hide Blocks, Chain, Unchain;
    BlocksOfIv(iv, s);
    UnchainUndoesChain(f, k, Blocks(iv + s));
    assert Blocks(iv + s)[1..] == Blocks(s);
    SameBlocks(plain, s);
  }

  /** A packet comes back from the buffer if and only if its payload is at most 247 bytes:
      for a longer one the index into the padding, a byte, never reaches the end. */
  lemma RoundTrip(f: Table, k: Key, iv: seq<byte>, p: seq<byte>, cipher: seq<byte>, plain: seq<byte>)
    requires IsEncryption(f, k, iv, p, cipher) && IsDecrypted(f, k, cipher, plain)
    ensures p != [] ==> (Unpadded(plain) == Length(|p|) && plain[..|p|] == p <==> |p| <= 247)
    ensures |p| <= 247 ==> Unpadded(plain) == Length(|p|) && plain[..|p|] == p
  {
    hide Chain, Unchain, Blocks, Padded, Unpadded;
    PaddedIsUnpadded(p);
    if |p| <= 247 {
      AllChained(f, k, cipher, iv + Padded(p));
      AllUnchained(f, k, cipher, plain);
      AllRoundTrip(f, k, iv, Padded(p), cipher, plain);
    } else {
      LongIsLost(plain);
    }
  }

  lemma LongIsLost(plain: seq<byte>)
    requires |plain| > 0xFF
    ensures Unpadded(plain) in {Length(0), Hangs}
  {
  }

  lemma UnpaddedIsPadded(plain: seq<byte>)
    requires |plain| >= 8 && |plain| % 8 == 0 && Unpadded(plain).Length? && Unpadded(plain).n > 0
    ensures |plain| <= 248 && Unpadded(plain).n < |plain| && plain == Padded(plain[..Unpadded(plain).n])
  {
    var n := Unpadded(plain).n;
    var pad := |plain| - n;
    assert n % 8 == if pad == 8 then 0 else 8 - pad;
  }

  /** What is accepted with a payload is the encryption of that payload. */
  lemma AcceptedIsEncryption(f: Table, k: Key, cipher: seq<byte>, plain: seq<byte>)
    requires IsDecrypted(f, k, cipher, plain) && |cipher| >= 16 && |cipher| % 8 == 0
    requires Unpadded(plain).Length? && Unpadded(plain).n > 0
    ensures Unpadded(plain).n < |plain| && IsEncryption(f, k, cipher[..8], plain[..Unpadded(plain).n], cipher)
  {
    hide Chain, Unchain, Blocks, Padded, Unpadded, IsDecrypted, Chained;
    SizeOfDecrypted(f, k, cipher, plain);
    UnpaddedIsPadded(plain);
    AllUnchained(f, k, cipher, plain);
    AllChainedAgain(f, k, cipher, plain);
  }

  lemma SizeOfDecrypted(f: Table, k: Key, cipher: seq<byte>, plain: seq<byte>)
    requires IsDecrypted(f, k, cipher, plain)
    ensures |cipher| == |plain| + 8
  {
  }

  lemma AllChainedAgain(f: Table, k: Key, cipher: seq<byte>, plain: seq<byte>)
    requires 16 <= |cipher| <= 0x100 && |cipher| % 8 == 0 && |cipher| == |plain| + 8
    requires |Blocks(cipher)| >= 1 && Blocks(plain) == Unchain(f, k, Blocks(cipher))
    ensures Chained(f, k, cipher, cipher[..8] + plain)
  {
    hide Chain, Unchain, Blocks;
    ChainUndoesUnchain(f, k, Blocks(cipher));
    var iv := cipher[..8];
    BlocksOfIv(iv, plain);
    BlocksOfIv(iv, cipher[8..]);
    assert iv + cipher[8..] == cipher;
    var b := Blocks(iv + plain);
    assert b == [Blocks(cipher)[0]] + Unchain(f, k, Blocks(cipher));
    assert b[..|b|] == b && b[|b|..] == [];
  }

  // ---------- the implementation, in place ----------

  /** Mix a block with the one at `from`. */
  method MixBlock(data: array<byte>, at: nat, from: seq<byte>)
    requires at + 8 <= data.Length && |from| == 8
    modifies data
    ensures SameOutside(data[..], old(data[..]), at, at + 8)
    ensures BlockAt(data[..], at) == XorBlocks(BlockAt(old(data[..]), at), BlockAt(from, 0))
  {
    hide Xor;
    for j := 0 to 8
      invariant forall i :: 0 <= i < data.Length && !(at <= i < at + j) ==> data[i] == old(data[i])
      invariant forall i :: at <= i < at + j ==> data[i] == Xor(old(data[i]), from[i - at])
    {
      data[at + j] := Xor(data[at + j], from[j]);
    }
  }

  lemma PrefixBlocks(s: seq<byte>, n: nat)
    requires n <= |s|
    ensures Blocks(s[..n]) == Blocks(s)[..n / 8]
  {
  }

  lemma BlockOfPrefix(s: seq<byte>, n: nat, at: nat)
    requires at + 8 <= n <= |s|
    ensures BlockAt(s[..n], at) == BlockAt(s, at) == BlockAt(s[at..at + 8], 0)
  {
  }

  /** The last step of the chain. */
  lemma ChainStep(f: Table, k: Key, b: seq<Block>, i: nat)
    requires 1 <= i < |b|
    ensures Chain(f, k, b[..i + 1]) == Chain(f, k, b[..i]) + [Encrypt(f, k, XorBlocks(b[i], Chain(f, k, b[..i])[i - 1]))]
  {
    hide Encrypt, XorBlocks;
    assert b[..i + 1][..i] == b[..i];
  }

  /** Encrypt one block of the buffer, with the one before it carried on. */
  method ChainBlock(f: Table, key: Key, data: array<byte>, i: nat, ghost b: seq<Block>)
    requires 1 <= i < |b| == data.Length / 8
    requires Blocks(data[..]) == Chain(f, key, b[..i]) + b[i..]
    modifies data
    ensures Blocks(data[..]) == Chain(f, key, b[..i + 1]) + b[i + 1..]
    ensures SameOutside(data[..], old(data[..]), 8 * i, 8 * i + 8)
  {
    hide Chain, Encrypt, XorBlocks, BlockAt;
    ghost var before := Blocks(data[..]);
    BlockOfPrefix(data[..], data.Length, 8 * i - 8);
    MixBlock(data, 8 * i, data[8 * i - 8..8 * i]);
    SkipjackEnc(f, data, 8 * i, key);
    BlocksChanged(data[..], old(data[..]), i);
    ChainStep(f, key, b, i);
    assert before[i] == b[i] && before[i - 1] == Chain(f, key, b[..i])[i - 1];
  }

  /** Make room for the first block, fill it, and pad the packet. */
  method Prepare(data: array<byte>, len: Integers.u16, iv: seq<byte>) returns (len': nat)
    requires |iv| == 8 && data.Length == len + 16 - len % 8
    modifies data
    ensures len' == data.Length && data[..] == iv + Padded(old(data[..len]))
  {
    ghost var p := data[..len];
    forall i | 0 <= i < len {
      data[8 + i] := data[i];
    }
    ghost var moved := data[..];
    for i := 0 to 8
      invariant forall j :: 0 <= j < i ==> data[j] == iv[j]
      invariant forall j :: 8 <= j < data.Length ==> data[j] == moved[j]
    {
      data[i] := iv[i];
    }
    len' := AddPadding(data, len + 8);
    assert forall j :: 8 <= j < 8 + len ==> data[j] == p[j - 8];
    assert data[..] == iv + Padded(p);
  }

  method AddPadding(data: array<byte>, len: nat) returns (len': nat)
    requires data.Length == len + 8 - len % 8
    modifies data
    ensures len' == data.Length
    ensures forall i :: 0 <= i < data.Length ==> data[i] == if i < len then old(data[i]) else PAD[8 - len % 8 - 1]
  {
    var padChar := PAD[8 - len % 8 - 1];
    len' := len;
    data[len'] := padChar;
    len' := len' + 1;
    while len' % 8 != 0
      invariant len < len' <= data.Length
      invariant forall i :: 0 <= i < len' ==> data[i] == if i < len then old(data[i]) else padChar
      decreases data.Length - len'
    {
      data[len'] := padChar;
      len' := len' + 1;
    }
  }

  /** `llh_encrypt`, with the bytes of the first block drawn by the caller. */
  method LlhEncrypt(f: Table, key: Key, data: array<byte>, len: Integers.u16, iv: seq<byte>) returns (len': nat)
    requires |iv| == 8 && data.Length == len + 16 - len % 8
    modifies data
    ensures len' == data.Length
    ensures IsEncryption(f, key, iv, old(data[..len]), data[..])
  {
    hide Chain, Blocks, Padded;
    ghost var p := data[..len];
    len' := Prepare(data, len, iv);
    var lastblock := len' / 8 % 0x100;
    ghost var b := Blocks(data[..]);
    ChainOfOne(f, key, b);
    var i := 1;
    while i < lastblock
      invariant 1 <= i && (i <= lastblock || i == 1)
      invariant Blocks(data[..]) == Chain(f, key, b[..i]) + b[i..]
    {
      ChainBlock(f, key, data, i, b);
      i := i + 1;
    }
  }

  lemma ChainOfOne(f: Table, k: Key, b: seq<Block>)
    requires |b| >= 1
    ensures Chain(f, k, b[..1]) + b[1..] == b
    ensures Chain(f, k, b[..0]) + b[0..] == b
  {
  }

  lemma UnchainStep(f: Table, k: Key, c: seq<Block>, i: nat)
    requires 1 <= i < |c|
    ensures Unchain(f, k, c[..i + 1]) == Unchain(f, k, c[..i]) + [XorBlocks(c[i - 1], Decrypt(f, k, c[i]))]
  {
  }

  /** Decrypt one block of the buffer, and leave the plain text where the block before was. */
  method UnchainBlock(f: Table, key: Key, data: array<byte>, i: nat, ghost c: seq<Block>)
    requires 1 <= i < |c| == data.Length / 8
    requires Blocks(data[..]) == Unchain(f, key, c[..i]) + c[i - 1..]
    modifies data
    ensures Blocks(data[..]) == Unchain(f, key, c[..i + 1]) + c[i..]
  {
    hide BlockAt, Decrypt, XorBlocks, Unchain;
    UnchainStep(f, key, c, i);
    ghost var s, before := data[..], Blocks(data[..]);
    var buf := new byte[8];
    forall j | 0 <= j < 8 {
      buf[j] := data[8 * i + j];
    }
    assert buf[..] == s[8 * i..8 * i + 8];
    BlockOfPrefix(s, |s|, 8 * i);
    assert data[..] == s;
    SkipjackDec(f, buf, 0, key);
    MixBlock(data, 8 * (i - 1), buf[..]);
    BlocksChanged(data[..], old(data[..]), i - 1);
    assert before[i - 1] == c[i - 1] && before[i] == c[i];
    ghost var x := XorBlocks(c[i - 1], Decrypt(f, key, c[i]));
    assert BlockAt(data[..], 8 * (i - 1)) == x;
    assert before[i - 1 := x] == Unchain(f, key, c[..i]) + [x] + c[i..];
  }

  /** The value of a byte after some steps from `start`. */
  function After(start: nat, steps: nat): nat {
    if start + steps < 0x100 then start + steps else start + steps - 0x100
  }

  /** How many steps a byte takes from `start` to `j`. */
  function StepsTo(start: nat, j: nat): int {
    if j >= start then j - start else j + 0x100 - start
  }

  /** The bytes that the first steps of the search meet are padding. */
  ghost predicate IsChecked(plain: seq<byte>, start: nat, steps: nat, padChar: byte) {
    forall j: nat :: j < 0x100 && j < |plain| && StepsTo(start, j) < steps ==> plain[j] == padChar
  }

  lemma CheckedNext(plain: seq<byte>, start: nat, steps: nat, padChar: byte)
    requires start < 0x100 && steps < 0x100 && IsChecked(plain, start, steps, padChar)
    requires After(start, steps) < |plain| && plain[After(start, steps)] == padChar
    ensures IsChecked(plain, start, steps + 1, padChar)
    ensures (After(start, steps) + 1) % 0x100 == After(start, steps + 1)
  {
  }

  /** What the search finds when it meets another byte, when its index is past the end, or
      when it has come round. */
  lemma Searched(plain: seq<byte>, start: nat, steps: nat, pad: nat, padChar: byte)
    requires |plain| >= 8 && 1 <= pad <= 8 && PadLength(padChar) == pad && plain[|plain| - 1] == padChar
    requires start == (|plain| - pad) % 0x100 && steps <= 0x100 && (|plain| <= 0xFF ==> steps <= pad)
    requires IsChecked(plain, start, steps, padChar)
    ensures steps < 0x100 && After(start, steps) < |plain| && plain[After(start, steps)] != padChar ==> Unpadded(plain) == Length(0)
    ensures After(start, steps) >= |plain| ==> Unpadded(plain) == Length(|plain| - pad)
    ensures steps == 0x100 && After(start, steps) < |plain| ==> Unpadded(plain) == Hangs
  {
    hide PadLength;
  }

  /** The search of the padding, with an index that is a byte. */
  method CheckPadding(data: array<byte>, len: nat, pad: nat, padChar: byte) returns (result: Outcome)
    requires 8 <= len <= data.Length && len % 8 == 0 && 1 <= pad <= 8 && PadLength(padChar) == pad && data[len - 1] == padChar
    ensures result == Unpadded(data[..len])
  {
    hide PadLength, Unpadded, IsChecked;
    ghost var plain := data[..len];
    var start: nat := (len - pad) % 0x100;
    var i: nat := start;
    // a byte has come round to where it began after 256 steps
    var steps: nat := 0;
    NothingChecked(plain, start, padChar);
    while i < len && steps < 0x100
      invariant steps <= 0x100 && i == After(start, steps)
      invariant len <= 0xFF ==> steps <= pad
      invariant IsChecked(plain, start, steps, padChar)
      decreases 0x100 - steps
    {
      assert data[i] == plain[i];
      if data[i] != padChar {
        Searched(plain, start, steps, pad, padChar);
        return Length(0);
      }
      CheckedNext(plain, start, steps, padChar);
      i := (i + 1) % 0x100;
      steps := steps + 1;
    }
    Searched(plain, start, steps, pad, padChar);
    result := if i < len then Hangs else Length(len - pad);
  }

  lemma NothingChecked(plain: seq<byte>, start: nat, padChar: byte)
    requires start < 0x100
    ensures IsChecked(plain, start, 0, padChar)
  {
  }

  /** The loop of `llh_decrypt` over the first `lastblock` blocks. */
  method UnchainFirst(f: Table, key: Key, data: array<byte>, lastblock: nat, ghost c: seq<Block>)
    requires lastblock <= |c| == data.Length / 8 && |c| >= 1 && Blocks(data[..]) == c
    modifies data
    ensures var m := if lastblock == 0 then 1 else lastblock;
      Blocks(data[..]) == Unchain(f, key, c[..m]) + c[m - 1..]
  {
    hide Blocks, Unchain, BlockAt, SameOutside;
    UnchainOfOne(f, key, c);
    var i: nat := 1;
    while i < lastblock
      invariant 1 <= i <= |c| && (i <= lastblock || i == 1)
      invariant Blocks(data[..]) == Unchain(f, key, c[..i]) + c[i - 1..]
    {
      UnchainBlock(f, key, data, i, c);
      i := i + 1;
    }
  }

  method UnchainAll(f: Table, key: Key, data: array<byte>)
    requires data.Length >= 16 && data.Length % 8 == 0
    modifies data
    ensures IsDecrypted(f, key, old(data[..]), data[..data.Length - 8])
  {
    hide Blocks, Unchain, IsDecrypted;
    var lastblock: nat := data.Length / 8 % 0x100;
    UnchainFirst(f, key, data, lastblock, Blocks(data[..]));
    WithoutLastBlock(f, key, data[..], old(data[..]), if lastblock == 0 then 1 else lastblock);
    assert data[..][..data.Length - 8] == data[..data.Length - 8];
  }

  lemma WithoutLastBlock(f: Table, k: Key, s: seq<byte>, cipher: seq<byte>, i: nat)
    requires |s| == |cipher| >= 16 && |s| % 8 == 0 && 1 <= i <= |s| / 8
    requires i == |s| / 8 % 0x100 || (i == 1 && |s| / 8 % 0x100 == 0)
    requires Blocks(s) == Unchain(f, k, Blocks(cipher)[..i]) + Blocks(cipher)[i - 1..]
    ensures IsDecrypted(f, k, cipher, s[..|s| - 8])
  {
    hide Blocks, Unchain;
    var c := Blocks(cipher);
    PrefixBlocks(s, |s| - 8);
    assert |Unchain(f, k, c[..i])| == i - 1;
    assert Blocks(s)[..|c| - 1] == Unchain(f, k, c[..i]) + c[i - 1..|c| - 1];
    if i == 1 {
      assert Unchain(f, k, c[..i]) + c[0..|c| - 1] == c[..|c| - 1];
    }
  }

  /** `llh_decrypt` */
  method LlhDecrypt(f: Table, key: Key, data: array<byte>, len: Integers.u16) returns (result: Outcome)
    requires data.Length == len
    modifies data
    ensures len < 16 || len % 8 != 0 ==> result == Length(0) && data[..] == old(data[..])
    ensures len >= 16 && len % 8 == 0 ==> IsDecrypted(f, key, old(data[..]), data[..len - 8]) && result == Unpadded(data[..len - 8])
  {
    hide Blocks, Unchain, Unpadded, PadLength, IsDecrypted;
    if len < 16 || len % 8 != 0 {
      return Length(0);
    }
    UnchainAll(f, key, data);
    var plain: nat := len - 8;
    var padChar := data[plain - 1];
    var pad := PadLength(padChar);
    if pad < 1 {
      BadPadding(data[..plain]);
      return Length(0);
    }
    result := CheckPadding(data, plain, pad, padChar);
  }

  lemma BadPadding(plain: seq<byte>)
    requires |plain| >= 8 && PadLength(plain[|plain| - 1]) == 0
    ensures Unpadded(plain) == Length(0)
  {
  }

  lemma UnchainOfOne(f: Table, k: Key, c: seq<Block>)
    requires |c| >= 1
    ensures Unchain(f, k, c[..1]) + c[0..] == c
  {
  }
}
