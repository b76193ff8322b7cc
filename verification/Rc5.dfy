/** The RC5 infrared codec: a sender that drives a pin, and a receiver whose interrupts find
    the bits again from the edges and the time between them. */
module Rc5 {
  import opened Integers
  import opened Words

  const RC5_BIT_TICKS: nat := 35
  const RC5_HALF_BIT_TICKS: nat := RC5_BIT_TICKS / 2
  const RC5_ENVIRONMENT: nat := RC5_BIT_TICKS / 5

  // ---------- the signal ----------

  /** The level at the receiver during half bit `h` of a word, the inverse of what is sent:
      a one is high and then low, a zero low and then high. The line is high when idle. */
  function Level(word: seq<bool>, h: int): bool {
    if 0 <= h < 2 * |word| then (h % 2 == 0) == word[h / 2] else true
  }

  /** The level changes where half bit `h` begins. */
  predicate HasEdge(word: seq<bool>, h: int) {
    Level(word, h) != Level(word, h - 1)
  }

  function EdgesUpTo(word: seq<bool>, h: nat): nat {
    (if h == 0 then 0 else EdgesUpTo(word, h - 1)) + (if HasEdge(word, h) then 1 else 0)
  }

  /** The last edge at or before `h`. */
  function LastEdge(word: seq<bool>, h: nat): int {
    if HasEdge(word, h) then h else h - 1
  }

  /** Every bit has an edge in its middle; between two bits there is one exactly when they
      are equal, and after the last bit when it is a one. */
  lemma WhereEdgesAre(word: seq<bool>, i: nat)
    requires i < |word|
    ensures HasEdge(word, 2 * i + 1)
    ensures i + 1 < |word| ==> (HasEdge(word, 2 * i + 2) <==> word[i] == word[i + 1])
    ensures i + 1 == |word| ==> (HasEdge(word, 2 * i + 2) <==> word[i])
  {
    assert (2 * i + 1) / 2 == i && (2 * i + 1) % 2 == 1;
    assert (2 * i + 2) / 2 == i + 1 && (2 * i + 2) % 2 == 0;
  }

  /** The parity of the edges so far tells the level. */
  lemma {:induction false} EdgeParity(word: seq<bool>, h: nat)
    requires word != [] && word[0]
    ensures EdgesUpTo(word, h) % 2 == (if Level(word, h) then 0 else 1)
  {
    if h > 0 {
      EdgeParity(word, h - 1);
    }
  }

  /** `timing[h]` is what the timer reads where half bit `h` begins, if there is an edge: 11 to 23
      ticks after an edge one half bit before, 29 to 41 after one two half bits before. */
  ghost predicate WellTimed(word: seq<bool>, timing: seq<byte>) {
    && |timing| == 2 * |word| + 1
    && forall h: nat {:trigger timing[h]} :: 2 <= h <= 2 * |word| && HasEdge(word, h) ==>
      if HasEdge(word, h - 1) then 11 <= timing[h] <= 23 else 29 <= timing[h] <= 41
  }

  /** A bit of 35 ticks, and a half bit of 17. */
  lemma NominalIsWellTimed(word: seq<bool>, timing: seq<byte>)
    requires |timing| == 2 * |word| + 1
    requires forall h: nat :: 2 <= h <= 2 * |word| ==> timing[h] == if HasEdge(word, h - 1) then 17 else 35
    ensures WellTimed(word, timing)
  {
  }

  // ---------- what the interrupts do ----------

  datatype State = State(
    enabled: bool, tempDisable: bool, newData: bool,
    halfbits: byte, interrupts: byte,
    raw: u16, received: u16,
    /** The overflow interrupt of the timer is enabled. */
    armed: bool)

  /** The windows of the receiver for one half bit and for two. */
  predicate InWindow(ticks: byte, halfBits: int) {
    && (halfBits == 1 ==> RC5_HALF_BIT_TICKS - RC5_ENVIRONMENT < ticks < RC5_HALF_BIT_TICKS + RC5_ENVIRONMENT)
    && (halfBits == 2 ==> RC5_BIT_TICKS - RC5_ENVIRONMENT < ticks < RC5_BIT_TICKS + RC5_ENVIRONMENT)
  }

  function WithHalfBit(s: State): State {
    var count := (s.halfbits + 1) % 0x100;
    s.(halfbits := count, raw := if count % 2 == 1 then (2 * s.raw + s.interrupts % 2) % 0x1_0000 else s.raw)
  }

  function WithInterrupt(s: State): State {
    s.(interrupts := (s.interrupts + 1) % 0x100)
  }

  /** An edge, with the timer at `ticks` since the edge before. */
  function Edge(s: State, ticks: byte): State {
    if !s.enabled || s.tempDisable then s
    else if s.interrupts == 0 then WithInterrupt(s.(armed := true, raw := 0))
    else if InWindow(ticks, 1) then WithInterrupt(WithHalfBit(s))
    else if InWindow(ticks, 2) then WithInterrupt(WithHalfBit(WithHalfBit(s)))
    else s.(tempDisable := true, halfbits := 0)
  }

  /** The timer overflows: nothing has happened for longer than a bit. */
  function Timeout(s: State): State {
    var done := if s.halfbits == 26 then s.(received := 2 * s.raw % 0x1_0000, newData := true)
                else if s.halfbits == 27 then s.(received := s.raw, newData := true)
                else s;
    done.(armed := false, halfbits := 0, interrupts := 0, raw := if s.halfbits == 26 then 2 * s.raw % 0x1_0000 else s.raw,
          tempDisable := s.tempDisable && !s.enabled)
  }

  /** The receiver waits for the first edge of a word. */
  predicate Idle(s: State) {
    s.enabled && !s.tempDisable && s.halfbits == 0 && s.interrupts == 0
  }

  // ---------- decoding undoes encoding ----------

  /** The number that bits spell, the first one highest. */
  function Value(bits: seq<bool>): nat {
    if bits == [] then 0 else 2 * Value(bits[..|bits| - 1]) + (if bits[|bits| - 1] then 1 else 0)
  }

  /** The state after the edges of a word up to where half bit `h` begins. */
  function Hear(s: State, word: seq<bool>, timing: seq<byte>, h: nat): State
    requires h < |timing|
  {
    var before := if h == 0 then s else Hear(s, word, timing, h - 1);
    if HasEdge(word, h) then Edge(before, timing[h]) else before
  }

  /** The receiver has counted so many edges and half bits, and recorded the first `bits`
      bits of the word. */
  ghost predicate Counts(s: State, word: seq<bool>, edges: nat, halfbits: nat, bits: nat) {
    && s.enabled && !s.tempDisable && s.armed && bits <= |word|
    && s.interrupts == edges % 0x100
    && s.halfbits == halfbits % 0x100
    && s.raw == Value(word[..bits]) % 0x1_0000
  }

  /** What the receiver knows where half bit `h` begins: it looks back from the last edge. */
  ghost predicate InStep(s: State, word: seq<bool>, h: nat)
    requires 1 <= h <= 2 * |word|
  {
    1 <= LastEdge(word, h) && Counts(s, word, EdgesUpTo(word, h), LastEdge(word, h) - 1, LastEdge(word, h) / 2)
  }

  lemma ValueOfNext(bits: seq<bool>, k: nat)
    requires k < |bits|
    ensures Value(bits[..k + 1]) == 2 * Value(bits[..k]) + (if bits[k] then 1 else 0)
  {
    assert bits[..k + 1][..k] == bits[..k];
  }

  lemma Doubled(v: nat, b: nat)
    ensures (2 * (v % 0x1_0000) + b) % 0x1_0000 == (2 * v + b) % 0x1_0000
  {
  }

  lemma CountsOn(x: nat)
    ensures (x % 0x100 + 1) % 0x100 == (x + 1) % 0x100
    ensures x % 0x100 % 2 == x % 2
  {
    ParityOfByte(x);
  }

  lemma ParityOfByte(x: nat)
    ensures x % 0x100 % 2 == x % 2
  {
  }

  /** The half bit that ends a bit records it: the edges before tell the level of its
      second half. */
  lemma BitRecorded(s: State, word: seq<bool>, k: nat, edges: nat)
    requires k < |word| && word[0] && edges == EdgesUpTo(word, 2 * k + 1)
    requires Counts(s, word, edges, 2 * k, k)
    ensures Counts(WithHalfBit(s), word, edges, 2 * k + 1, k + 1)
  {
    hide EdgesUpTo;
    EdgeParity(word, 2 * k + 1);
    assert (2 * k + 1) / 2 == k && (2 * k + 1) % 2 == 1;
    CountsOn(edges);
    CountsOn(2 * k);
    CountsOn(2 * k + 1);
    ValueOfNext(word, k);
    Doubled(Value(word[..k]), if word[k] then 1 else 0);
  }

  /** The half bit that ends in the middle of a bit is only counted. */
  lemma HalfBitCounted(s: State, word: seq<bool>, k: nat, edges: nat)
    requires Counts(s, word, edges, 2 * k + 1, k + 1)
    ensures Counts(WithHalfBit(s), word, edges, 2 * k + 2, k + 1)
  {
    hide Value;
    CountsOn(2 * k + 1);
    CountsOn(2 * k + 2);
  }

  lemma EdgeCounted(s: State, word: seq<bool>, edges: nat, halfbits: nat, bits: nat)
    requires Counts(s, word, edges, halfbits, bits)
    ensures Counts(WithInterrupt(s), word, edges + 1, halfbits, bits)
  {
    CountsOn(edges);
  }

  lemma HalvesOf(k: nat)
    ensures (2 * k + 1) / 2 == k && (2 * k + 2) / 2 == k + 1 && (2 * k + 3) / 2 == k + 1
  {
  }

  /** The edge after the bit `k`, if the next one is equal. */
  lemma EdgeAfterBit(s: State, word: seq<bool>, ticks: byte, k: nat)
    requires k < |word| && word[0] && InWindow(ticks, 1)
    requires var e := EdgesUpTo(word, 2 * k + 1); 0 < e < 0x100 && Counts(s, word, e, 2 * k, k)
    ensures Counts(Edge(s, ticks), word, EdgesUpTo(word, 2 * k + 1) + 1, 2 * k + 1, k + 1)
  {
    hide EdgesUpTo, Value, WithHalfBit;
    var e := EdgesUpTo(word, 2 * k + 1);
    BitRecorded(s, word, k, e);
    EdgeCounted(WithHalfBit(s), word, e, 2 * k + 1, k + 1);
  }

  /** The edge in the middle of the bit after `k`, one or two half bits after the last. */
  lemma EdgeInBit(s: State, word: seq<bool>, ticks: byte, k: nat, halfBits: nat, e: nat)
    requires k + 1 < |word| && word[0] && 1 <= halfBits <= 2 && InWindow(ticks, halfBits) && 0 < e < 0x100
    requires halfBits == 1 ==> Counts(s, word, e, 2 * k + 1, k + 1)
    requires halfBits == 2 ==> Counts(s, word, e, 2 * k, k) && e == EdgesUpTo(word, 2 * k + 1)
    ensures Counts(Edge(s, ticks), word, e + 1, 2 * k + 2, k + 1)
  {
    hide EdgesUpTo, Value, WithHalfBit;
    if halfBits == 2 {
      BitRecorded(s, word, k, e);
      HalfBitCounted(WithHalfBit(s), word, k, e);
      EdgeCounted(WithHalfBit(WithHalfBit(s)), word, e, 2 * k + 2, k + 1);
    } else {
      HalfBitCounted(s, word, k, e);
      EdgeCounted(WithHalfBit(s), word, e, 2 * k + 2, k + 1);
    }
  }

  /** The level may change or stay between two bits. */
  lemma AfterBitInStep(s: State, word: seq<bool>, ticks: byte, k: nat)
    requires k < |word| && word[0] && InStep(s, word, 2 * k + 1)
    requires HasEdge(word, 2 * k + 2) ==> InWindow(ticks, 1) && EdgesUpTo(word, 2 * k + 1) < 0x100
    ensures InStep(if HasEdge(word, 2 * k + 2) then Edge(s, ticks) else s, word, 2 * k + 2)
  {
    hide Level, Value, WithHalfBit, InWindow, Edge;
    WhereEdgesAre(word, k);
    HalvesOf(k);
    if HasEdge(word, 2 * k + 2) {
      EdgeAfterBit(s, word, ticks, k);
    }
  }

  /** There always is an edge in the middle of a bit. */
  lemma InBitInStep(s: State, word: seq<bool>, ticks: byte, k: nat)
    requires k + 1 < |word| && word[0] && InStep(s, word, 2 * k + 2) && EdgesUpTo(word, 2 * k + 2) < 0x100
    requires InWindow(ticks, if HasEdge(word, 2 * k + 2) then 1 else 2)
    ensures InStep(Edge(s, ticks), word, 2 * k + 3)
  {
    hide Level, Value, WithHalfBit, InWindow, Edge;
    WhereEdgesAre(word, k);
    WhereEdgesAre(word, k + 1);
    HalvesOf(k);
    EdgeInBit(s, word, ticks, k, if HasEdge(word, 2 * k + 2) then 1 else 2, EdgesUpTo(word, 2 * k + 2));
  }

  lemma MoreEdges(word: seq<bool>, h: nat, h': nat)
    requires h <= h'
    ensures EdgesUpTo(word, h) <= EdgesUpTo(word, h')
  {
  }

  /** The first edge, in the middle of the first bit. */
  lemma FirstEdge(s: State, word: seq<bool>, timing: seq<byte>)
    requires Idle(s) && word != [] && word[0] && |timing| == 2 * |word| + 1
    ensures InStep(Hear(s, word, timing, 1), word, 1) && EdgesUpTo(word, 1) == 1
  {
  }

  lemma {:induction false} HearsInStep(s: State, word: seq<bool>, timing: seq<byte>, h: nat)
    requires Idle(s) && word != [] && word[0] && WellTimed(word, timing)
    requires 1 <= h <= 2 * |word| && EdgesUpTo(word, h) <= 0x100
    ensures InStep(Hear(s, word, timing, h), word, h)
  {
    hide Level, Value, InWindow, Edge, InStep, EdgesUpTo, HasEdge, Hear;
    if h == 1 {
      FirstEdge(s, word, timing);
    } else {
      MoreEdges(word, h - 1, h);
      HearsInStep(s, word, timing, h - 1);
      HearStep(s, word, timing, h);
      var before := Hear(s, word, timing, h - 1);
      WhatEdgesNeed(word, timing, h);
      var k := (h - 2) / 2;
      if h % 2 == 0 {
        assert h == 2 * k + 2;
        AfterBitInStep(before, word, timing[h], k);
      } else {
        assert h == 2 * k + 3;
        InBitInStep(before, word, timing[h], k);
      }
    }
  }

  lemma HearStep(s: State, word: seq<bool>, timing: seq<byte>, h: nat)
    requires 0 < h < |timing|
    ensures Hear(s, word, timing, h) == var before := Hear(s, word, timing, h - 1); if HasEdge(word, h) then Edge(before, timing[h]) else before
  {
  }

  lemma WhatEdgesNeed(word: seq<bool>, timing: seq<byte>, h: nat)
    requires WellTimed(word, timing) && 2 <= h <= 2 * |word|
    ensures HasEdge(word, h) ==>
      InWindow(timing[h], if HasEdge(word, h - 1) then 1 else 2) && EdgesUpTo(word, h) == EdgesUpTo(word, h - 1) + 1
    ensures h % 2 == 1 ==> HasEdge(word, h)
    ensures h % 2 == 0 ==> HasEdge(word, h - 1)
  {
  }

  /** The level of the line after a word tells its last bit. */
  lemma EndOfWord(word: seq<bool>)
    requires word != []
    ensures LastEdge(word, 2 * |word|) == if word[|word| - 1] then 2 * |word| else 2 * |word| - 1
  {
  }

  /** The edges of a word record its bits; a trailing zero makes no edge at its end, and is
      recorded by the timeout, as long as 26 half bits tell that it was the fourteenth.
      The edge counter must not come round to 0, which would look like a first edge. */
  lemma DecodeUndoesEncode(s: State, word: seq<bool>, timing: seq<byte>)
    requires Idle(s) && word != [] && word[0] && WellTimed(word, timing) && EdgesUpTo(word, 2 * |word|) <= 0x100
    ensures var t := Hear(s, word, timing, 2 * |word|);
      && t.raw == Value(if word[|word| - 1] then word else word[..|word| - 1]) % 0x1_0000
      && Idle(Timeout(t))
      && Timeout(t).received == (if |word| % 0x80 == 14 then Value(word) % 0x1_0000 else t.received)
      && Timeout(t).newData == (t.newData || |word| % 0x80 == 14)
  {
    hide Level, InWindow, Edge, EdgesUpTo, HasEdge, Hear, Value, LastEdge;
    var n := |word|;
    HearsInStep(s, word, timing, 2 * n);
    EndOfWord(word);
    var t := Hear(s, word, timing, 2 * n);
    assert word[..n] == word;
    ValueOfNext(word, n - 1);
    Doubled(Value(word[..n - 1]), 0);
    HalvesOf(n - 1);
    CountTells(n);
  }

  /** The half bits of a word, counted in a byte, tell a length of fourteen from others. */
  lemma CountTells(n: nat)
    requires n > 0
    ensures ((2 * n - 1) % 0x100 == 27 <==> n % 0x80 == 14) && (2 * n - 1) % 0x100 != 26
    ensures ((2 * n - 2) % 0x100 == 26 <==> n % 0x80 == 14) && (2 * n - 2) % 0x100 != 27
  {
    var q, r := n / 0x80, n % 0x80;
    assert 2 * n - 1 == 0x100 * q + (2 * r - 1) && 2 * n - 2 == 0x100 * q + (2 * r - 2);
  }

  lemma EdgesAreFew(word: seq<bool>, h: nat)
    requires word != [] && word[0]
    ensures EdgesUpTo(word, h) <= h
  {
  }

  /** Past 256 edges the counter is 0 again, and the next edge wipes what was recorded. */
  lemma LongWordIsLost(s: State, word: seq<bool>, timing: seq<byte>, h: nat)
    requires Idle(s) && word != [] && word[0] && WellTimed(word, timing)
    requires 1 < h <= 2 * |word| && HasEdge(word, h) && EdgesUpTo(word, h - 1) == 0x100
    ensures Hear(s, word, timing, h).raw == 0 && Hear(s, word, timing, h).halfbits == Hear(s, word, timing, h - 1).halfbits
  {
    hide Level, EdgesUpTo, HasEdge, Value;
    HearsInStep(s, word, timing, h - 1);
  }

  lemma {:induction false} FirstTooMany(word: seq<bool>, h: nat) returns (first: nat)
    requires word != [] && word[0] && EdgesUpTo(word, h) > 0x100
    ensures 1 < first <= h && HasEdge(word, first) && EdgesUpTo(word, first - 1) == 0x100
  {
    hide Level;
    EdgesAreFew(word, h);
    first := h;
    if EdgesUpTo(word, h - 1) > 0x100 {
      first := FirstTooMany(word, h - 1);
    }
  }

  /** The receiver keeps step with the word to its end if and only if there are no more than
      256 edges. */
  lemma StaysInStep(s: State, word: seq<bool>, timing: seq<byte>)
    requires Idle(s) && word != [] && word[0] && WellTimed(word, timing)
    ensures (forall h: nat :: 1 <= h <= 2 * |word| ==> InStep(Hear(s, word, timing, h), word, h))
      <==> EdgesUpTo(word, 2 * |word|) <= 0x100
  {
    hide Level, Value, InWindow, EdgesUpTo, HasEdge, Hear;
    if EdgesUpTo(word, 2 * |word|) <= 0x100 {
      forall h: nat | 1 <= h <= 2 * |word|
        ensures InStep(Hear(s, word, timing, h), word, h)
      {
        MoreEdges(word, h, 2 * |word|);
        HearsInStep(s, word, timing, h);
      }
    } else {
      var h := FirstTooMany(word, 2 * |word|);
      HearsInStep(s, word, timing, h - 1);
      LongWordIsLost(s, word, timing, h);
      assert !InStep(Hear(s, word, timing, h), word, h);
    }
  }

  /** The receiver has counted `gap` half bits too few. */
  ghost predicate IsShort(s: State, word: seq<bool>, h: nat, gap: nat)
    requires 1 <= h <= 2 * |word|
  {
    && s.enabled && !s.tempDisable && s.interrupts == EdgesUpTo(word, h) % 0x100
    && s.halfbits == (LastEdge(word, h) - 1 - gap) % 0x100
  }

  lemma ShortStep(s: State, word: seq<bool>, ticks: byte, h: nat, gap: nat)
    requires 2 <= h <= 2 * |word| && IsShort(s, word, h - 1, gap) && 0x100 < EdgesUpTo(word, h - 1)
    requires HasEdge(word, h) ==> EdgesUpTo(word, h) < 0x201 && InWindow(ticks, h - LastEdge(word, h - 1))
    requires HasEdge(word, h) || HasEdge(word, h - 1)
    ensures IsShort(if HasEdge(word, h) then Edge(s, ticks) else s, word, h, gap)
  {
    hide Level, InWindow, Edge;
    if HasEdge(word, h) {
      var halfBits := h - LastEdge(word, h - 1);
      CountsOn(EdgesUpTo(word, h - 1));
      EdgeCounts(s, ticks, halfBits);
      MoreHalfBits(LastEdge(word, h - 1) - 1 - gap, halfBits);
    }
  }

  /** An edge in its window counts itself and the half bits since the last one. */
  lemma EdgeCounts(s: State, ticks: byte, halfBits: nat)
    requires s.enabled && !s.tempDisable && s.interrupts > 0 && 1 <= halfBits <= 2 && InWindow(ticks, halfBits)
    ensures var t := Edge(s, ticks);
      && t.enabled && !t.tempDisable && t.interrupts == (s.interrupts + 1) % 0x100
      && t.halfbits == (s.halfbits + halfBits) % 0x100
  {
  }

  lemma MoreHalfBits(x: int, halfBits: nat)
    ensures (x % 0x100 + halfBits) % 0x100 == (x + halfBits) % 0x100
  {
  }

  lemma {:induction false} StaysShort(s: State, word: seq<bool>, timing: seq<byte>, first: nat, gap: nat, h: nat)
    requires Idle(s) && word != [] && word[0] && WellTimed(word, timing)
    requires 1 <= first <= h <= 2 * |word| && EdgesUpTo(word, first) > 0x100 && EdgesUpTo(word, h) <= 0x200
    requires IsShort(Hear(s, word, timing, first), word, first, gap)
    ensures IsShort(Hear(s, word, timing, h), word, h, gap)
    decreases h
  {
    hide Level, EdgesUpTo, HasEdge, Hear, InWindow, Edge, IsShort;
    if first < h {
      MoreEdges(word, h - 1, h);
      MoreEdges(word, first, h - 1);
      StaysShort(s, word, timing, first, gap, h - 1);
      HearStep(s, word, timing, h);
      WhatEdgesNeed(word, timing, h);
      ShortStep(Hear(s, word, timing, h - 1), word, timing[h], h, gap);
    }
  }

  /** With up to 512 edges a word is counted right at its end if and only if it has no more
      than 256: the half bits before the edge that wiped are missing for good. */
  lemma CountedIffShort(s: State, word: seq<bool>, timing: seq<byte>)
    requires Idle(s) && word != [] && word[0] && WellTimed(word, timing) && EdgesUpTo(word, 2 * |word|) <= 0x200
    ensures Hear(s, word, timing, 2 * |word|).halfbits == (LastEdge(word, 2 * |word|) - 1) % 0x100
      <==> EdgesUpTo(word, 2 * |word|) <= 0x100
  {
    hide Level, Value, InWindow, EdgesUpTo, HasEdge, Hear;
    var n := 2 * |word|;
    if EdgesUpTo(word, n) <= 0x100 {
      HearsInStep(s, word, timing, n);
    } else {
      var h := FirstTooMany(word, n);
      HearsInStep(s, word, timing, h - 1);
      LongWordIsShort(s, word, timing, h);
      StaysShort(s, word, timing, h, h - LastEdge(word, h - 1), n);
      LastEdges(word, h);
    }
  }

  lemma LastEdges(word: seq<bool>, h: nat)
    ensures h > 0 && HasEdge(word, h) ==> 1 <= h - LastEdge(word, h - 1) <= 2
  {
  }

  /** The edge that wipes is counted, but not the half bits before it. */
  lemma LongWordIsShort(s: State, word: seq<bool>, timing: seq<byte>, h: nat)
    requires Idle(s) && word != [] && word[0] && WellTimed(word, timing)
    requires 1 < h <= 2 * |word| && HasEdge(word, h) && EdgesUpTo(word, h - 1) == 0x100
    ensures h - LastEdge(word, h - 1) >= 1
    ensures IsShort(Hear(s, word, timing, h), word, h, h - LastEdge(word, h - 1)) && EdgesUpTo(word, h) == 0x101
  {
    hide Level, Value;
    HearsInStep(s, word, timing, h - 1);
  }

  // ---------- recovery ----------

  datatype Signal = Pulse(ticks: byte) | Overflow

  function React(s: State, signal: Signal): State {
    match signal
    case Pulse(ticks) => Edge(s, ticks)
    case Overflow => if s.armed then Timeout(s) else s
  }

  function ReactAll(s: State, signals: seq<Signal>): State {
    if signals == [] then s else React(ReactAll(s, signals[..|signals| - 1]), signals[|signals| - 1])
  }

  /** Whatever comes in, the decoder never hangs: unless it is idle the timeout is armed, and
      the timeout makes it idle, ready to decode the next word. */
  lemma {:induction false} Recovery(s: State, signals: seq<Signal>)
    requires Idle(s)
    ensures var t := ReactAll(s, signals);
      t.enabled && (Idle(t) || (t.armed && Idle(Timeout(t))))
  {
    if signals != [] {
      Recovery(s, signals[..|signals| - 1]);
      NeverHangs(ReactAll(s, signals[..|signals| - 1]), signals[|signals| - 1]);
    }
  }

  lemma NeverHangs(s: State, signal: Signal)
    requires s.enabled && (Idle(s) || s.armed)
    ensures var t := React(s, signal); t.enabled && (Idle(t) || t.armed) && Idle(Timeout(t))
  {
  }

  /** The edges of further pulses, the first one first. */
  function Edges(s: State, pulses: seq<byte>): State {
    if pulses == [] then s else Edge(Edges(s, pulses[..|pulses| - 1]), pulses[|pulses| - 1])
  }

  lemma {:induction false} DisabledUntilTimeout(s: State, pulses: seq<byte>)
    requires s.tempDisable
    ensures Edges(s, pulses) == s
  {
    if pulses != [] {
      DisabledUntilTimeout(s, pulses[..|pulses| - 1]);
    }
  }

  /** An edge at any other time than those of `WellTimed` aborts the word: whatever edges follow,
      the timeout delivers nothing, and the receiver is idle again. */
  lemma OutOfTimeAborts(s: State, ticks: byte, pulses: seq<byte>)
    requires s.enabled && !s.tempDisable && s.interrupts > 0
    requires !(11 <= ticks <= 23) && !(29 <= ticks <= 41)
    ensures var t := Timeout(Edges(Edge(s, ticks), pulses));
      t.received == s.received && t.newData == s.newData && Idle(t)
  {
    DisabledUntilTimeout(Edge(s, ticks), pulses);
  }

  // ---------- the word ----------

  /** The lowest `k` bits of a number, the highest of them first. */
  function BitsOf(n: nat, k: nat): (b: seq<bool>)
    ensures |b| == k
  {
    if k == 0 then [] else [n / Pow2(k - 1) % 2 == 1] + BitsOf(n, k - 1)
  }

  lemma SplitModulus(n: nat, p: nat)
    requires p > 0
    ensures n % (2 * p) == (n / p % 2) * p + n % p
  {
    var q, b := n / p, n / p / 2;
    assert n == q * p + n % p;
    assert q * p == b * (2 * p) + (q % 2) * p;
    ModulusIsUnique(n, 2 * p, b, (q % 2) * p + n % p);
  }

  lemma {:induction false} ValueOfBits(bits: seq<bool>, n: nat, k: nat)
    ensures Value(bits + BitsOf(n, k)) == Value(bits) * Pow2(k) + n % Pow2(k)
    decreases k
  {
    hide Value, BitsOf, Pow2;
    BitsOfStep(n, k);
    if k == 0 {
      assert bits + [] == bits;
    } else {
      var p := Pow2(k - 1);
      var top := n / p % 2 == 1;
      ValueOfBits(bits + [top], n, k - 1);
      assert (bits + [top]) + BitsOf(n, k - 1) == bits + BitsOf(n, k);
      assert (bits + [top])[..|bits|] == bits && (bits + [top])[..|bits| + 1] == bits + [top];
      ValueOfNext(bits + [top], |bits|);
      SplitModulus(n, p);
      Shifted(Value(bits), n / p % 2, n, p, Value(bits + BitsOf(n, k)));
    }
  }

  lemma BitsOfStep(n: nat, k: nat)
    ensures BitsOf(n, k) == if k == 0 then [] else [n / Pow2(k - 1) % 2 == 1] + BitsOf(n, k - 1)
    ensures Pow2(k) == if k == 0 then 1 else 2 * Pow2(k - 1)
  {
  }

  lemma Shifted(v: nat, t: nat, n: nat, p: nat, value: nat)
    requires p > 0 && n % (2 * p) == t * p + n % p && value == (2 * v + t) * p + n % p
    ensures value == v * (2 * p) + n % (2 * p)
  {
  }

  function Word(toggle: bool, addr: byte, cmd: byte): (w: seq<bool>)
    ensures |w| == 14 && w[0]
  {
    [true, true, toggle] + BitsOf(addr, 5) + BitsOf(cmd, 6)
  }

  // ---------- the fields of a received command ----------

  function Code(raw: u16): nat { raw % 0x40 }
  function Address(raw: u16): nat { raw / 0x40 % 0x20 }
  predicate ToggleBit(raw: u16) { raw / 0x800 % 2 == 1 }

  lemma ValueOfWord(toggle: bool, addr: byte, cmd: byte)
    ensures Value(Word(toggle, addr, cmd)) == 0x3000 + (if toggle then 0x800 else 0) + 0x40 * (addr % 0x20) + cmd % 0x40
  {
    hide Value, BitsOf;
    var start := [true, true, toggle];
    StartBits(toggle);
    ValueOfBits(start, addr, 5);
    ValueOfBits(start + BitsOf(addr, 5), cmd, 6);
    assert Pow2(5) == 0x20 && Pow2(6) == 0x40;
  }

  lemma StartBits(toggle: bool)
    ensures Value([true, true, toggle]) == 6 + if toggle then 1 else 0
  {
    var start := [true, true, toggle];
    ValueOfNext(start, 0);
    ValueOfNext(start, 1);
    ValueOfNext(start, 2);
    assert start[..3] == start && start[..0] == [];
  }

  /** Sending an address and a command delivers them, with the toggle bit. */
  lemma SentIsReceived(s: State, toggle: bool, addr: byte, cmd: byte, timing: seq<byte>)
    requires Idle(s) && WellTimed(Word(toggle, addr, cmd), timing)
    ensures var t := Timeout(Hear(s, Word(toggle, addr, cmd), timing, 28));
      t.newData && Code(t.received) == cmd % 0x40 && Address(t.received) == addr % 0x20 && ToggleBit(t.received) == toggle
      && Idle(t)
  {
    hide Hear, Timeout, EdgesUpTo, HasEdge, Level, Value, Word, WellTimed;
    var word := Word(toggle, addr, cmd);
    EdgesAreFew(word, 2 * |word|);
    DecodeUndoesEncode(s, word, timing);
    ValueOfWord(toggle, addr, cmd);
    Fields(toggle, addr % 0x20, cmd % 0x40);
  }

  lemma Fields(toggle: bool, a: nat, c: nat)
    requires a < 0x20 && c < 0x40
    ensures var raw := 0x3000 + (if toggle then 0x800 else 0) + 0x40 * a + c;
      raw < 0x1_0000 && Code(raw) == c && Address(raw) == a && ToggleBit(raw) == toggle
  {
  }

  // ---------- the sender and the receiver ----------

  /** What the pin shows, pulse by pulse, while a word is sent: the inverse of the level. */
  function Sent(word: seq<bool>): (t: seq<bool>)
    ensures |t| == 2 * |word|
    ensures forall h: nat :: h < |t| ==> t[h] == !Level(word, h)
  {
    seq(2 * |word|, h requires 0 <= h => !Level(word, h))
  }

  lemma SentOn(word: seq<bool>, bit: bool)
    ensures Sent(word + [bit]) == Sent(word) + [!bit, bit]
  {
  }

  class Sender {
    var pin: bool
    var toggle: bool
    ghost var trace: seq<bool>

    method Pulse(level: bool)
      modifies this`pin, this`trace
      ensures pin == level && trace == old(trace) + [level]
    {
      pin := level;
      trace := trace + [pin];
    }

    method SendBit(bit: bool, ghost word: seq<bool>, ghost before: seq<bool>)
      requires trace == before + Sent(word)
      modifies this`pin, this`trace
      ensures trace == before + Sent(word + [bit])
    {
      SentOn(word, bit);
      if bit {
        Pulse(false);
        Pulse(true);
      } else {
        Pulse(true);
        Pulse(false);
      }
      assert before + Sent(word) + [!bit] + [bit] == before + (Sent(word) + [!bit, bit]);
    }

    /** The lowest `count` bits of a number, the highest first. */
    method SendBits(n: byte, count: nat, ghost word: seq<bool>, ghost before: seq<bool>)
      requires trace == before + Sent(word)
      modifies this`pin, this`trace
      ensures trace == before + Sent(word + BitsOf(n, count))
    {
      hide Sent;
      var i: nat := count;
      ghost var sent := word;
      while i > 0
        invariant i <= count && trace == before + Sent(sent)
        invariant sent + BitsOf(n, i) == word + BitsOf(n, count)
      {
        i := i - 1;
        var bit := n / Pow2(i) % 2 == 1;
        SendBit(bit, sent, before);
        assert sent + [bit] + BitsOf(n, i) == sent + BitsOf(n, i + 1);
        sent := sent + [bit];
      }
      assert sent + [] == sent;
    }

    /** `rc5_send` */
    method Send(addr: byte, cmd: byte)
      modifies this
      ensures trace == old(trace) + Sent(Word(old(toggle), addr, cmd))
      ensures !pin && toggle == !old(toggle)
    {
      hide Sent, BitsOf;
      ghost var before := trace;
      EmptySent(before);
      SendBit(true, [], before);
      SendBit(true, [true], before);
      SendBit(toggle, [true, true], before);
      toggle := !toggle;
      SendBits(addr, 5, [true, true, old(toggle)], before);
      SendBits(cmd, 6, [true, true, old(toggle)] + BitsOf(addr, 5), before);
      pin := false;
    }
  }

  lemma EmptySent(before: seq<bool>)
    ensures before == before + Sent([])
    ensures [true] == [] + [true] && [true, true] == [true] + [true]
    ensures forall t: bool :: [true, true, t] == [true, true] + [t]
  {
  }

  class Receiver {
    var enabled: bool
    var tempDisable: bool
    var newData: bool
    var halfbitcount: byte
    var interrupts: byte
    var raw: u16
    var received: u16
    /** The enable bit of the overflow interrupt. */
    var armed: bool

    function Current(): State
      reads this
    {
      State(enabled, tempDisable, newData, halfbitcount, interrupts, raw, received, armed)
    }

    /** The external interrupt, with the timer at `counter`. */
    method Int0Vect(counter: byte)
      modifies this
      ensures Current() == Edge(old(Current()), counter)
    {
      hide WithHalfBit;
      if enabled && !tempDisable {
        if interrupts == 0 {
          armed := true;
          raw := 0;
        } else {
          var receivedBits;
          if RC5_HALF_BIT_TICKS - RC5_ENVIRONMENT < counter < RC5_HALF_BIT_TICKS + RC5_ENVIRONMENT {
            receivedBits := 1;
          } else if RC5_BIT_TICKS - RC5_ENVIRONMENT < counter < RC5_BIT_TICKS + RC5_ENVIRONMENT {
            receivedBits := 2;
          } else {
            tempDisable := true;
            halfbitcount := 0;
            return;
          }
          ghost var total := receivedBits;
          ghost var before := Current();
          while receivedBits > 0
            invariant receivedBits <= total
            invariant Current() == match total - receivedBits
              case 0 => before
              case 1 => WithHalfBit(before)
              case _ => WithHalfBit(WithHalfBit(before))
          {
            receivedBits := receivedBits - 1;
            CountHalfBit();
          }
        }
        interrupts := (interrupts + 1) % 0x100;
      }
    }

    /** One half bit has passed: if it ends a bit, record it. */
    method CountHalfBit()
      modifies this`halfbitcount, this`raw
      ensures Current() == WithHalfBit(old(Current()))
    {
      halfbitcount := (halfbitcount + 1) % 0x100;
      if halfbitcount % 2 == 1 {
        raw := 2 * raw % 0x1_0000;
        raw := raw + interrupts % 2;
      }
    }

    /** The timer overflow interrupt. */
    method Timer0OvfVect()
      modifies this
      ensures Current() == Timeout(old(Current()))
    {
      armed := false;
      if halfbitcount == 26 {
        raw := 2 * raw % 0x1_0000;
      }
      if halfbitcount == 26 || halfbitcount == 27 {
        received := raw;
        newData := true;
      }
      halfbitcount := 0;
      interrupts := 0;
      if enabled {
        tempDisable := false;
      }
    }
  }
}
