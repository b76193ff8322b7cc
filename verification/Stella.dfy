/** Dimming lights by pulse width: a sort that turns colours into a table of switching times,
    the handing over of the table to the interrupts, and what the pins then do. */
module Stella {
  import opened Integers

  const STELLA_PINS: nat := 8

  /** A time to switch pins off, and the pins. A set of pins stands for a mask of the port. */
  datatype Slot = Slot(level: byte, pins: set<nat>)

  // ---------- the table that colours call for ----------

  type Colors = c: seq<byte> | |c| == STELLA_PINS witness seq(STELLA_PINS, _ => 0)

  function AllPins(): set<nat> {
    {0, 1, 2, 3, 4, 5, 6, 7}
  }

  function PinsOf(color: Colors, level: byte): (p: set<nat>)
    ensures forall i: nat :: i in p <==> i < STELLA_PINS && color[i] == level
  {
    set i: nat | i < STELLA_PINS && color[i] == level
  }

  ghost predicate Ascending(s: seq<Slot>) {
    forall i, j :: 0 <= i < j < |s| ==> s[i].level < s[j].level
  }

  ghost predicate Has(s: seq<Slot>, level: byte) {
    exists y :: 0 <= y < |s| && s[y].level == level
  }

  ghost predicate Covers(s: seq<Slot>, color: Colors) {
    && (forall i :: 0 <= i < STELLA_PINS ==> Has(s, color[i]))
    && (forall y :: 0 <= y < |s| ==> s[y].level in color)
  }

  /** Strictly rising levels, which are the colours, each with exactly the pins of that colour. */
  ghost predicate IsTableOf(s: seq<Slot>, color: Colors) {
    && Ascending(s) && Covers(s, color)
    && forall y :: 0 <= y < |s| ==> s[y].pins == PinsOf(color, s[y].level)
  }

  ghost predicate HasPin(s: seq<Slot>, pin: nat) {
    exists y :: 0 <= y < |s| && pin in s[y].pins
  }

  /** The pins of the slots are a partition of all pins. */
  lemma PinsArePartition(s: seq<Slot>, color: Colors)
    requires IsTableOf(s, color)
    ensures forall i: nat :: i < STELLA_PINS ==> HasPin(s, i)
    ensures forall y, z, i {:trigger i in s[y].pins, i in s[z].pins} :: 0 <= y < |s| && 0 <= z < |s| && i in s[y].pins && i in s[z].pins ==> y == z
    ensures 0 < |s| <= STELLA_PINS
  {
    assert Has(s, color[0]);
    FewSlots(s, color);
    forall i: nat | i < STELLA_PINS
      ensures HasPin(s, i)
    {
      assert Has(s, color[i]);
      var y :| 0 <= y < |s| && s[y].level == color[i];
      assert i in s[y].pins;
    }
  }

  /** Distinct colours of the pins cannot be more than the pins. */
  lemma FewSlots(s: seq<Slot>, color: Colors)
    requires Ascending(s) && Covers(s, color)
    ensures |s| <= STELLA_PINS
  {
    var first := seq(|s|, y requires 0 <= y < |s| => FirstPin(color, s[y].level, 0));
    forall y, z | 0 <= y < z < |s|
      ensures first[y] != first[z]
    {
      assert color[first[y]] == s[y].level && color[first[z]] == s[z].level;
    }
    Pigeons(first, STELLA_PINS);
  }

  function FirstPin(color: Colors, level: byte, i: nat): (p: nat)
    requires i <= STELLA_PINS && level in color[i..]
    ensures p < STELLA_PINS && color[p] == level
    decreases STELLA_PINS - i
  {
    if color[i] == level then i else FirstPin(color, level, i + 1)
  }

  lemma {:induction false} Pigeons(s: seq<nat>, n: nat)
    requires forall i :: 0 <= i < |s| ==> s[i] < n
    requires forall i, j :: 0 <= i < j < |s| ==> s[i] != s[j]
    ensures |s| <= n
  {
    if |s| > 0 {
      if n - 1 in s {
        var k :| 0 <= k < |s| && s[k] == n - 1;
        var t := s[..k] + s[k + 1..];
        assert forall i :: 0 <= i < |t| ==> t[i] == if i < k then s[i] else s[i + 1];
        Pigeons(t, n - 1);
      } else {
        Pigeons(s[1..], n - 1);
      }
    }
  }

  /** Colours call for one table only. */
  lemma TableIsUnique(s: seq<Slot>, t: seq<Slot>, color: Colors)
    requires IsTableOf(s, color) && IsTableOf(t, color)
    ensures s == t
  {
    SameLevels(s, t, color, 0);
    assert s[..] == t[..] by {
      forall y | 0 <= y < |s| && y < |t|
        ensures s[y] == t[y]
      {
        assert s[y].level == t[y].level;
      }
    }
  }

  /** The slots agree from the beginning on: the lowest remaining level is in both. */
  lemma {:induction false} SameLevels(s: seq<Slot>, t: seq<Slot>, color: Colors, n: nat)
    requires Ascending(s) && Covers(s, color) && Ascending(t) && Covers(t, color)
    requires n <= |s| && n <= |t| && forall y :: 0 <= y < n ==> s[y].level == t[y].level
    ensures |s| == |t| && forall y :: 0 <= y < |s| ==> s[y].level == t[y].level
    decreases |s| - n
  {
    if n < |s| {
      NextLevel(s, t, color, n);
      NextLevel(t, s, color, n);
      SameLevels(s, t, color, n + 1);
    } else if n < |t| {
      NextLevel(t, s, color, n);
    }
  }

  lemma NextLevel(s: seq<Slot>, t: seq<Slot>, color: Colors, n: nat)
    requires Ascending(s) && Covers(s, color) && Ascending(t) && Covers(t, color)
    requires n < |s| && n <= |t| && forall y :: 0 <= y < n ==> s[y].level == t[y].level
    ensures n < |t| && t[n].level <= s[n].level
  {
  }

  // ---------- the sort ----------

  ghost predicate Distinct(s: seq<Slot>) {
    forall i, j :: 0 <= i < j < |s| ==> s[i].level != s[j].level
  }

  lemma HasOneMore(s: seq<Slot>, slot: Slot, level: byte)
    ensures Has(s + [slot], level) <==> Has(s, level) || slot.level == level
  {
    if Has(s, level) {
      var y :| 0 <= y < |s| && s[y].level == level;
      assert (s + [slot])[y].level == level;
    }
    if slot.level == level {
      assert (s + [slot])[|s|].level == level;
    }
  }

  /** Look for a colour among those collected. */
  method Find(temp: array<Slot>, x: nat, level: byte) returns (found: bool)
    requires x <= temp.Length
    ensures found <==> Has(temp[..x], level)
  {
    found := false;
    for y := 0 to x
      invariant found <==> Has(temp[..y], level)
    {
      HasOneMore(temp[..y], temp[y], level);
      assert temp[..y + 1] == temp[..y] + [temp[y]];
      if level == temp[y].level {
        found := true;
      }
    }
  }

  lemma CollectedOneMore(s: seq<Slot>, level: byte, color: Colors, i: nat)
    requires Distinct(s) && !Has(s, level) && forall k :: 0 <= k < i <= STELLA_PINS ==> Has(s, color[k])
    ensures Distinct(s + [Slot(level, {})])
    ensures forall k :: 0 <= k < i <= STELLA_PINS ==> Has(s + [Slot(level, {})], color[k])
    ensures Has(s + [Slot(level, {})], level)
  {
    forall v: byte
      ensures Has(s + [Slot(level, {})], v) <==> Has(s, v) || level == v
    {
      HasOneMore(s, Slot(level, {}), v);
    }
    assert forall y :: 0 <= y < |s| ==> Has(s, s[y].level);
  }

  /** Collect the colours, each once. */
  method Collect(color: Colors, temp: array<Slot>) returns (x: nat)
    requires temp.Length == STELLA_PINS
    modifies temp
    ensures 0 < x <= STELLA_PINS && Distinct(temp[..x]) && Covers(temp[..x], color)
    ensures forall y :: 0 <= y < x ==> temp[y].pins == {}
  {
    hide Has;
    x := 0;
    for i := 0 to STELLA_PINS
      invariant x <= i && (i > 0 ==> x > 0) && Distinct(temp[..x])
      invariant forall k :: 0 <= k < i ==> Has(temp[..x], color[k])
      invariant forall y :: 0 <= y < x ==> temp[y].level in color
      invariant forall y :: 0 <= y < i ==> temp[y].pins == {}
    {
      ghost var before := temp[..x];
      temp[i] := Slot(0, {});
      assert temp[..x] == before;
      var found := Find(temp, x, color[i]);
      if !found {
        CollectedOneMore(before, color[i], color, i);
        assert temp[x].pins == {};
        temp[x] := temp[x].(level := color[i]);
        x := x + 1;
        assert temp[..x] == before + [Slot(color[i], {})];
      } else {
        HasSome(before, color[i]);
      }
    }
  }

  lemma HasSome(s: seq<Slot>, level: byte)
    requires Has(s, level)
    ensures |s| > 0
  {
  }

  /** The two differ in the order of the levels only. */
  ghost predicate Rearranged(s: seq<Slot>, t: seq<Slot>) {
    && |s| == |t| && Distinct(s)
    && (forall y :: 0 <= y < |s| ==> s[y].pins == {})
    && (forall v: byte :: Has(s, v) <==> Has(t, v))
  }

  lemma SwapRearranges(s: seq<Slot>, t: seq<Slot>, i: nat)
    requires Rearranged(s, t) && i + 1 < |s|
    ensures Rearranged(s[i := s[i + 1]][i + 1 := s[i]], t)
  {
    var r := s[i := s[i + 1]][i + 1 := s[i]];
    forall v: byte
      ensures Has(r, v) <==> Has(s, v)
    {
      if Has(s, v) {
        var y :| 0 <= y < |s| && s[y].level == v;
        assert r[if y == i then i + 1 else if y == i + 1 then i else y].level == v;
      }
      if Has(r, v) {
        var y :| 0 <= y < |r| && r[y].level == v;
        assert s[if y == i then i + 1 else if y == i + 1 then i else y].level == v;
      }
    }
  }

  /** From `from` on, every level is above all before it. */
  ghost predicate SortedFrom(s: seq<Slot>, from: int) {
    forall j, k :: 0 <= j < k < |s| && from <= k ==> s[j].level < s[k].level
  }

  /** One pass of the bubble sort: the highest of the first levels moves up. */
  method BubbleUp(temp: array<Slot>, x: nat, y: nat, ghost t: seq<Slot>)
    requires y + 1 < x <= temp.Length && Rearranged(temp[..x], t) && SortedFrom(temp[..x], x - y)
    modifies temp
    ensures Rearranged(temp[..x], t) && SortedFrom(temp[..x], x - y - 1)
    ensures forall k :: x <= k < temp.Length ==> temp[k] == old(temp[k])
  {
    hide Rearranged;
    for i := 0 to x - 1 - y
      invariant Rearranged(temp[..x], t) && SortedFrom(temp[..x], x - y)
      invariant forall k :: 0 <= k < i ==> temp[k].level <= temp[i].level
      invariant forall k :: x <= k < temp.Length ==> temp[k] == old(temp[k])
    {
      if temp[i].level > temp[i + 1].level {
        SwapRearranges(temp[..x], t, i);
        ghost var before := temp[..x];
        var l := temp[i].level;
        RearrangedHasNoPins(before, t);
        temp[i] := temp[i].(level := temp[i + 1].level);
        temp[i + 1] := temp[i + 1].(level := l);
        assert temp[..x] == before[i := before[i + 1]][i + 1 := before[i]];
      }
    }
    RearrangedHasNoPins(temp[..x], t);
  }

  lemma RearrangedHasNoPins(s: seq<Slot>, t: seq<Slot>)
    requires Rearranged(s, t)
    ensures forall y :: 0 <= y < |s| ==> s[y].pins == {}
    ensures Distinct(s)
  {
  }

  method BubbleSort(temp: array<Slot>, x: nat, ghost t: seq<Slot>)
    requires 0 < x <= temp.Length && Rearranged(temp[..x], t)
    modifies temp
    ensures Rearranged(temp[..x], t) && Ascending(temp[..x])
  {
    hide Rearranged;
    if x != 1 {
      for y := 0 to x - 1
        invariant Rearranged(temp[..x], t) && SortedFrom(temp[..x], x - y)
      {
        BubbleUp(temp, x, y, t);
      }
    }
  }

  /** The slots of `levels`, with those of the first `n` pins entered, and pin `n` entered in
      the first `m` slots. */
  ghost predicate Entered(s: seq<Slot>, levels: seq<Slot>, color: Colors, n: nat, m: nat) {
    && |s| == |levels|
    && (forall y :: 0 <= y < |s| ==> s[y].level == levels[y].level)
    && (forall y, p: nat {:trigger p in s[y].pins} :: 0 <= y < |s| ==> (p in s[y].pins <==> (p < n || (p == n && y < m)) && p < STELLA_PINS && color[p] == levels[y].level))
  }

  lemma NoneEntered(levels: seq<Slot>, color: Colors)
    requires forall y :: 0 <= y < |levels| ==> levels[y].pins == {}
    ensures Entered(levels, levels, color, 0, 0)
  {
  }

  lemma EnteredStep(s: seq<Slot>, levels: seq<Slot>, color: Colors, i: nat, y: nat)
    requires Entered(s, levels, color, i, y) && i < STELLA_PINS && y < |levels|
    ensures y < |s|
    ensures Entered(if color[i] == s[y].level then s[y := s[y].(pins := s[y].pins + {i})] else s, levels, color, i, y + 1)
  {
  }

  lemma EnteredPin(s: seq<Slot>, levels: seq<Slot>, color: Colors, i: nat)
    requires Entered(s, levels, color, i, |levels|) && i < STELLA_PINS
    ensures Entered(s, levels, color, i + 1, 0)
  {
  }

  /** Enter every pin into the slot of its colour. */
  method EnterPins(color: Colors, temp: array<Slot>, x: nat)
    requires 0 < x <= temp.Length && Ascending(temp[..x]) && Covers(temp[..x], color)
    requires forall y :: 0 <= y < x ==> temp[y].pins == {}
    modifies temp
    ensures IsTableOf(temp[..x], color)
  {
    hide Entered, IsTableOf;
    ghost var levels := temp[..x];
    NoneEntered(levels, color);
    for i := 0 to STELLA_PINS
      invariant Entered(temp[..x], levels, color, i, 0)
    {
      for y := 0 to x
        invariant Entered(temp[..x], levels, color, i, y)
      {
        ghost var before := temp[..x];
        EnteredStep(before, levels, color, i, y);
        if color[i] == temp[y].level {
          temp[y] := temp[y].(pins := temp[y].pins + {i});
        }
        assert temp[..x] == before[y := temp[y]];
      }
      EnteredPin(temp[..x], levels, color, i);
    }
    EnteredIsTable(temp[..x], levels, color);
  }

  lemma EnteredIsTable(s: seq<Slot>, levels: seq<Slot>, color: Colors)
    requires Ascending(levels) && Covers(levels, color) && Entered(s, levels, color, STELLA_PINS, 0)
    ensures IsTableOf(s, color)
  {
  }

  /** `stella_sort`, before it hands the table over. */
  method Sort(color: Colors) returns (table: seq<Slot>)
    ensures IsTableOf(table, color)
  {
    hide Rearranged, IsTableOf;
    var temp := new Slot[STELLA_PINS](_ => Slot(0, {}));
    var x := Collect(color, temp);
    ghost var collected := temp[..x];
    RearrangedSame(collected);
    BubbleSort(temp, x, collected);
    RearrangedCovers(temp[..x], collected, color);
    RearrangedHasNoPins(temp[..x], collected);
    EnterPins(color, temp, x);
    table := temp[..x];
  }

  lemma RearrangedSame(s: seq<Slot>)
    requires Distinct(s) && forall y :: 0 <= y < |s| ==> s[y].pins == {}
    ensures Rearranged(s, s)
  {
  }

  lemma RearrangedCovers(s: seq<Slot>, t: seq<Slot>, color: Colors)
    requires Rearranged(s, t) && Covers(t, color)
    ensures Covers(s, color)
  {
    forall y | 0 <= y < |s|
      ensures s[y].level in color
    {
      assert Has(s, s[y].level);
    }
  }

  // ---------- one period of the timer ----------

  datatype Table = Table(slots: seq<Slot>, overflow: set<nat>)

  /** The pins to switch on when the timer overflows. */
  function MaskOf(slots: seq<Slot>): set<nat>
    requires slots != []
  {
    if slots[0].level == 0 then AllPins() - slots[0].pins else AllPins()
  }

  /** The compare register, the next slot, and the pins that are high. */
  datatype Wave = Wave(compare: byte, now: nat, port: set<nat>)

  /** The overflow interrupt; `second` is the level in the second place of the table, whether
      the table is that long or not. */
  function Overflow(t: Table, second: byte, port: set<nat>): Wave
    requires t.slots != []
  {
    Wave(if t.slots[0].level == 0 then second else t.slots[0].level, 0, port + t.overflow)
  }

  function Compare(t: Table, w: Wave): Wave
    requires w.now < |t.slots|
  {
    var now := w.now + 1;
    Wave(if now < |t.slots| then t.slots[now].level else w.compare, now, w.port - t.slots[w.now].pins)
  }

  function Match(t: Table, w: Wave, tick: nat): Wave {
    if w.compare == tick && w.now < |t.slots| then Compare(t, w) else w
  }

  /** What holds during tick `tick` of a period that began with `port`. */
  function WaveAt(t: Table, second: byte, port: set<nat>, tick: nat): Wave
    requires t.slots != []
  {
    Match(t, if tick == 0 then Overflow(t, second, port) else WaveAt(t, second, port, tick - 1), tick)
  }

  /** After the last slot the register keeps a time that has passed: no match comes when there
      is no slot left. */
  lemma {:induction false} NoMatchPastTheEnd(t: Table, second: byte, port: set<nat>, tick: nat)
    requires t.slots != []
    ensures var w := WaveAt(t, second, port, tick);
      w.now <= |t.slots| && (w.now == |t.slots| ==> w.compare <= tick)
  {
    if tick > 0 {
      NoMatchPastTheEnd(t, second, port, tick - 1);
    }
  }

  /** The first `n` slots are those whose time has come. */
  ghost predicate IsDue(s: seq<Slot>, n: nat, tick: nat) {
    && n <= |s|
    && (forall y :: 0 <= y < n ==> s[y].level <= tick)
    && (forall y :: n <= y < |s| ==> s[y].level > tick)
  }

  /** While no colour is 0, the register waits for the next slot, and just the pins of the
      slots that came are low. */
  lemma {:induction false} SlotsComeInTime(t: Table, color: Colors, second: byte, port: set<nat>, tick: nat)
    requires IsTableOf(t.slots, color) && t.slots != [] && t.slots[0].level > 0 && t.overflow == MaskOf(t.slots)
    requires port <= AllPins()
    ensures var w := WaveAt(t, second, port, tick);
      && IsDue(t.slots, w.now, tick) && w.port <= AllPins()
      && (w.now < |t.slots| ==> w.compare == t.slots[w.now].level)
      && forall p: nat :: p < STELLA_PINS ==> (p in w.port <==> tick < color[p])
  {
    hide Overflow, Has, Compare, MaskOf;
    var before := if tick == 0 then Overflow(t, second, port) else WaveAt(t, second, port, tick - 1);
    if tick == 0 {
      OverflowSets(t, second, port);
    } else {
      SlotsComeInTime(t, color, second, port, tick - 1);
    }
    if before.now < |t.slots| && before.compare == tick {
      OneDue(t, color, before, tick);
    } else {
      NoneDue(t.slots, color, before.now, tick);
    }
  }

  /** The slot that is due now, and no other, switches its pins off. */
  lemma OneDue(t: Table, color: Colors, w: Wave, tick: nat)
    requires IsTableOf(t.slots, color) && w.now < |t.slots| && w.compare == tick == t.slots[w.now].level && w.port <= AllPins()
    requires if tick == 0 then w.now == 0 && t.slots[0].level > 0 else IsDue(t.slots, w.now, tick - 1)
    requires forall p: nat :: p < STELLA_PINS ==> (p in w.port <==> tick <= color[p])
    ensures var v := Compare(t, w);
      && IsDue(t.slots, v.now, tick) && v.port <= AllPins()
      && (v.now < |t.slots| ==> v.compare == t.slots[v.now].level)
      && forall p: nat :: p < STELLA_PINS ==> (p in v.port <==> tick < color[p])
  {
  }

  lemma OverflowSets(t: Table, second: byte, port: set<nat>)
    requires t.slots != [] && t.slots[0].level > 0 && t.overflow == MaskOf(t.slots) && port <= AllPins()
    ensures Overflow(t, second, port) == Wave(t.slots[0].level, 0, AllPins())
    ensures forall p: nat :: p in AllPins() <==> p < STELLA_PINS
  {
  }

  /** If the next slot is not due, no pin changes its level at this tick. */
  lemma NoneDue(s: seq<Slot>, color: Colors, n: nat, tick: nat)
    requires IsTableOf(s, color) && n <= |s| && (n < |s| ==> s[n].level != tick)
    requires if tick == 0 then n == 0 && s != [] && s[0].level > 0 else IsDue(s, n, tick - 1)
    ensures IsDue(s, n, tick) && forall p :: 0 <= p < STELLA_PINS ==> color[p] != tick
  {
  }

  /** Every pin is high for as many ticks from the overflow on as its colour says. */
  ghost predicate IsDimmed(t: Table, color: Colors, second: byte, port: set<nat>)
    requires t.slots != []
  {
    forall p: nat, tick: nat :: p < STELLA_PINS && tick < 0x100 ==> (p in WaveAt(t, second, port, tick).port <==> tick < color[p])
  }

  /** With a zero colour and another one the first match is spent on the pins that are off
      anyway, and the register is left at the time that has just passed. */
  lemma {:induction false} OthersStayOn(t: Table, color: Colors, port: set<nat>, tick: nat, p: nat)
    requires IsTableOf(t.slots, color) && |t.slots| > 1 && t.slots[0].level == 0 && t.overflow == MaskOf(t.slots)
    requires p < STELLA_PINS && color[p] > 0
    ensures var w := WaveAt(t, t.slots[1].level, port, tick);
      && w.now == (if tick < t.slots[1].level then 0 else 1) && w.compare == t.slots[1].level
      && p in w.port
  {
    if tick == 0 {
      assert p in AllPins();
    } else {
      OthersStayOn(t, color, port, tick - 1, p);
    }
  }

  lemma {:induction false} AllStayOff(t: Table, second: byte, port: set<nat>, tick: nat)
    requires |t.slots| == 1 && t.overflow == {} && t.slots[0].level == 0
    requires port == {} || (second == 0 && port <= t.slots[0].pins)
    ensures WaveAt(t, second, port, tick).port == {}
  {
    if tick > 0 {
      AllStayOff(t, second, port, tick - 1);
    }
  }

  lemma OnlyZero(t: Table, color: Colors)
    requires IsTableOf(t.slots, color) && |t.slots| == 1 && t.overflow == MaskOf(t.slots) && t.slots[0].level == 0
    ensures t.overflow == {} && t.slots[0].pins == AllPins() && forall p :: 0 <= p < STELLA_PINS ==> color[p] == 0
  {
  }

  /** Exactly when the pins are dimmed as they should: no colour is 0, or all are and the pins
      were off before or are switched off at once by a stale zero in the second place. */
  lemma DimmedExactly(t: Table, color: Colors, second: byte, port: set<nat>)
    requires IsTableOf(t.slots, color) && t.slots != [] && t.overflow == MaskOf(t.slots) && port <= AllPins()
    requires |t.slots| > 1 ==> second == t.slots[1].level
    ensures IsDimmed(t, color, second, port) <==> t.slots[0].level > 0 || (|t.slots| == 1 && (port == {} || second == 0))
  {
    hide WaveAt;
    if t.slots[0].level > 0 {
      forall p: nat, tick: nat | p < STELLA_PINS && tick < 0x100
        ensures p in WaveAt(t, second, port, tick).port <==> tick < color[p]
      {
        SlotsComeInTime(t, color, second, port, tick);
      }
    } else if |t.slots| > 1 {
      var p :| 0 <= p < STELLA_PINS && color[p] == t.slots[1].level;
      OthersStayOn(t, color, port, color[p], p);
    } else {
      OnlyZero(t, color);
      if port == {} || second == 0 {
        forall tick: nat
          ensures WaveAt(t, second, port, tick).port == {}
        {
          AllStayOff(t, second, port, tick);
        }
      } else {
        var p :| p in port;
        FirstTick(t, second, port);
        assert p in WaveAt(t, second, port, 0).port && color[p] == 0;
      }
    }
  }

  lemma FirstTick(t: Table, second: byte, port: set<nat>)
    requires t.slots != [] && t.slots[0].level == 0 && second > 0
    ensures WaveAt(t, second, port, 0).port == port + t.overflow
  {
  }

  // ---------- the handing over ----------

  /** Where the main program is in `stella_sort`: sorting, waiting for the interrupt to take
      the last table, or between two of the statements that store the new one. */
  datatype Main =
    | Idle
    | Waiting(temp: seq<Slot>)
    | StoreLevel(temp: seq<Slot>, i: nat)
    | StorePins(temp: seq<Slot>, i: nat)
    | StoreLength(temp: seq<Slot>)
    | StoreMask(temp: seq<Slot>)
    | CorrectMask(temp: seq<Slot>)
    | Raise(temp: seq<Slot>)

  /** Where the next statement leaves the main program. */
  function After(main: Main, pending: bool): Main {
    match main
    case Idle => Idle
    case Waiting(temp) => if pending then main else StoreLevel(temp, 0)
    case StoreLevel(temp, i) => if i < |temp| then StorePins(temp, i) else StoreLength(temp)
    case StorePins(temp, i) => StoreLevel(temp, i + 1)
    case StoreLength(temp) => StoreMask(temp)
    case StoreMask(temp) => CorrectMask(temp)
    case CorrectMask(temp) => Raise(temp)
    case Raise(_) => Idle
  }

  /** A sort has finished with this table. */
  ghost predicate IsFinished(t: Table) {
    && 0 < |t.slots| <= STELLA_PINS && t.overflow == MaskOf(t.slots)
    && exists color: Colors :: IsTableOf(t.slots, color)
  }

  class Lamps {
    var timetable: seq<Slot>
    var length: nat
    var overflowMask: set<nat>
    var updateTable: bool
    var iTimetable: seq<Slot>
    var iLength: nat
    var iOverflowMask: set<nat>
    var now: nat
    var compare: byte
    var port: set<nat>
    var main: Main
    /** The tables of the finished sorts, and how many of them the interrupt has seen. */
    ghost var finished: seq<Table>
    ghost var seen: nat

    constructor ()
      ensures Valid() && main == Idle && finished == [] && seen == 0
    {
      timetable, iTimetable := seq(STELLA_PINS, _ => Slot(0, {})), seq(STELLA_PINS, _ => Slot(0, {}));
      length, iLength, now, compare := 0, 0, 0, 0;
      overflowMask, iOverflowMask, port := {}, {}, {};
      updateTable, main, finished, seen := false, Idle, [], 0;
    }

    /** The table that the interrupts work from is the whole of a finished table, the last one
        unless that still waits to be taken or is being replaced. */
    ghost predicate Valid()
      reads this`finished, this`iLength, this`iOverflowMask, this`iTimetable, this`length, this`main, this`overflowMask, this`seen, this`timetable, this`updateTable
    {
      && |timetable| == |iTimetable| == STELLA_PINS && seen <= |finished|
      && (forall k :: 0 <= k < |finished| ==> IsFinished(finished[k]))
      && Active()
      && (updateTable ==> Shared() && (main.Idle? || main.Waiting?))
      && (!updateTable ==> seen == |finished|)
      && (!main.Idle? ==> Progress())
    }

    ghost predicate Active()
      reads this`seen, this`iLength, this`iOverflowMask, this`iTimetable, this`finished
    {
      if seen == 0 then iLength == 0 && iOverflowMask == {}
      else seen <= |finished| && iLength <= |iTimetable| && finished[seen - 1] == Table(iTimetable[..iLength], iOverflowMask)
    }

    /** The shared table is the one of the last finished sort, which is not yet taken. */
    ghost predicate Shared()
      reads this`seen, this`finished, this`length, this`timetable, this`overflowMask
    {
      && length <= |timetable| && seen == |finished| - 1
      && finished[seen] == Table(timetable[..length], overflowMask)
    }

    /** How much of the new table is stored. */
    ghost predicate Progress()
      reads this`main, this`timetable, this`length, this`overflowMask
      requires !main.Idle?
    {
      var temp := main.temp;
      && 0 < |temp| <= STELLA_PINS == |timetable| && IsFinished(Table(temp, MaskOf(temp)))
      && match main
         case Waiting(_) => true
         case StoreLevel(_, i) => i <= |temp| && timetable[..i] == temp[..i]
         case StorePins(_, i) => i < |temp| && timetable[..i] == temp[..i] && timetable[i].level == temp[i].level
         case StoreLength(_) => timetable[..|temp|] == temp
         case StoreMask(_) => timetable[..|temp|] == temp && length == |temp|
         case CorrectMask(_) => timetable[..|temp|] == temp && length == |temp| && overflowMask == AllPins()
         case Raise(_) => timetable[..|temp|] == temp && length == |temp| && overflowMask == MaskOf(temp)
    }

    /** Begin `stella_sort`: all up to the waiting works on local variables. */
    method Begin(color: Colors)
      requires Valid() && main.Idle?
      modifies this`main
      ensures Valid() && main.Waiting? && IsTableOf(main.temp, color)
    {
      var temp := Sort(color);
      PinsArePartition(temp, color);
      assert IsFinished(Table(temp, MaskOf(temp)));
      main := Waiting(temp);
    }

    /** One statement of the rest of `stella_sort`; an interrupt may come before or after it. */
    method Step()
      requires Valid() && !main.Idle?
      modifies this`timetable, this`length, this`overflowMask, this`updateTable, this`main, this`finished
      ensures Valid()
      ensures main == After(old(main), old(updateTable))
      ensures finished == if old(main).Raise? then old(finished) + [Table(old(main).temp, MaskOf(old(main).temp))] else old(finished)
      ensures old(updateTable) ==> timetable == old(timetable)
    {
      hide IsFinished, IsTableOf;
      var temp := main.temp;
      match main {
        case Waiting(_) =>
          if !updateTable {
            main := StoreLevel(temp, 0);
          }
        case StoreLevel(_, i) =>
          StepLevel(i);
        case StorePins(_, i) =>
          StepPins(i);
        case StoreLength(_) =>
          length := |temp|;
          main := StoreMask(temp);
        case StoreMask(_) =>
          overflowMask := AllPins();
          main := CorrectMask(temp);
        case CorrectMask(_) =>
          assert timetable[0] == timetable[..|temp|][0];
          if timetable[0].level == 0 {
            overflowMask := overflowMask - timetable[0].pins;
          }
          main := Raise(temp);
        case Raise(_) =>
          updateTable := true;
          finished := finished + [Table(temp, MaskOf(temp))];
          main := Idle;
      }
    }

    method StepLevel(i: nat)
      requires Valid() && main.StoreLevel? && main.i == i
      modifies this`timetable, this`main
      ensures Valid() && main == After(old(main), false)
    {
      hide IsFinished;
      var temp := main.temp;
      if i < |temp| {
        ghost var before := timetable;
        timetable := timetable[i := timetable[i].(level := temp[i].level)];
        assert timetable[..i] == before[..i];
        main := StorePins(temp, i);
      } else {
        assert temp[..i] == temp;
        main := StoreLength(temp);
      }
    }

    method StepPins(i: nat)
      requires Valid() && main.StorePins? && main.i == i
      modifies this`timetable, this`main
      ensures Valid() && main == After(old(main), false)
    {
      hide IsFinished;
      var temp := main.temp;
      ghost var before := timetable;
      timetable := timetable[i := timetable[i].(pins := temp[i].pins)];
      assert timetable[..i + 1] == before[..i] + [timetable[i]];
      assert temp[..i + 1] == temp[..i] + [temp[i]];
      main := StoreLevel(temp, i + 1);
    }

    /** The overflow interrupt takes the new table over if there is one, all at once. */
    method OverflowIsr()
      requires Valid()
      modifies this`updateTable, this`iTimetable, this`iLength, this`iOverflowMask, this`compare, this`now, this`port, this`seen
      ensures Valid() && !updateTable && seen == |finished|
      ensures seen > 0 ==> Wave(compare, now, port) == Overflow(finished[seen - 1], iTimetable[1].level, old(port))
      ensures seen > 0 && |finished[seen - 1].slots| > 1 ==> iTimetable[1].level == finished[seen - 1].slots[1].level
    {
      hide IsFinished;
      FinishedIsNotEmpty(finished);
      if updateTable {
        TakeOver();
      }
      StartPeriod();
    }

    method StartPeriod()
      requires |iTimetable| == STELLA_PINS && Active() && (seen > 0 ==> 0 < |finished[seen - 1].slots|)
      modifies this`compare, this`now, this`port
      ensures seen > 0 ==> Wave(compare, now, port) == Overflow(finished[seen - 1], iTimetable[1].level, old(port))
    {
      compare := iTimetable[0].level;
      if compare == 0 {
        compare := iTimetable[1].level;
      }
      now := 0;
      port := port + iOverflowMask;
    }

    method TakeOver()
      requires Valid() && updateTable
      modifies this`updateTable, this`iTimetable, this`iLength, this`iOverflowMask, this`seen
      ensures Valid() && !updateTable && seen == |finished| > 0
    {
      hide IsFinished;
      for i := 0 to length
        invariant |iTimetable| == STELLA_PINS && Shared() && updateTable && (main.Idle? || main.Waiting?)
        invariant iTimetable[..i] == timetable[..i]
        invariant !main.Idle? ==> Progress()
      {
        ghost var before := iTimetable;
        iTimetable := iTimetable[i := iTimetable[i].(level := timetable[i].level)];
        iTimetable := iTimetable[i := iTimetable[i].(pins := timetable[i].pins)];
        assert iTimetable[..i + 1] == before[..i] + [timetable[i]];
        assert timetable[..i + 1] == timetable[..i] + [timetable[i]];
      }
      iLength := length;
      iOverflowMask := overflowMask;
      updateTable := false;
      seen := |finished|;
    }

    /** The compare match interrupt. */
    method CompareIsr()
      requires Valid() && (iLength > 0 ==> now < iLength)
      modifies this`compare, this`now, this`port
      ensures Valid()
      ensures seen > 0 ==> Wave(compare, now, port) == Compare(finished[seen - 1], old(Wave(compare, now, port)))
      ensures seen == 0 ==> unchanged(this)
    {
      hide IsFinished;
      FinishedIsNotEmpty(finished);
      if iLength > 0 {
        port := port - iTimetable[now].pins;
        now := now + 1;
        if now < iLength {
          compare := iTimetable[now].level;
        }
      }
    }

    /** A whole period of the timer, with a sample of the pins after the interrupts of every
        tick: the pins follow the table that is active after the overflow. */
    method Period() returns (samples: seq<set<nat>>)
      requires Valid() && |finished| > 0
      modifies this`updateTable, this`iTimetable, this`iLength, this`iOverflowMask, this`compare, this`now, this`port, this`seen
      ensures Valid() && seen == |finished| && |samples| == 0x100
      ensures |finished[seen - 1].slots| > 1 ==> iTimetable[1].level == finished[seen - 1].slots[1].level
      ensures forall tick: nat :: tick < 0x100 ==>
        samples[tick] == WaveAt(finished[seen - 1], iTimetable[1].level, old(port), tick).port
    {
      hide IsFinished, WaveAt, Overflow, Compare;
      FinishedIsNotEmpty(finished);
      samples := [];
      OverflowIsr();
      ghost var t, second := finished[seen - 1], iTimetable[1].level;
      ghost var w := Wave(compare, now, port);
      var tick := 0;
      while tick < 0x100
        invariant 0 <= tick <= 0x100 && |samples| == tick
        invariant Valid() && seen == |finished| && t == finished[seen - 1] && second == iTimetable[1].level
        invariant w == Wave(compare, now, port)
        invariant w == if tick == 0 then Overflow(t, second, old(port)) else WaveAt(t, second, old(port), tick - 1)
        invariant forall k: nat :: k < tick ==> samples[k] == WaveAt(t, second, old(port), k).port
      {
        OneMoreTick(t, second, old(port), tick);
        if compare == tick {
          CompareIsr();
        }
        w := Wave(compare, now, port);
        samples := samples + [port];
        tick := tick + 1;
      }
    }
  }

  lemma OneMoreTick(t: Table, second: byte, port: set<nat>, tick: nat)
    requires t.slots != []
    ensures var w := if tick == 0 then Overflow(t, second, port) else WaveAt(t, second, port, tick - 1);
      && (w.compare == tick ==> w.now < |t.slots|)
      && WaveAt(t, second, port, tick) == if w.compare == tick && w.now < |t.slots| then Compare(t, w) else w
  {
    if tick > 0 {
      NoMatchPastTheEnd(t, second, port, tick - 1);
    }
  }

  lemma FinishedIsNotEmpty(finished: seq<Table>)
    requires forall k :: 0 <= k < |finished| ==> IsFinished(finished[k])
    ensures forall k :: 0 <= k < |finished| ==> 0 < |finished[k].slots| <= STELLA_PINS
  {
  }
}
