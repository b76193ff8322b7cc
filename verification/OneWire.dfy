/** The 1-Wire ROM search: `ow_search_rom` walks the binary tree of device codes with
    no memory but the previous code and the position of its last discrepancy.
    Codes are compared bit 0 first, the order in which they travel over the wire. */
module OneWire {
  import opened Bits

  // ---------- codes as bit sequences and as the bytes the driver stores ----------

  type Code = seq<bool>

  function RomBit(bytes: seq<bv8>, i: nat): bool
    requires i < 8 * |bytes|
  {
    IsSet(bytes[i / 8], i % 8)
  }

  function RomBits(bytes: seq<bv8>): (code: Code)
    ensures |code| == 8 * |bytes|
    ensures forall i :: 0 <= i < |code| ==> code[i] == RomBit(bytes, i)
  {
    seq(8 * |bytes|, i requires 0 <= i < 8 * |bytes| => RomBit(bytes, i))
  }

  lemma SetBitAt(bytes: seq<bv8>, i: nat, value: bool, j: nat)
    requires i < 8 * |bytes| && j < 8 * |bytes|
    ensures RomBit(bytes[i / 8 := WithBit(bytes[i / 8], i % 8, value)], j) == (if j == i then value else RomBit(bytes, j))
  {
    var k, bit, other := i / 8, i % 8, j % 8;
    if j / 8 == k {
      WithBitSelects(bytes[k], bit, value, other);
    }
  }

  lemma SetBitInBytes(bytes: seq<bv8>, i: nat, value: bool)
    requires i < 8 * |bytes|
    ensures RomBits(bytes[i / 8 := WithBit(bytes[i / 8], i % 8, value)]) == RomBits(bytes)[i := value]
  {
    forall j | 0 <= j < 8 * |bytes|
      ensures RomBit(bytes[i / 8 := WithBit(bytes[i / 8], i % 8, value)], j) == (if j == i then value else RomBit(bytes, j))
    {
      SetBitAt(bytes, i, value, j);
    }
  }

  // ---------- the order in which the search meets the codes ----------

  predicate Agree(a: Code, b: Code, k: nat) {
    k <= |a| && k <= |b| && forall j :: 0 <= j < k ==> a[j] == b[j]
  }

  /** `a` and `b` split at bit `k`, and `a` takes the 0 branch. */
  predicate SplitAt(a: Code, b: Code, k: nat) {
    Agree(a, b, k) && k < |a| && k < |b| && !a[k] && b[k]
  }

  ghost predicate Precedes(a: Code, b: Code) {
    exists k: nat :: SplitAt(a, b, k)
  }

  /** Some device shares the first `k` bits of `code` and answers `value` at bit `k`. */
  ghost predicate Answers(devices: set<Code>, code: Code, k: nat, value: bool) {
    exists d :: d in devices && Agree(d, code, k) && k < |d| && d[k] == value
  }

  /** `last` is the largest bit where `code` has a 0 and some device of the same prefix
      has a 1, or -1 when there is none. */
  ghost predicate IsLastDiscrepancy(devices: set<Code>, code: Code, last: int) {
    && -1 <= last < |code|
    && (last >= 0 ==> !code[last] && Answers(devices, code, last, true))
    && forall k :: last < k < |code| ==> code[k] || !Answers(devices, code, k, true)
  }

  ghost predicate Least(devices: set<Code>, code: Code) {
    code in devices && forall d :: d in devices ==> d == code || Precedes(code, d)
  }

  /** `next` is the device that follows `code` in the order, with none in between. */
  ghost predicate Successor(devices: set<Code>, code: Code, next: Code) {
    && next in devices
    && Precedes(code, next)
    && forall d :: d in devices && Precedes(code, d) ==> d == next || Precedes(next, d)
  }

  ghost predicate Ascending(codes: seq<Code>) {
    forall i, j :: 0 <= i < j < |codes| ==> Precedes(codes[i], codes[j])
  }

  lemma {:induction false} Compare(a: Code, b: Code, from: nat)
    requires |a| == |b| && Agree(a, b, from)
    ensures a == b || Precedes(a, b) || Precedes(b, a)
    decreases |a| - from
  {
    if from == |a| {
      assert a == b;
    } else if a[from] == b[from] {
      Compare(a, b, from + 1);
    } else if b[from] {
      assert SplitAt(a, b, from);
    } else {
      assert SplitAt(b, a, from);
    }
  }

  lemma PrecedesIsStrict(a: Code, b: Code)
    requires Precedes(a, b)
    ensures a != b && !Precedes(b, a)
  {
  }

  lemma PrecedesIsTransitive(a: Code, b: Code, c: Code)
    requires Precedes(a, b) && Precedes(b, c)
    ensures Precedes(a, c)
  {
    var k: nat :| SplitAt(a, b, k);
    var m: nat :| SplitAt(b, c, m);
    assert SplitAt(a, c, if k < m then k else m);
  }

  /** Without a discrepancy left, the code is the last one of the order. */
  lemma NoDiscrepancyMeansLast(devices: set<Code>, code: Code)
    requires IsLastDiscrepancy(devices, code, -1)
    ensures forall d :: d in devices ==> !Precedes(code, d)
  {
    forall d, k: nat | d in devices
      ensures !SplitAt(code, d, k)
    {
      if k < |code| && !code[k] && Agree(code, d, k) {
        assert !Answers(devices, code, k, true) && Agree(d, code, k);
      }
    }
  }

  /** What one pass of the search has established about the bits before `i`. */
  ghost predicate Searched(devices: set<Code>, before: Code, last: int, code: Code, i: nat, discrepancy: int) {
    && |code| == |before| && i <= |code| && -1 <= last < |code|
    && (forall j :: i <= j < |code| ==> code[j] == before[j])
    && (i <= last ==> Agree(code, before, i))
    && (0 <= last < i ==> Agree(code, before, last) && code[last])
    && -1 <= discrepancy < i
    && (discrepancy >= 0 ==> !code[discrepancy] && Answers(devices, code, discrepancy, true))
    && (forall k :: discrepancy < k < i ==> code[k] || !Answers(devices, code, k, true))
    && (forall k :: 0 <= k < i && k > last && code[k] ==> !Answers(devices, code, k, false))
  }

  /** Two codes with the same first `k` bits have the same answers at bit `k`. */
  lemma AnswersOfPrefix(devices: set<Code>, a: Code, b: Code, k: nat)
    requires Agree(a, b, k)
    ensures Answers(devices, a, k, true) == Answers(devices, b, k, true)
    ensures Answers(devices, a, k, false) == Answers(devices, b, k, false)
  {
  }

  /** The decision at a bit keeps what was established. */
  lemma SearchedStep(devices: set<Code>, before: Code, last: int, code: Code, i: nat, discrepancy: int, bit: bool, next: int)
    requires Searched(devices, before, last, code, i, discrepancy) && i < |code|
    requires Answers(devices, code, i, true) || Answers(devices, code, i, false)
    requires last >= 0 ==> before in devices && IsLastDiscrepancy(devices, before, last)
    requires var both := Answers(devices, code, i, true) && Answers(devices, code, i, false);
      if !both then bit == Answers(devices, code, i, true) && next == discrepancy
      else if i == last then bit && next == discrepancy
      else if i > last then !bit && next == i
      else bit == code[i] && next == (if !bit then i else discrepancy)
    ensures Searched(devices, before, last, code[i := bit], i + 1, next)
  {
    var code' := code[i := bit];
    forall k: nat | k <= i
      ensures Agree(code, code', k)
      ensures Answers(devices, code, k, true) == Answers(devices, code', k, true)
      ensures Answers(devices, code, k, false) == Answers(devices, code', k, false)
    {
      AnswersOfPrefix(devices, code, code', k);
    }
    if i < last {
      assert Agree(before, code, i) && before[i] == code[i];
      assert Answers(devices, code, i, before[i]);
    }
    if i == last {
      AnswersOfPrefix(devices, code, before, i);
      assert Agree(before, code, i);
      assert Answers(devices, code, i, false);
    }
  }

  /** A completed pass from no previous code finds the least one. */
  lemma FirstPassFindsLeast(devices: set<Code>, before: Code, code: Code, discrepancy: int)
    requires forall d :: d in devices ==> |d| == |code|
    requires code in devices && Searched(devices, before, -1, code, |code|, discrepancy)
    ensures Least(devices, code) && IsLastDiscrepancy(devices, code, discrepancy)
  {
    forall d | d in devices
      ensures d == code || Precedes(code, d)
    {
      Compare(d, code, 0);
      if Precedes(d, code) {
        var k: nat :| SplitAt(d, code, k);
        assert Answers(devices, code, k, false);
      }
    }
  }

  /** A completed pass from a previous code finds the next one. */
  lemma PassFindsSuccessor(devices: set<Code>, before: Code, last: nat, code: Code, discrepancy: int)
    requires forall d :: d in devices ==> |d| == |code|
    requires before in devices && IsLastDiscrepancy(devices, before, last)
    requires code in devices && Searched(devices, before, last, code, |code|, discrepancy)
    ensures Successor(devices, before, code) && IsLastDiscrepancy(devices, code, discrepancy)
  {
    assert SplitAt(before, code, last);
    forall d | d in devices && Precedes(before, d)
      ensures d == code || Precedes(code, d)
    {
      Compare(d, code, 0);
      var k: nat :| SplitAt(before, d, k);
      assert Agree(d, before, k);
      assert Answers(devices, before, k, true);
      forall m: nat
        ensures !SplitAt(d, code, m)
      {
        if m > last && SplitAt(d, code, m) {
          assert Answers(devices, code, m, false);
        }
      }
    }
  }

  ghost function Sharing(devices: set<Code>, code: Code, k: nat): set<Code> {
    set d | d in devices && Agree(d, code, k)
  }

  /** The wired AND of bit `i`, and of its complement, over the devices still active. */
  lemma ReadAnswers(devices: set<Code>, code: Code, i: nat)
    requires i < |code| && Sharing(devices, code, i) != {}
    requires forall d :: d in devices ==> |d| == |code|
    ensures (forall d :: d in Sharing(devices, code, i) ==> d[i]) == !Answers(devices, code, i, false)
    ensures (forall d :: d in Sharing(devices, code, i) ==> !d[i]) == !Answers(devices, code, i, true)
    ensures Answers(devices, code, i, true) || Answers(devices, code, i, false)
  {
    var seen :| seen in Sharing(devices, code, i);
    assert Answers(devices, code, i, seen[i]);
  }

  /** Writing a bit somebody answers leaves exactly the devices of the longer prefix. */
  lemma SharingStep(devices: set<Code>, code: Code, i: nat, bit: bool)
    requires i < |code| && Answers(devices, code, i, bit)
    requires forall d :: d in devices ==> |d| == |code|
    ensures (set d | d in Sharing(devices, code, i) && d[i] == bit) == Sharing(devices, code[i := bit], i + 1) != {}
  {
    var code' := code[i := bit];
    forall d | d in devices
      ensures Agree(d, code', i + 1) <==> Agree(d, code, i) && d[i] == bit
    {
      assert Agree(d, code', i + 1) ==> d[i] == code'[i];
    }
    var seen :| seen in devices && Agree(seen, code, i) && i < |seen| && seen[i] == bit;
    assert seen in Sharing(devices, code', i + 1);
  }

  /** The branch to take at bit `i` after reading it and its complement. */
  function Chosen(i: nat, last: int, bit1: bool, bit2: bool, previous: bool): bool {
    if bit1 || bit2 then bit1 else if i == last then true else if i > last then false else previous
  }

  /** The discrepancy to remember after taking branch `bit`. */
  function Remembered(i: nat, last: int, bit1: bool, bit2: bool, bit: bool, discrepancy: int): int {
    if !bit1 && !bit2 && i != last && !bit then i else discrepancy
  }

  /** An unsigned byte stored into a signed one. */
  function AsSigned(byte: int): int {
    if byte >= 128 then byte - 256 else byte
  }

  lemma PassStep(devices: set<Code>, before: Code, last: int, code: Code, i: nat, discrepancy: int, bit1: bool, bit2: bool)
    requires forall d :: d in devices ==> |d| == |code|
    requires i < |code| <= 128 && (0 <= discrepancy < 128 || discrepancy == 255)
    requires last >= 0 ==> before in devices && IsLastDiscrepancy(devices, before, last)
    requires Searched(devices, before, last, code, i, AsSigned(discrepancy))
    requires Sharing(devices, code, i) != {}
    requires bit1 <==> forall d :: d in Sharing(devices, code, i) ==> d[i]
    requires bit2 <==> forall d :: d in Sharing(devices, code, i) ==> !d[i]
    ensures !(bit1 && bit2)
    ensures var bit := Chosen(i, last, bit1, bit2, code[i]);
      var next := Remembered(i, last, bit1, bit2, bit, discrepancy);
      && Searched(devices, before, last, code[i := bit], i + 1, AsSigned(next))
      && (0 <= next < 128 || next == 255)
      && (set d | d in Sharing(devices, code, i) && d[i] == bit) == Sharing(devices, code[i := bit], i + 1) != {}
  {
    var bit := Chosen(i, last, bit1, bit2, code[i]);
    ReadAnswers(devices, code, i);
    SearchedStep(devices, before, last, code, i, AsSigned(discrepancy), bit,
                 AsSigned(Remembered(i, last, bit1, bit2, bit, discrepancy)));
    assert if bit then Answers(devices, code, i, true) else Answers(devices, code, i, false);
    SharingStep(devices, code, i, bit);
  }

  /** Whoever is left after the last bit is the device whose code was read. */
  lemma Completed(devices: set<Code>, before: Code, last: int, code: Code, discrepancy: int, active: set<Code>)
    requires forall d :: d in devices ==> |d| == |code|
    requires last >= 0 ==> before in devices && IsLastDiscrepancy(devices, before, last)
    requires Searched(devices, before, last, code, |code|, discrepancy)
    requires active == Sharing(devices, code, |code|) != {}
    ensures code in devices && IsLastDiscrepancy(devices, code, discrepancy)
    ensures if last < 0 then Least(devices, code) else Successor(devices, before, code)
  {
    var d :| d in active;
    assert d == code;
    if last < 0 {
      FirstPassFindsLeast(devices, before, code, discrepancy);
    } else {
      PassFindsSuccessor(devices, before, last, code, discrepancy);
    }
  }

  // ---------- the bus ----------

  datatype Slot = TrueBit | Complement | Select

  /** The devices on the wire during a search: those still taking part, and the time
      slot they are in. A read is the wired AND of what they send; with nobody left the
      line stays high. */
  class Bus {
    const devices: set<Code>
    const width: nat
    var active: set<Code>
    var index: nat
    var slot: Slot

    constructor (devices: set<Code>, width: nat)
      requires forall d :: d in devices ==> |d| == width
      ensures Valid() && this.devices == devices && this.width == width
    {
      this.devices, this.width, active, index, slot := devices, width, devices, 0, TrueBit;
    }

    ghost predicate Valid()
      reads this
    {
      && active <= devices
      && forall d :: d in devices ==> |d| == width
    }

    /** `reset_onewire`: every device listens again; says whether one is present. */
    method Reset() returns (presence: bool)
      requires Valid()
      modifies this
      ensures Valid() && active == devices && presence == (devices != {})
    {
      active := devices;
      presence := devices != {};
    }

    /** `ow_write_byte(OW_ROM_SEARCH_ROM)`. */
    method StartSearch()
      requires Valid()
      modifies this`index, this`slot
      ensures Valid() && index == 0 && slot == TrueBit
    {
      index, slot := 0, TrueBit;
    }

    method Read() returns (bit: bool)
      requires Valid() && index < width && slot != Select
      modifies this`slot
      ensures old(slot) == TrueBit ==> (bit <==> forall d :: d in active ==> d[index])
      ensures old(slot) == Complement ==> (bit <==> forall d :: d in active ==> !d[index])
      ensures slot == (if old(slot) == TrueBit then Complement else Select)
    {
      bit := if slot == TrueBit then forall d :: d in active ==> d[index] else forall d :: d in active ==> !d[index];
      slot := if slot == TrueBit then Complement else Select;
    }

    method Write(bit: bool)
      requires Valid() && index < width && slot == Select
      modifies this
      ensures Valid() && index == old(index) + 1 && slot == TrueBit
      ensures active == set d | d in old(active) && d[old(index)] == bit
    {
      active := set d | d in active && d[index] == bit;
      index, slot := index + 1, TrueBit;
    }
  }

  // ---------- the search ----------

  /** `ow_global`: the code found last and where its last discrepancy was. The original
      stores eight bytes; any width that the signed 8-bit `last_discrepancy` can index
      is allowed here. */
  class Search {
    const bus: Bus
    const rom: array<bv8>
    var lastDiscrepancy: int

    constructor (bus: Bus, bytes: nat)
      requires 0 < bytes <= 16 && bus.width == 8 * bytes && bus.Valid()
      ensures Valid() && fresh(rom) && this.bus == bus && rom.Length == bytes
    {
      this.bus := bus;
      rom := new bv8[bytes];
      lastDiscrepancy := -1;
    }

    ghost predicate Valid()
      reads this, bus
    {
      bus.Valid() && 0 < rom.Length <= 16 && bus.width == 8 * rom.Length
    }

    function Rom(): (code: Code)
      reads rom
      ensures |code| == 8 * rom.Length
    {
      RomBits(rom[..])
    }

    /** The state in which a device has just been reported. */
    ghost predicate AtDevice()
      reads this, rom
    {
      Rom() in bus.devices && IsLastDiscrepancy(bus.devices, Rom(), lastDiscrepancy)
    }

    method SetAddressBit(i: nat, value: bool)
      requires i < 8 * rom.Length
      modifies rom
      ensures Rom() == old(Rom())[i := value]
    {
      ghost var was := rom[..];
      var byte, bit := i / 8, i % 8;
      rom[byte] := WithBit(rom[byte], bit, value);
      SetBitInBytes(was, i, value);
      assert rom[..] == was[byte := WithBit(was[byte], bit, value)];
    }

    /** The decision of `ow_search_rom` at bit `i`: which branch to take, and whether the
        other one must be remembered as a discrepancy. */
    method Decide(i: nat, bit1: bool, bit2: bool, discrepancy: int) returns (bit: bool, next: int)
      requires i < 8 * rom.Length && !(bit1 && bit2)
      modifies rom
      ensures bit == Chosen(i, lastDiscrepancy, bit1, bit2, old(Rom())[i])
      ensures next == Remembered(i, lastDiscrepancy, bit1, bit2, bit, discrepancy)
      ensures Rom() == old(Rom())[i := bit]
    {
      bit, next := bit1, discrepancy;
      if !bit1 && !bit2 {
        if i == lastDiscrepancy {
          SetAddressBit(i, true);
          bit := true;
        } else if i > lastDiscrepancy {
          SetAddressBit(i, false);
          next := i;
        } else {
          bit := RomBit(rom[..], i);
          if !bit {
            next := i;
          }
        }
      } else {
        SetAddressBit(i, bit1);
      }
    }

    /** The loop invariant of the search: what is established before bit `i` is read. */
    ghost predicate AtBit(before: Code, i: nat, discrepancy: int)
      reads this, rom, bus
    {
      && Valid() && bus.index == i && bus.slot == TrueBit
      && bus.active == Sharing(bus.devices, Rom(), i) != {}
      && Searched(bus.devices, before, lastDiscrepancy, Rom(), i, AsSigned(discrepancy))
      && (0 <= discrepancy < 128 || discrepancy == 255)
      && (lastDiscrepancy >= 0 ==> before in bus.devices && IsLastDiscrepancy(bus.devices, before, lastDiscrepancy))
    }

    /** One iteration of the loop of `ow_search_rom`. */
    method SearchBit(ghost before: Code, i: nat, discrepancy: int) returns (ok: bool, next: int)
      requires AtBit(before, i, discrepancy) && i < 8 * rom.Length
      modifies rom, bus
      ensures ok && AtBit(before, i + 1, next)
    {
      ghost var code := Rom();
      var bit1 := bus.Read();
      var bit2 := bus.Read();
      assert bus.active == Sharing(bus.devices, code, i);
      PassStep(bus.devices, before, lastDiscrepancy, code, i, discrepancy, bit1, bit2);
      if bit1 && bit2 {
        return false, discrepancy;
      }
      bit1, next := Decide(i, bit1, bit2, discrepancy);
      bus.Write(bit1);
      ok := true;
    }

    /** The loop of `ow_search_rom` over the bits, once the search command is out. */
    method Pass() returns (ok: bool, discrepancy: int)
      requires Valid() && bus.active == bus.devices != {} && bus.index == 0 && bus.slot == TrueBit
      requires -1 <= lastDiscrepancy < 8 * rom.Length
      requires lastDiscrepancy >= 0 ==> AtDevice()
      modifies rom, bus
      ensures Valid() && ok && (0 <= discrepancy < 128 || discrepancy == 255)
      ensures Rom() in bus.devices && IsLastDiscrepancy(bus.devices, Rom(), AsSigned(discrepancy))
      ensures if lastDiscrepancy < 0 then Least(bus.devices, Rom()) else Successor(bus.devices, old(Rom()), Rom())
    {
      ghost var before := Rom();
      // an unsigned byte set to -1
      discrepancy := 255;
      assert Sharing(bus.devices, before, 0) == bus.devices;
      for i := 0 to 8 * rom.Length
        invariant AtBit(before, i, discrepancy)
      {
        ok, discrepancy := SearchBit(before, i, discrepancy);
        if !ok {
          return;
        }
      }
      Completed(bus.devices, before, lastDiscrepancy, Rom(), AsSigned(discrepancy), bus.active);
      ok := true;
    }

    /** `ow_search_rom`: 1 and the next code, 0 when there is none, -1 on an empty bus. */
    method SearchRom(first: bool) returns (ret: int)
      requires Valid()
      requires !first && lastDiscrepancy >= 0 ==> AtDevice()
      modifies this`lastDiscrepancy, rom, bus
      ensures Valid()
      ensures !first && old(lastDiscrepancy) < 0 ==> ret == 0 && Rom() == old(Rom()) && lastDiscrepancy == old(lastDiscrepancy)
      ensures first && bus.devices == {} ==> ret == -1 && lastDiscrepancy == -1
      ensures first && bus.devices != {} ==> ret == 1 && AtDevice() && Least(bus.devices, Rom())
      ensures !first && old(lastDiscrepancy) >= 0 ==> ret == 1 && AtDevice() && Successor(bus.devices, old(Rom()), Rom())
    {
      if first {
        lastDiscrepancy := -1;
        for i := 0 to rom.Length
          invariant Valid() && lastDiscrepancy == -1
        {
          rom[i] := 0;
        }
      } else if lastDiscrepancy < 0 {
        return 0;
      }
      var present := bus.Reset();
      if !present {
        return -1;
      }
      bus.StartSearch();
      var ok, discrepancy := Pass();
      if !ok {
        return 0;
      }
      lastDiscrepancy := AsSigned(discrepancy);
      return 1;
    }

    /** The listing loop of the command parser: the first search, then the next ones
        until one of them finds nothing more. */
    method ListDevices() returns (found: seq<Code>)
      requires Valid()
      modifies this`lastDiscrepancy, rom, bus
      ensures Valid()
      ensures Ascending(found)
      ensures forall d :: d in found <==> d in bus.devices
    {
      found := [];
      var ret := SearchRom(true);
      ghost var rest := set d | d in bus.devices;
      while ret == 1
        invariant Valid() && ret in {-1, 0, 1}
        invariant ret != 1 ==> rest == {}
        invariant ret == 1 ==> AtDevice() && Rom() in rest && forall d :: d in rest && d != Rom() ==> Precedes(Rom(), d)
        invariant Ascending(found)
        invariant forall d :: d in bus.devices <==> d in found || d in rest
        invariant forall a, b :: a in found && b in rest ==> Precedes(a, b)
        decreases rest
      {
        var code := Rom();
        found := found + [code];
        rest := rest - {code};
        forall d | Precedes(code, d) && d in bus.devices
          ensures d in rest
        {
          forall a | a in found && a != code
            ensures a != d
          {
            PrecedesIsTransitive(a, code, d);
            PrecedesIsStrict(a, d);
          }
          PrecedesIsStrict(code, d);
        }
        if lastDiscrepancy < 0 {
          NoDiscrepancyMeansLast(bus.devices, code);
        }
        ret := SearchRom(false);
      }
    }
  }
}
