/** The vending machine's price lines: a button line that stays high opens its serve line for
    a limited time. The three handlers run in any order, each as one step. */
module Priceline {
  import opened Integers

  const FULL_GRANT: u16 := 500
  const GRANT_STEP: u16 := 50
  const TICKS: u16 := 5
  /** How long a line must be high before it counts. */
  const DEBOUNCE: byte := 20

  datatype Pins = Pins(line1: bool, line3: bool)

  class Machine {
    /** The active price line: 0, 1 or 3. */
    var pl: byte
    var grant: u16
    var updated: bool
    var fromInterrupt: bool
    var count1: byte
    var count3: byte
    var count: u16
    var serve1: bool
    var serve3: bool
    /** How often `matemat_served` was called, and how often a grant was opened. */
    var served: nat
    ghost var grants: nat

    /** `priceline_init` */
    constructor ()
      ensures Valid() && pl == 0 && grant == 0 && grants == 0
    {
      pl, grant, updated, fromInterrupt := 0, 0, true, false;
      count1, count3, count := 0, 0, 0;
      serve1, serve3, served, grants := false, false, 0, 0;
    }

    ghost predicate Valid()
      reads this
    {
      && pl in {0, 1, 3}
      && (serve1 ==> pl == 1) && (serve3 ==> pl == 3)
      && grant % GRANT_STEP == 0 && grant <= FULL_GRANT
      && (grant > 0 ==> (pl == 1 && serve1) || (pl == 3 && serve3))
      && count1 <= DEBOUNCE + 1 && count3 <= DEBOUNCE + 1
      && (pl == 0 ==> count1 <= DEBOUNCE && count3 <= DEBOUNCE)
      && (pl == 3 ==> count1 <= DEBOUNCE) && (pl == 1 ==> count3 <= DEBOUNCE)
      && count <= TICKS
      && served + (if grant > 0 then 1 else 0) == grants
    }

    /** `priceline_interrupt`, with the levels of the button lines. */
    method Interrupt(pins: Pins)
      requires Valid()
      modifies this`pl, this`fromInterrupt, this`count1, this`count3, this`serve1, this`serve3
      ensures Valid()
      ensures count1 == if !pins.line1 then 0 else if old(pl) == 0 then old(count1) + 1 else old(count1)
      ensures count3 == if !pins.line3 then 0 else if old(pl) == 0 && count1 <= DEBOUNCE then old(count3) + 1 else old(count3)
      ensures old(pl) == 0 ==> pl == if count1 > DEBOUNCE then 1 else if count3 > DEBOUNCE then 3 else 0
      ensures old(pl) != 0 ==> pl == if grant == 0 && count1 == 0 && count3 == 0 then 0 else old(pl)
      ensures grant > 0 ==> pl == old(pl) && serve1 == old(serve1) && serve3 == old(serve3)
      ensures old(pl) != 0 && pl == 0 ==> !serve1 && !serve3
      ensures old(pl) == 0 || pl != 0 ==> serve1 == old(serve1) && serve3 == old(serve3)
      ensures fromInterrupt == (old(fromInterrupt) || pl != old(pl))
    {
      if pins.line1 {
        if pl == 0 {
          var before := count1;
          count1 := (count1 + 1) % 0x100;
          if before == DEBOUNCE {
            pl := 1;
            fromInterrupt := true;
          }
        }
      } else {
        count1 := 0;
      }
      if pins.line3 {
        if pl == 0 {
          var before := count3;
          count3 := (count3 + 1) % 0x100;
          if before == DEBOUNCE {
            pl := 3;
            fromInterrupt := true;
          }
        }
      } else {
        count3 := 0;
      }
      if grant == 0 && count3 == 0 && count1 == 0 && pl != 0 {
        serve1 := false;
        serve3 := false;
        pl := 0;
        fromInterrupt := true;
      }
    }

    /** `priceline_serve` */
    method Serve(line: byte) returns (ok: bool)
      requires Valid()
      modifies this`grant, this`serve1, this`serve3, this`grants
      ensures Valid()
      ensures ok <==> line == pl && pl != 0
      ensures ok ==> grant == FULL_GRANT && serve1 == (pl == 1) && serve3 == (pl == 3)
      ensures !ok ==> grant == old(grant) && serve1 == old(serve1) && serve3 == old(serve3)
    {
      if line != pl {
        return false;
      }
      if line == 1 {
        serve1 := true;
      } else if line == 3 {
        serve3 := true;
      } else {
        return false;
      }
      if grant == 0 {
        grants := grants + 1;
      }
      grant := FULL_GRANT;
      return true;
    }

    /** The ticks until a grant is used up. */
    function TicksLeft(): int
      reads this
    {
      if grant == 0 then 0 else count + 1 + (TICKS + 1) * (grant as int / GRANT_STEP - 1)
    }

    /** `priceline_tick`: the grant runs down, and the tick that uses it up reports it. */
    method Tick()
      requires Valid()
      modifies this`updated, this`fromInterrupt, this`grant, this`count, this`served
      ensures Valid()
      ensures TicksLeft() == if old(TicksLeft()) == 0 then 0 else old(TicksLeft()) - 1
      ensures served == old(served) + if old(grant) > 0 && grant == 0 then 1 else 0
      ensures grant == if old(count) == 0 && old(grant) > 0 then old(grant) - GRANT_STEP else old(grant)
      ensures count == if old(count) == 0 then TICKS else old(count) - 1
      ensures updated == (old(count) == 0 && old(fromInterrupt)) && fromInterrupt == (old(count) != 0 && old(fromInterrupt))
    {
      updated := false;
      var before := count;
      count := (count + 0xFFFF) % 0x1_0000;
      if before == 0 {
        if fromInterrupt {
          updated := true;
          fromInterrupt := false;
        }
        if grant != 0 {
          grant := grant - GRANT_STEP;
          if grant == 0 {
            served := served + 1;
          }
        }
        count := TICKS;
      }
    }
  }

  // ---------- every interleaving ----------

  datatype Event = OnInterrupt(pins: Pins) | OnServe(line: byte) | OnTick

  datatype Outputs = Outputs(line1: bool, line3: bool, pl: byte, grant: u16)

  /** A serve line is open only for its own price line, so never both. */
  predicate IsSafe(o: Outputs) {
    && (o.line1 ==> o.pl == 1) && (o.line3 ==> o.pl == 3) && !(o.line1 && o.line3)
    && o.grant % GRANT_STEP == 0 && o.grant <= FULL_GRANT
  }

  /** While a grant lasts its line stays open. */
  predicate KeepsGrant(o: Outputs, o': Outputs) {
    o.grant > 0 ==> (o.line1 || o.line3) && o'.line1 == o.line1 && o'.line3 == o.line3 && o'.pl == o.pl
  }

  /** Handlers in any order: every state is safe and keeps the grant of the one before, and in
      the end all grants are served but the one that still runs. */
  method Run(events: seq<Event>) returns (trace: seq<Outputs>, served: nat, ghost grants: nat)
    ensures |trace| == |events| + 1
    ensures forall k :: 0 <= k < |trace| ==> IsSafe(trace[k])
    ensures forall k :: 0 <= k < |events| ==> KeepsGrant(trace[k], trace[k + 1])
    ensures grants == served + if trace[|events|].grant > 0 then 1 else 0
  {
    var machine := new Machine();
    trace := [Outputs(machine.serve1, machine.serve3, machine.pl, machine.grant)];
    for i := 0 to |events|
      invariant machine.Valid() && fresh(machine) && |trace| == i + 1
      invariant trace[i] == Outputs(machine.serve1, machine.serve3, machine.pl, machine.grant)
      invariant forall k :: 0 <= k <= i ==> IsSafe(trace[k])
      invariant forall k :: 0 <= k < i ==> KeepsGrant(trace[k], trace[k + 1])
    {
      match events[i] {
        case OnInterrupt(pins) => machine.Interrupt(pins);
        case OnServe(line) => var ok := machine.Serve(line);
        case OnTick => machine.Tick();
      }
      trace := trace + [Outputs(machine.serve1, machine.serve3, machine.pl, machine.grant)];
    }
    served, grants := machine.served, machine.grants;
  }
}
