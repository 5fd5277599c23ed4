/** Single bits of a 32-bit status register. */
module StatusBits {
  predicate BitSet(w: bv32, k: nat)
    requires k < 32
  {
    w & ((1 as bv32) << k) != 0
  }

  /** Bit k of a word is what shifting it right by k leaves at the low end. */
  predicate IsOne(w: bv32, k: nat)
    requires k < 32
  {
    (w >> k) & 1 == 1
  }

  lemma LowByte(w: bv32)
    ensures (BitSet(w, 0) <==> IsOne(w, 0)) && (BitSet(w, 1) <==> IsOne(w, 1))
    ensures (BitSet(w, 2) <==> IsOne(w, 2)) && (BitSet(w, 3) <==> IsOne(w, 3))
    ensures (BitSet(w, 4) <==> IsOne(w, 4)) && (BitSet(w, 5) <==> IsOne(w, 5))
    ensures (BitSet(w, 6) <==> IsOne(w, 6)) && (BitSet(w, 7) <==> IsOne(w, 7))
  {
  }

  lemma SecondByte(w: bv32)
    ensures (BitSet(w, 8) <==> IsOne(w, 8)) && (BitSet(w, 9) <==> IsOne(w, 9))
    ensures (BitSet(w, 10) <==> IsOne(w, 10)) && (BitSet(w, 11) <==> IsOne(w, 11))
    ensures (BitSet(w, 12) <==> IsOne(w, 12)) && (BitSet(w, 13) <==> IsOne(w, 13))
    ensures (BitSet(w, 14) <==> IsOne(w, 14)) && (BitSet(w, 15) <==> IsOne(w, 15))
  {
  }

  lemma ThirdByte(w: bv32)
    ensures (BitSet(w, 16) <==> IsOne(w, 16)) && (BitSet(w, 17) <==> IsOne(w, 17))
    ensures (BitSet(w, 18) <==> IsOne(w, 18)) && (BitSet(w, 19) <==> IsOne(w, 19))
    ensures (BitSet(w, 20) <==> IsOne(w, 20)) && (BitSet(w, 21) <==> IsOne(w, 21))
    ensures (BitSet(w, 22) <==> IsOne(w, 22)) && (BitSet(w, 23) <==> IsOne(w, 23))
  {
  }

  lemma HighByte(w: bv32)
    ensures (BitSet(w, 24) <==> IsOne(w, 24)) && (BitSet(w, 25) <==> IsOne(w, 25))
    ensures (BitSet(w, 26) <==> IsOne(w, 26)) && (BitSet(w, 27) <==> IsOne(w, 27))
    ensures (BitSet(w, 28) <==> IsOne(w, 28)) && (BitSet(w, 29) <==> IsOne(w, 29))
    ensures (BitSet(w, 30) <==> IsOne(w, 30)) && (BitSet(w, 31) <==> IsOne(w, 31))
  {
  }

  lemma BitSetIn0(w: bv32, k: nat)
    requires 0 <= k < 8
    ensures BitSet(w, k) <==> IsOne(w, k)
  {
    hide BitSet, IsOne;
    LowByte(w);
    assert k == 0 || k == 1 || k == 2 || k == 3 ||
           k == 4 || k == 5 || k == 6 || k == 7;
  }

  lemma BitSetIn1(w: bv32, k: nat)
    requires 8 <= k < 16
    ensures BitSet(w, k) <==> IsOne(w, k)
  {
    hide BitSet, IsOne;
    SecondByte(w);
    assert k == 8 || k == 9 || k == 10 || k == 11 ||
           k == 12 || k == 13 || k == 14 || k == 15;
  }

  lemma BitSetIn2(w: bv32, k: nat)
    requires 16 <= k < 24
    ensures BitSet(w, k) <==> IsOne(w, k)
  {
    hide BitSet, IsOne;
    ThirdByte(w);
    assert k == 16 || k == 17 || k == 18 || k == 19 ||
           k == 20 || k == 21 || k == 22 || k == 23;
  }

  lemma BitSetIn3(w: bv32, k: nat)
    requires 24 <= k < 32
    ensures BitSet(w, k) <==> IsOne(w, k)
  {
    hide BitSet, IsOne;
    HighByte(w);
    assert k == 24 || k == 25 || k == 26 || k == 27 ||
           k == 28 || k == 29 || k == 30 || k == 31;
  }

  /** Testing against 1 << k asks for bit k. */
  lemma BitSetIs(w: bv32, k: nat)
    requires k < 32
    ensures BitSet(w, k) <==> (w >> k) & 1 == 1
  {
    hide BitSet;
    BitSetIsOne(w, k);
  }

  lemma BitSetIsOne(w: bv32, k: nat)
    requires k < 32
    ensures BitSet(w, k) <==> IsOne(w, k)
  {
    hide BitSet, IsOne;
    if k < 8 {
      BitSetIn0(w, k);
    } else if k < 16 {
      BitSetIn1(w, k);
    } else if k < 24 {
      BitSetIn2(w, k);
    } else {
      BitSetIn3(w, k);
    }
  }

  lemma NothingSet(k: nat)
    requires k < 32
    ensures !BitSet(0, k)
  {
  }

  /** Writing 1 to a bit of the clear register clears it in the status register. */
  function Clear(status: bv32, written: bv32): bv32 {
    status & !written
  }

  /** Writing back what was read clears exactly that: what is left came in since, on other bits. */
  lemma Cleared(read: bv32, arrived: bv32)
    ensures Clear(read | arrived, read) == arrived & !read
  {
  }
}

/** The GPIO interrupt dispatcher and the handler table (esp32/esp32gpiochip.cpp, lines 28-75, 142-199). */
module Gpio {
  import opened StatusBits

  const PINS: nat := 40
  const GPIO_PIN_COUNT: nat := 40

  datatype Handler = Null | Fn(id: nat)

  datatype IrqEdge = IrqNone | IrqRising | IrqFalling | IrqRisingFalling | IrqOther

  /** A handler called for a pin. */
  datatype Call = Call(pin: nat, id: nat)

  /** The pin is pending in the pair of status words: pins 0 to 31 in the first, the rest in the second. */
  predicate Pending(low: bv32, high: bv32, pin: nat)
    requires pin < PINS
  {
    if pin < 32 then BitSet(low, pin) else BitSet(high, pin - 32)
  }

  lemma PendingIs(low: bv32, high: bv32, pin: nat)
    requires pin < PINS
    ensures Pending(low, high, pin) <==> if pin < 32 then IsOne(low, pin) else IsOne(high, pin - 32)
  {
    hide BitSet, IsOne;
    if pin < 32 {
      BitSetIsOne(low, pin);
    } else {
      BitSetIsOne(high, pin - 32);
    }
  }

  /** The calls the pending pins from lo on ask for, in increasing order. */
  function Due(low: bv32, high: bv32, handlers: seq<Handler>, lo: nat, hi: nat): seq<Call>
    requires lo <= hi <= PINS == |handlers|
    decreases hi
  {
    if lo == hi then []
    else
      var pin := hi - 1;
      Due(low, high, handlers, lo, pin) +
      if Pending(low, high, pin) && handlers[pin].Fn? then [Call(pin, handlers[pin].id)] else []
  }

  lemma NoneDue(low: bv32, high: bv32, handlers: seq<Handler>, lo: nat)
    requires lo <= PINS == |handlers|
    ensures Due(low, high, handlers, lo, lo) == []
  {
  }

  lemma DueNext(low: bv32, high: bv32, handlers: seq<Handler>, lo: nat, pin: nat)
    requires lo <= pin < PINS == |handlers|
    ensures Due(low, high, handlers, lo, pin + 1) == Due(low, high, handlers, lo, pin) +
            if Pending(low, high, pin) && handlers[pin].Fn? then [Call(pin, handlers[pin].id)] else []
  {
    hide Pending;
  }

  /** Bit pin % 32 of the word a pin belongs to. */
  lemma PendingInWord(low: bv32, high: bv32, word: bv32, pin: nat)
    requires pin < PINS && word == if pin < 32 then low else high
    ensures Pending(low, high, pin) == BitSet(word, pin % 32)
  {
    hide BitSet;
  }

  lemma {:induction false} DueJoins(low: bv32, high: bv32, handlers: seq<Handler>, lo: nat, mid: nat, hi: nat)
    requires lo <= mid <= hi <= PINS == |handlers|
    ensures Due(low, high, handlers, lo, mid) + Due(low, high, handlers, mid, hi) == Due(low, high, handlers, lo, hi)
    decreases hi
  {
    hide BitSet;
    if mid < hi {
      DueJoins(low, high, handlers, lo, mid, hi - 1);
    }
  }

  /** A status word of zero asks for nothing. */
  lemma {:induction false} NothingDue(low: bv32, high: bv32, handlers: seq<Handler>, lo: nat, hi: nat)
    requires lo <= hi <= PINS == |handlers|
    requires (lo < 32 ==> hi <= 32 && low == 0) && (32 <= lo ==> high == 0)
    ensures Due(low, high, handlers, lo, hi) == []
    decreases hi
  {
    hide Due, Pending;
    NoneDue(low, high, handlers, lo);
    if lo < hi {
      DueNext(low, high, handlers, lo, hi - 1);
      NothingDue(low, high, handlers, lo, hi - 1);
      NotPending(low, high, hi - 1);
    }
  }

  lemma NotPending(low: bv32, high: bv32, pin: nat)
    requires pin < PINS && (pin < 32 ==> low == 0) && (32 <= pin ==> high == 0)
    ensures !Pending(low, high, pin)
  {
    hide BitSet;
    NothingSet(if pin < 32 then pin else pin - 32);
  }

  predicate Served(low: bv32, high: bv32, handlers: seq<Handler>, hi: nat, c: Call)
    requires hi <= PINS == |handlers|
  {
    c.pin < hi && Pending(low, high, c.pin) && handlers[c.pin] == Fn(c.id)
  }

  lemma {:induction false} DueAreServed(low: bv32, high: bv32, handlers: seq<Handler>, hi: nat, c: Call)
    requires hi <= PINS == |handlers|
    ensures c in Due(low, high, handlers, 0, hi) <==> Served(low, high, handlers, hi, c)
    decreases hi
  {
    hide Pending;
    if hi > 0 {
      DueAreServed(low, high, handlers, hi - 1, c);
    }
  }

  lemma {:induction false} DueIsIncreasing(low: bv32, high: bv32, handlers: seq<Handler>, hi: nat, i: nat, j: nat)
    requires hi <= PINS == |handlers|
    requires i < j < |Due(low, high, handlers, 0, hi)|
    ensures Due(low, high, handlers, 0, hi)[i].pin < Due(low, high, handlers, 0, hi)[j].pin < hi
    decreases hi
  {
    hide Pending, Due;
    NoneDue(low, high, handlers, 0);
    DueNext(low, high, handlers, 0, hi - 1);
    var before := Due(low, high, handlers, 0, hi - 1);
    if j < |before| {
      DueIsIncreasing(low, high, handlers, hi - 1, i, j);
    } else {
      assert before[i] in before;
      DueAreServed(low, high, handlers, hi - 1, before[i]);
    }
  }

  /** Exactly the pending pins that have a handler are served, each by its handler, once, in increasing
      order. */
  lemma DueExactly(low: bv32, high: bv32, handlers: seq<Handler>)
    requires PINS == |handlers|
    ensures var calls := Due(low, high, handlers, 0, GPIO_PIN_COUNT);
            && (forall i, j :: 0 <= i < j < |calls| ==> calls[i].pin < calls[j].pin)
            && (forall c :: c in calls <==>
                  && c.pin < 40
                  && (if c.pin < 32 then IsOne(low, c.pin) else IsOne(high, c.pin - 32))
                  && handlers[c.pin] == Fn(c.id))
  {
    hide Pending, Due, IsOne;
    var calls := Due(low, high, handlers, 0, GPIO_PIN_COUNT);
    forall i, j | 0 <= i < j < |calls|
      ensures calls[i].pin < calls[j].pin
    {
      DueIsIncreasing(low, high, handlers, GPIO_PIN_COUNT, i, j);
    }
    forall c
      ensures c in calls <==>
                && c.pin < 40
                && (if c.pin < 32 then IsOne(low, c.pin) else IsOne(high, c.pin - 32))
                && handlers[c.pin] == Fn(c.id)
    {
      DueAreServed(low, high, handlers, PINS, c);
      if c.pin < PINS {
        PendingIs(low, high, c.pin);
      }
    }
  }

  // ---------- the chip ----------

  function MapIrqType(edge: IrqEdge): int {
    match edge
    case IrqRising => 1
    case IrqFalling => 2
    case IrqRisingFalling => 3
    case IrqNone => 0
    case IrqOther => -1
  }

  class GpioChip {
    var status: bv32
    var status1: bv32
    const handlers: array<Handler>
    var intEna: seq<nat>
    var intType: seq<int>
    var initializedIrqs: bool
    /** Every handler call so far. */
    var calls: seq<Call>

    predicate Valid()
      reads this
    {
      handlers.Length == PINS && |intEna| == PINS && |intType| == PINS
    }

    constructor ()
      ensures Valid() && fresh(handlers) && !initializedIrqs && calls == []
      ensures forall pin :: 0 <= pin < PINS ==> handlers[pin] == Null
    {
      handlers := new Handler[PINS](_ => Null);
      status, status1 := 0, 0;
      intEna, intType := seq(PINS, _ => 0), seq(PINS, _ => 0);
      initializedIrqs, calls := false, [];
    }

    /** Read both status words, then write them back to the clear registers.  arrivedLow and arrivedHigh are
        the interrupts latched in between. */
    method ReadAndClear(arrivedLow: bv32, arrivedHigh: bv32) returns (low: bv32, high: bv32)
      modifies this`status, this`status1
      ensures low == old(status) && high == old(status1)
      ensures status == arrivedLow & !low && status1 == arrivedHigh & !high
    {
      hide Clear;
      low, high := status, status1;
      var latched, latched1 := low | arrivedLow, high | arrivedHigh;
      Cleared(low, arrivedLow);
      Cleared(high, arrivedHigh);
      status, status1 := Clear(latched, low), Clear(latched1, high);
    }

    /** gpio_external_isr.  arrivedLow and arrivedHigh are the interrupts latched between reading the status
        words and clearing them; handlers do not edit the table. */
    method ExternalIsr(arrivedLow: bv32, arrivedHigh: bv32)
      requires Valid()
      modifies this`status, this`status1, this`calls
      ensures calls == old(calls) + Due(old(status), old(status1), handlers[..], 0, GPIO_PIN_COUNT)
      ensures status == arrivedLow & !old(status) && status1 == arrivedHigh & !old(status1)
    {
      hide BitSet, Due;
      var low, high := ReadAndClear(arrivedLow, arrivedHigh);
      Dispatch(low, high, low, 0, 32);
      Dispatch(low, high, high, 32, GPIO_PIN_COUNT);
      DueJoins(low, high, handlers[..], 0, 32, GPIO_PIN_COUNT);
    }

    /** One of the two loops, with the test around it. */
    method Dispatch(low: bv32, high: bv32, word: bv32, first: nat, last: nat)
      requires Valid() && first < last <= PINS
      requires (last <= 32 && word == low) || (32 <= first && word == high)
      modifies this`calls
      ensures calls == old(calls) + Due(low, high, handlers[..], first, last)
    {
      hide BitSet, Due, Pending;
      if word == 0 {
        NothingDue(low, high, handlers[..], first, last);
        return;
      }
      var pin := first;
      NoneDue(low, high, handlers[..], first);
      while pin < last
        invariant first <= pin <= last && calls == old(calls) + Due(low, high, handlers[..], first, pin)
      {
        DueNext(low, high, handlers[..], first, pin);
        PendingInWord(low, high, word, pin);
        if BitSet(word, pin % 32) {
          if handlers[pin].Fn? {
            calls := calls + [Call(pin, handlers[pin].id)];
          }
        }
        pin := pin + 1;
      }
    }

    /** attachIrqHandler, for a pin of the chip; appCpu is whether the interrupt runs on the second core. */
    method AttachIrqHandler(pin: nat, handler: Handler, edge: IrqEdge, appCpu: bool)
      requires Valid() && pin < PINS
      modifies this`initializedIrqs, this`intEna, this`intType, handlers
      ensures Valid() && initializedIrqs
      ensures handlers[..] == old(handlers[..])[pin := handler]
      ensures intEna == old(intEna)[pin := if appCpu then 1 else 4]
      ensures intType == match edge
                         case IrqNone => old(intType)[pin := 0]
                         case IrqRising => old(intType)[pin := 1]
                         case IrqFalling => old(intType)[pin := 2]
                         case IrqRisingFalling => old(intType)[pin := 3]
                         case IrqOther => old(intType)
    {
      if !initializedIrqs {
        initializedIrqs := true;
      }
      handlers[pin] := handler;
      assert handlers[..] == old(handlers[..])[pin := handler];
      if appCpu {
        intEna := intEna[pin := 1];
      } else {
        intEna := intEna[pin := 4];
      }
      var kind := MapIrqType(edge);
      if kind == -1 {
        return;
      }
      intType := intType[pin := kind];
    }

    /** detachIrqHandler: the pin is disabled, but its handler stays in the table. */
    method DetachIrqHandler(pin: nat)
      requires Valid() && pin < PINS
      modifies this`intEna, this`intType
      ensures Valid()
      ensures !initializedIrqs ==> intEna == old(intEna) && intType == old(intType)
      ensures initializedIrqs ==> intEna == old(intEna)[pin := 0] && intType == old(intType)[pin := 0]
    {
      if !initializedIrqs {
        return;
      }
      intEna := intEna[pin := 0];
      intType := intType[pin := MapIrqType(IrqNone)];
    }
  }

  // ---------- whole runs ----------

  datatype TableCall =
    | Attach(pin: nat, handler: Handler, edge: IrqEdge, appCpu: bool)
    | Detach(pin: nat)

  /** The handler table after a series of calls. */
  function Table(initial: seq<Handler>, calls: seq<TableCall>): (t: seq<Handler>)
    ensures |t| == |initial|
  {
    if calls == [] then initial
    else
      var t := Table(initial, calls[..|calls| - 1]);
      match calls[|calls| - 1]
      case Attach(pin, h, _, _) => if pin < |t| then t[pin := h] else t
      case Detach(_) => t
  }

  /** The position of the last attach for a pin, or -1. */
  function LastAttach(calls: seq<TableCall>, pin: nat): (i: int)
    ensures -1 <= i < |calls|
    ensures 0 <= i ==> calls[i].Attach? && calls[i].pin == pin
    ensures forall j :: i < j < |calls| ==> !(calls[j].Attach? && calls[j].pin == pin)
  {
    if calls == [] then -1
    else
      var last := calls[|calls| - 1];
      if last.Attach? && last.pin == pin then |calls| - 1 else LastAttach(calls[..|calls| - 1], pin)
  }

  /** The handler last attached to a pin. */
  function Attached(initial: seq<Handler>, calls: seq<TableCall>, pin: nat): Handler
    requires pin < |initial|
  {
    var i := LastAttach(calls, pin);
    if i == -1 then initial[pin] else calls[i].handler
  }

  lemma {:induction false} TableHoldsLastAttached(initial: seq<Handler>, calls: seq<TableCall>, pin: nat)
    requires pin < |initial|
    ensures Table(initial, calls)[pin] == Attached(initial, calls, pin)
    decreases |calls|
  {
    if calls != [] {
      TableHoldsLastAttached(initial, calls[..|calls| - 1], pin);
    }
  }

  /** A pin can raise interrupts when its enable bits are not zero. */
  predicate Enabled(intEna: seq<nat>, pin: nat)
    requires pin < |intEna|
  {
    intEna[pin] != 0
  }

  function LastIsAttach(initial: bool, calls: seq<TableCall>, pin: nat): bool {
    if calls == [] then initial
    else
      var last := calls[|calls| - 1];
      if last.pin == pin then last.Attach? else LastIsAttach(initial, calls[..|calls| - 1], pin)
  }

  /** The enable bits and the trigger type of a pin. */
  datatype PinSetting = PinSetting(ena: nat, kind: int)

  function Initialized(initially: bool, calls: seq<TableCall>): bool {
    if calls == [] then initially else calls[|calls| - 1].Attach? || Initialized(initially, calls[..|calls| - 1])
  }

  /** The setting of a pin after a series of calls.  An attach sets the enable bits by the core, and the type by
      the edge unless it is none the chip knows; a detach clears both, once interrupts are initialized. */
  function Setting(initial: PinSetting, initially: bool, calls: seq<TableCall>, pin: nat): PinSetting {
    if calls == [] then initial
    else
      var before, last := calls[..|calls| - 1], calls[|calls| - 1];
      var s := Setting(initial, initially, before, pin);
      if last.pin != pin then s
      else match last
        case Detach(_) => if Initialized(initially, before) then PinSetting(0, 0) else s
        case Attach(_, _, edge, appCpu) =>
          var ena := if appCpu then 1 else 4;
          match edge
          case IrqNone => PinSetting(ena, 0)
          case IrqRising => PinSetting(ena, 1)
          case IrqFalling => PinSetting(ena, 2)
          case IrqRisingFalling => PinSetting(ena, 3)
          case IrqOther => PinSetting(ena, s.kind)
  }

  lemma SettingStep(initial: PinSetting, initially: bool, calls: seq<TableCall>, i: nat, pin: nat)
    requires i < |calls|
    ensures Setting(initial, initially, calls[..i + 1], pin) ==
            Setting(Setting(initial, initially, calls[..i], pin), Initialized(initially, calls[..i]), [calls[i]], pin)
  {
    assert calls[..i + 1][..i] == calls[..i];
    assert [calls[i]][..0] == [];
  }

  lemma TableStep(initial: seq<Handler>, calls: seq<TableCall>, i: nat)
    requires i < |calls|
    ensures Table(initial, calls[..i + 1]) ==
            match calls[i]
            case Attach(pin, h, _, _) =>
              if pin < |initial| then Table(initial, calls[..i])[pin := h] else Table(initial, calls[..i])
            case Detach(_) => Table(initial, calls[..i])
    ensures forall pin, on {:trigger LastIsAttach(on, calls[..i + 1], pin)} ::
              LastIsAttach(on, calls[..i + 1], pin) ==
              if calls[i].pin == pin then calls[i].Attach? else LastIsAttach(on, calls[..i], pin)
  {
    assert calls[..i + 1][..i] == calls[..i];
  }

  /** Interrupts are initialized, or no pin was enabled yet. */
  predicate Ready(chip: GpioChip)
    requires chip.Valid()
    reads chip
  {
    chip.initializedIrqs || forall pin :: 0 <= pin < PINS ==> !Enabled(chip.intEna, pin)
  }

  function SettingOf(chip: GpioChip, pin: nat): PinSetting
    requires chip.Valid() && pin < PINS
    reads chip
  {
    PinSetting(chip.intEna[pin], chip.intType[pin])
  }

  method RunOne(chip: GpioChip, call: TableCall)
    requires chip.Valid() && call.pin < PINS
    modifies chip`initializedIrqs, chip`intEna, chip`intType, chip.handlers
    ensures chip.Valid()
    ensures chip.handlers[..] == match call
                                 case Attach(pin, h, _, _) => old(chip.handlers[..])[pin := h]
                                 case Detach(_) => old(chip.handlers[..])
    ensures old(Ready(chip)) ==> Ready(chip)
    ensures old(Ready(chip)) ==> forall pin :: 0 <= pin < PINS ==>
              Enabled(chip.intEna, pin) == if pin == call.pin then call.Attach? else Enabled(old(chip.intEna), pin)
    ensures chip.initializedIrqs == (call.Attach? || old(chip.initializedIrqs))
    ensures forall pin :: 0 <= pin < PINS ==>
              SettingOf(chip, pin) == Setting(old(SettingOf(chip, pin)), old(chip.initializedIrqs), [call], pin)
  {
    assert [call][..0] == [];
    match call {
      case Attach(pin, h, edge, appCpu) => chip.AttachIrqHandler(pin, h, edge, appCpu);
      case Detach(pin) => chip.DetachIrqHandler(pin);
    }
  }

  /** Any series of attach and detach calls: the table is what Table computes, every pin has the setting that
      Setting computes, and from a chip that is ready the pins enabled are those whose last call was an attach. */
  method RunTable(chip: GpioChip, calls: seq<TableCall>)
    requires chip.Valid() && forall c :: c in calls ==> c.pin < PINS
    modifies chip`initializedIrqs, chip`intEna, chip`intType, chip.handlers
    ensures chip.Valid()
    ensures chip.handlers[..] == Table(old(chip.handlers[..]), calls)
    ensures old(Ready(chip)) ==> forall pin :: 0 <= pin < PINS ==>
              Enabled(chip.intEna, pin) == LastIsAttach(Enabled(old(chip.intEna), pin), calls, pin)
    ensures forall pin :: 0 <= pin < PINS ==>
              SettingOf(chip, pin) == Setting(old(SettingOf(chip, pin)), old(chip.initializedIrqs), calls, pin)
  {
    hide Enabled, Table, LastIsAttach, Ready, Setting, SettingOf, Initialized;
    NothingCalled(chip.handlers[..], calls);
    for i := 0 to |calls|
      invariant chip.Valid() && (old(Ready(chip)) ==> Ready(chip))
      invariant chip.handlers[..] == Table(old(chip.handlers[..]), calls[..i])
      invariant old(Ready(chip)) ==> forall pin :: 0 <= pin < PINS ==>
                  Enabled(chip.intEna, pin) == LastIsAttach(Enabled(old(chip.intEna), pin), calls[..i], pin)
      invariant chip.initializedIrqs == Initialized(old(chip.initializedIrqs), calls[..i])
      invariant forall pin :: 0 <= pin < PINS ==>
                  SettingOf(chip, pin) == Setting(old(SettingOf(chip, pin)), old(chip.initializedIrqs), calls[..i], pin)
    {
      TableStep(old(chip.handlers[..]), calls, i);
      NextCall(old(chip.initializedIrqs), calls, i);
      RunOne(chip, calls[i]);
      forall pin | 0 <= pin < PINS
        ensures SettingOf(chip, pin) ==
                Setting(old(SettingOf(chip, pin)), old(chip.initializedIrqs), calls[..i + 1], pin)
      {
        SettingStep(old(SettingOf(chip, pin)), old(chip.initializedIrqs), calls, i, pin);
      }
    }
    assert calls[..|calls|] == calls;
  }

  lemma NextCall(initially: bool, calls: seq<TableCall>, i: nat)
    requires i < |calls|
    ensures Initialized(initially, calls[..i + 1]) == (calls[i].Attach? || Initialized(initially, calls[..i]))
  {
    assert calls[..i + 1][..i] == calls[..i];
  }

  lemma NothingCalled(initial: seq<Handler>, calls: seq<TableCall>)
    ensures Table(initial, calls[..0]) == initial
    ensures forall pin, on {:trigger LastIsAttach(on, calls[..0], pin)} :: LastIsAttach(on, calls[..0], pin) == on
    ensures forall on :: Initialized(on, calls[..0]) == on
    ensures forall s, on, pin :: Setting(s, on, calls[..0], pin) == s
  {
  }

  /** A whole run and then an interrupt: exactly the pending pins are served, once each and in increasing order,
      by the handler last attached to each, whether or not the pin was detached since. */
  method RunThenInterrupt(chip: GpioChip, calls: seq<TableCall>, arrivedLow: bv32, arrivedHigh: bv32)
    returns (ghost served: seq<Call>)
    requires chip.Valid() && forall c :: c in calls ==> c.pin < PINS
    modifies chip, chip.handlers
    ensures chip.calls == old(chip.calls) + served
    ensures forall pin, id :: 0 <= pin < PINS ==>
              (Call(pin, id) in served <==>
                && (if pin < 32 then IsOne(old(chip.status), pin) else IsOne(old(chip.status1), pin - 32))
                && Attached(old(chip.handlers[..]), calls, pin) == Fn(id))
    ensures forall i, j :: 0 <= i < j < |served| ==> served[i].pin < served[j].pin
  {
    hide Due, IsOne, Table, Attached, Enabled, LastIsAttach, Setting;
    RunTable(chip, calls);
    served := Due(chip.status, chip.status1, chip.handlers[..], 0, GPIO_PIN_COUNT);
    DispatchAfterRun(old(chip.handlers[..]), calls, chip.status, chip.status1);
    chip.ExternalIsr(arrivedLow, arrivedHigh);
  }

  lemma DispatchAfterRun(initial: seq<Handler>, calls: seq<TableCall>, low: bv32, high: bv32)
    requires |initial| == PINS
    ensures forall pin, id :: 0 <= pin < PINS ==>
              (Call(pin, id) in Due(low, high, Table(initial, calls), 0, GPIO_PIN_COUNT) <==>
                && (if pin < 32 then IsOne(low, pin) else IsOne(high, pin - 32))
                && Attached(initial, calls, pin) == Fn(id))
    ensures var served := Due(low, high, Table(initial, calls), 0, GPIO_PIN_COUNT);
            forall i, j :: 0 <= i < j < |served| ==> served[i].pin < served[j].pin
  {
    hide Due, IsOne, Table, Attached;
    DueExactly(low, high, Table(initial, calls));
    forall pin, id | 0 <= pin < PINS
      ensures Call(pin, id) in Due(low, high, Table(initial, calls), 0, GPIO_PIN_COUNT)
         <==> && (if pin < 32 then IsOne(low, pin) else IsOne(high, pin - 32))
              && Attached(initial, calls, pin) == Fn(id)
    {
      TableHoldsLastAttached(initial, calls, pin);
    }
  }
}
