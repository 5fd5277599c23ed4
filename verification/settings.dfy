/** Configuration over any series of calls (esp32/esp32spi.c, lines 315-467, 732-781). */
module SpiSettings {
  import opened SpiClock
  import opened SpiDevice
  import opened SpiDriver
  import opened SpiCalls
  import opened SpiAgreement

  /** The registers spiStartBus leaves. */
  function StartConfig(clockDiv: uint32, dataMode: bv8, bitOrder: bv8): Config {
    WithOrder(WithMode(ZERO_CONFIG, dataMode), bitOrder).(clock := clockDiv)
  }

  function Run(cfg: Config, calls: seq<Call>): Config {
    if calls == [] then cfg else Apply(Run(cfg, calls[..|calls| - 1]), calls[|calls| - 1])
  }

  // ---------- what a caller expects ----------

  /** A mode the driver does not know counts as mode 0. */
  function KnownMode(m: bv8): bv8 {
    if m < 4 then m else SPI_MODE0
  }

  function ClockSetBy(call: Call): Option<uint32> {
    match call
    case SetClockDiv(v) => Some(v)
    case Bracket(Some(s), _) => Some(s.clockDiv)
    case _ => None
  }

  function ModeSetBy(call: Call): Option<bv8> {
    match call
    case SetDataMode(m) => Some(KnownMode(m))
    case Bracket(Some(s), _) => Some(KnownMode(s.dataMode))
    case _ => None
  }

  /** An order the driver does not know is ignored. */
  function OrderSetBy(call: Call): Option<bv8> {
    match call
    case SetBitOrder(o) => if o < 2 then Some(o) else None
    case Bracket(Some(s), _) => if s.bitOrder < 2 then Some(s.bitOrder) else None
    case _ => None
  }

  function Or<T>(latest: Option<T>, before: T): T {
    if latest.Some? then latest.value else before
  }

  /** The value last set by a series of calls. */
  function LastSet<T>(initial: T, setBy: Call -> Option<T>, calls: seq<Call>): T {
    if calls == [] then initial
    else Or(setBy(calls[|calls| - 1]), LastSet(initial, setBy, calls[..|calls| - 1]))
  }

  lemma ModeShows(cfg: Config, m: bv8)
    ensures DataMode(WithMode(cfg, m)) == KnownMode(m) && BitOrder(WithMode(cfg, m)) == BitOrder(cfg)
    ensures WithMode(cfg, m).clock == cfg.clock
    ensures WithMode(cfg, m).wrBitOrder == cfg.wrBitOrder && WithMode(cfg, m).rdBitOrder == cfg.rdBitOrder
  {
  }

  lemma OrderShows(cfg: Config, o: bv8)
    ensures BitOrder(WithOrder(cfg, o)) == (if o < 2 then o else BitOrder(cfg))
    ensures DataMode(WithOrder(cfg, o)) == DataMode(cfg)
    ensures WithOrder(cfg, o).clock == cfg.clock
    ensures cfg.wrBitOrder == cfg.rdBitOrder ==> WithOrder(cfg, o).wrBitOrder == WithOrder(cfg, o).rdBitOrder
  {
  }

  lemma CallShows(cfg: Config, call: Call)
    ensures Apply(cfg, call).clock == Or(ClockSetBy(call), cfg.clock)
    ensures DataMode(Apply(cfg, call)) == Or(ModeSetBy(call), DataMode(cfg))
    ensures BitOrder(Apply(cfg, call)) == Or(OrderSetBy(call), BitOrder(cfg))
    ensures cfg.wrBitOrder == cfg.rdBitOrder ==> Apply(cfg, call).wrBitOrder == Apply(cfg, call).rdBitOrder
  {
    hide WithMode, WithOrder, KnownMode, DataMode, BitOrder;
    match call {
      case SetDataMode(m) => ModeShows(cfg, m);
      case SetBitOrder(o) => OrderShows(cfg, o);
      case Bracket(Some(s), _) =>
        ModeShows(cfg.(clock := s.clockDiv), s.dataMode);
        OrderShows(WithMode(cfg.(clock := s.clockDiv), s.dataMode), s.bitOrder);
        ClockAlone(cfg, s.clockDiv);
      case SetClockDiv(v) => ClockAlone(cfg, v);
      case _ =>
    }
  }

  lemma ClockAlone(cfg: Config, v: uint32)
    ensures DataMode(cfg.(clock := v)) == DataMode(cfg) && BitOrder(cfg.(clock := v)) == BitOrder(cfg)
  {
  }

  lemma StartShows(clockDiv: uint32, dataMode: bv8, bitOrder: bv8)
    ensures var cfg := StartConfig(clockDiv, dataMode, bitOrder);
            && cfg.clock == clockDiv && DataMode(cfg) == KnownMode(dataMode)
            && BitOrder(cfg) == (if bitOrder == SPI_LSBFIRST then SPI_LSBFIRST else SPI_MSBFIRST)
            && cfg.wrBitOrder == cfg.rdBitOrder
  {
    hide WithMode, WithOrder, KnownMode, DataMode, BitOrder;
    ModeShows(ZERO_CONFIG, dataMode);
    OrderShows(WithMode(ZERO_CONFIG, dataMode), bitOrder);
    ClockAlone(WithOrder(WithMode(ZERO_CONFIG, dataMode), bitOrder), clockDiv);
    ZeroShows();
  }

  lemma ZeroShows()
    ensures BitOrder(ZERO_CONFIG) == SPI_MSBFIRST && ZERO_CONFIG.wrBitOrder == ZERO_CONFIG.rdBitOrder
  {
  }

  /** Over every series of calls each part of the configuration is what was last set, whatever else the calls
      did, and the two order registers go on agreeing. */
  lemma {:induction false} RunShows(cfg: Config, calls: seq<Call>)
    ensures Run(cfg, calls).clock == LastSet(cfg.clock, ClockSetBy, calls)
    ensures DataMode(Run(cfg, calls)) == LastSet(DataMode(cfg), ModeSetBy, calls)
    ensures BitOrder(Run(cfg, calls)) == LastSet(BitOrder(cfg), OrderSetBy, calls)
    ensures cfg.wrBitOrder == cfg.rdBitOrder ==> Run(cfg, calls).wrBitOrder == Run(cfg, calls).rdBitOrder
    decreases |calls|
  {
    hide DataMode, BitOrder, Apply, ClockSetBy, ModeSetBy, OrderSetBy;
    if calls != [] {
      RunShows(cfg, calls[..|calls| - 1]);
      CallShows(Run(cfg, calls[..|calls| - 1]), calls[|calls| - 1]);
    }
  }

  /** The bits a series of calls sends: each call's, from the configuration that the calls before it left. */
  function SentByAll(cfg: Config, calls: seq<Call>): seq<bool>
    requires forall c :: c in calls ==> c.Legal()
  {
    if calls == [] then []
    else
      var before := calls[..|calls| - 1];
      SentByAll(cfg, before) + Sent(Run(cfg, before), calls[|calls| - 1])
  }

  // ---------- on a bus ----------

  lemma RunStep(cfg: Config, calls: seq<Call>, i: nat)
    requires i < |calls|
    ensures Run(cfg, calls[..i + 1]) == Apply(Run(cfg, calls[..i]), calls[i])
    ensures (forall c :: c in calls ==> c.Legal()) ==>
              SentByAll(cfg, calls[..i + 1]) == SentByAll(cfg, calls[..i]) + Sent(Run(cfg, calls[..i]), calls[i])
  {
    hide Apply, Sent, Call.Legal;
    assert calls[..i + 1][..i] == calls[..i];
  }

  /** Any series of calls on a bus leaves the configuration that Run computes, and sends what SentByAll does. */
  method RunCalls(spi: Spi, calls: seq<Call>)
    requires spi.Valid() && spi.Started() && !spi.locked && forall c :: c in calls ==> c.Legal()
    modifies spi`clock, spi`idleEdge, spi`outEdge, spi`wrBitOrder, spi`rdBitOrder
    modifies spi`locked, spi`past, spi`origin, spi`log, spi`session
    modifies spi`mosiDlen, spi`misoDlen, spi.dataBuf, spi`wire
    ensures spi.Valid() && !spi.locked
    ensures spi.Cfg() == Run(old(spi.Cfg()), calls)
    ensures spi.wire == old(spi.wire) + SentByAll(old(spi.Cfg()), calls)
  {
    hide Spi.Valid, Apply, Run, Call.Legal, IsCall, Sent, SentByAll;
    NothingRun(spi.Cfg(), calls);
    for i := 0 to |calls|
      invariant spi.Valid() && !spi.locked && spi.Cfg() == Run(old(spi.Cfg()), calls[..i])
      invariant spi.wire == old(spi.wire) + SentByAll(old(spi.Cfg()), calls[..i])
    {
      RunCall(spi, calls[i]);
      RunStep(old(spi.Cfg()), calls, i);
    }
    assert calls[..|calls|] == calls;
  }

  lemma NothingRun(cfg: Config, calls: seq<Call>)
    ensures Run(cfg, calls[..0]) == cfg && SentByAll(cfg, calls[..0]) == []
  {
  }

  /** After starting a bus and any series of calls, the getters return what was last set. */
  method GettersReturnLastSet(spi: Spi, clockDiv: uint32, dataMode: bv8, bitOrder: bv8, mutexCreated: bool,
                              calls: seq<Call>)
    returns (ok: bool, gotClock: uint32, gotMode: bv8, gotOrder: bv8)
    requires spi.dataBuf.Length == FIFO_WORDS && !spi.locked && forall c :: c in calls ==> c.Legal()
    modifies spi, spi.dataBuf
    ensures ok == (old(spi.lockCreated) || mutexCreated)
    ensures ok ==> spi.Valid() && !spi.locked && spi.wrBitOrder == spi.rdBitOrder
    ensures ok ==> gotClock == LastSet(clockDiv, ClockSetBy, calls)
    ensures ok ==> gotMode == LastSet(KnownMode(dataMode), ModeSetBy, calls)
    ensures ok ==>
              gotOrder == LastSet(if bitOrder == SPI_LSBFIRST then SPI_LSBFIRST else SPI_MSBFIRST, OrderSetBy, calls)
  {
    hide Spi.Valid, Call.Legal, WithMode, WithOrder, KnownMode, DataMode, BitOrder;
    hide ClockSetBy, ModeSetBy, OrderSetBy, LastSet;
    ok := spi.StartBus(clockDiv, dataMode, bitOrder, mutexCreated);
    gotClock, gotMode, gotOrder := 0, 0, 0;
    if ok {
      RunCalls(spi, calls);
      StartShows(clockDiv, dataMode, bitOrder);
      RunShows(StartConfig(clockDiv, dataMode, bitOrder), calls);
      gotClock := spi.GetClockDiv();
      gotMode := spi.GetDataMode();
      gotOrder := spi.GetBitOrder();
    }
  }

  lemma SettersCommute(cfg: Config, v: uint32, m: bv8, o: bv8)
    ensures WithMode(WithOrder(cfg, o), m).(clock := v) == WithOrder(WithMode(cfg.(clock := v), m), o)
  {
  }

  /** The three setters, from either end. */
  method ThreeSetters(spi: Spi, s: Settings, orderFirst: bool)
    requires spi.Valid() && !spi.locked
    modifies spi`clock, spi`idleEdge, spi`outEdge, spi`wrBitOrder, spi`rdBitOrder
    modifies spi`locked, spi`past, spi`origin, spi`log, spi`session
    ensures spi.Valid() && !spi.locked
    ensures spi.Cfg() == Apply(old(spi.Cfg()), Bracket(Some(s), []))
  {
    hide Spi.Valid, WithMode, WithOrder, IsCall;
    if orderFirst {
      spi.SetBitOrder(s.bitOrder);
      spi.SetDataMode(s.dataMode);
      spi.SetClockDiv(s.clockDiv);
      SettersCommute(old(spi.Cfg()), s.clockDiv, s.dataMode, s.bitOrder);
    } else {
      spi.SetClockDiv(s.clockDiv);
      spi.SetDataMode(s.dataMode);
      spi.SetBitOrder(s.bitOrder);
    }
  }

  /** spiTransaction sets what the three setters set, in whichever order they are called, and keeps the lock
      that they give back. */
  method TransactionIsThreeSetters(a: Spi, b: Spi, s: Settings, orderFirst: bool)
    requires Twins(a, b) && !b.locked
    modifies a, a.dataBuf, b, b.dataBuf
    ensures a.Valid() && b.Valid() && a.locked && !b.locked
    ensures a.Cfg() == b.Cfg() && a.wire == b.wire
    ensures old(a.Dev() == b.Dev()) ==> a.Dev() == b.Dev()
  {
    hide Spi.Valid, WithMode, WithOrder;
    a.Transaction(s.clockDiv, s.dataMode, s.bitOrder);
    ThreeSetters(b, s, orderFirst);
  }
}
