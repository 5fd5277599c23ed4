/** The bus object over the driver: a cache of the divider register, and chip-select around each transfer
    (esp32/spibus.cpp). */
module SpiBusObject {
  import opened SpiClock
  import opened SpiClockProperties
  import opened Wire
  import opened SpiDevice
  import opened SpiDriver

  const DEFAULT_FREQUENCY: uint32 := 1_000_000

  /** A chip-select output.  edges records each level written, with the length of the wire at the time. */
  class CsPin {
    var level: bool
    ghost var edges: seq<(bool, nat)>

    method Write(value: bool, ghost at: nat)
      modifies this
      ensures level == value && edges == old(edges) + [(value, at)]
    {
      level := value;
      edges := edges + [(value, at)];
    }
  }

  /** The buffers of a message; tx and rx may be the same. */
  datatype Message = Message(cs: CsPin, tx: array<byte>, rx: array<byte>, size: nat)

  class SpiBus {
    const clk: CpuClock
    const num: nat
    var frequency: uint32
    var div: uint32
    /** Null when the bus could not be started. */
    const spi: Spi?

    /** The cached divider is that of the frequency last asked for, and is what the clock register holds. */
    ghost predicate Coherent()
      reads this, spi, if spi == null then {} else {spi.dataBuf}
    {
      && div == FrequencyToClockDiv(clk, frequency)
      && (spi != null ==> spi.Valid() && spi.Started() && !spi.locked && spi.clock == div)
    }

    constructor (clk: CpuClock, num: nat, entry: Spi, mutexCreated: bool)
      requires entry.dataBuf.Length == FIFO_WORDS && !entry.locked
      modifies entry, entry.dataBuf
      ensures Coherent() && this.clk == clk && this.num == num && frequency == 1_000_000
      ensures spi == if num <= 3 && (old(entry.lockCreated) || mutexCreated) then entry else null
      ensures spi != null ==>
                && entry.Cfg() == WithOrder(WithMode(ZERO_CONFIG, SPI_MODE0), SPI_MSBFIRST).(clock := div)
                && entry.clock == FrequencyToClockDiv(clk, 1_000_000)
                && !entry.idleEdge && !entry.outEdge && !entry.wrBitOrder && !entry.rdBitOrder
    {
      hide FrequencyToClockDiv, WithMode, WithOrder, Spi.Valid;
      this.clk, this.num, frequency := clk, num, DEFAULT_FREQUENCY;
      var clkdiv := SpiFrequencyToClockDiv(clk, DEFAULT_FREQUENCY);
      div := clkdiv;
      var started := false;
      if num <= 3 {
        started := entry.StartBus(clkdiv, SPI_MODE0, SPI_MSBFIRST, mutexCreated);
      }
      spi := if started then entry else null;
    }

    /** setFrequency: the register is written only when the divider changes. */
    method SetFrequency(freq: uint32)
      requires Coherent()
      modifies this`frequency, this`div, spi
      ensures Coherent() && frequency == freq
      ensures spi != null ==> spi.Cfg() == old(spi.Cfg()).(clock := FrequencyToClockDiv(clk, freq))
      ensures spi != null ==> spi.wire == old(spi.wire)
      ensures spi != null ==>
                || (spi.past == old(spi.past) && spi.log == old(spi.log))
                || (spi.past == old(spi.past + spi.log) && IsCall(spi.log))
    {
      hide FrequencyToClockDiv, Spi.Valid;
      var clkdiv := SpiFrequencyToClockDiv(clk, freq);
      frequency := freq;
      if div == clkdiv {
        return;
      }
      if spi != null {
        spi.SetClockDiv(clkdiv);
      }
      div := clkdiv;
    }

    /** transfer: the whole message goes out while chip-select is low, and nothing else does. */
    method Transfer(msg: Message) returns (ok: bool)
      requires Coherent() && msg.size <= msg.tx.Length && msg.size <= msg.rx.Length
      modifies spi, if spi == null then {} else {spi.dataBuf}, msg.cs, msg.rx
      ensures Coherent() && ok
      ensures spi != null ==>
                && |spi.wire| == |old(spi.wire)| + 8 * msg.size
                && spi.wire == old(spi.wire) + Bits(old(msg.tx[..msg.size]), spi.wrBitOrder)
                && msg.rx[..msg.size] == Received(spi.peer, spi.wire, |old(spi.wire)|, msg.size, spi.rdBitOrder)
                && msg.rx[msg.size..] == old(msg.rx[msg.size..])
                && msg.cs.edges == old(msg.cs.edges) + [(false, |old(spi.wire)|), (true, |spi.wire|)]
                && spi.Cfg() == old(spi.Cfg())
      ensures spi == null ==> msg.rx[..] == old(msg.rx[..])
      ensures msg.cs.level
    {
      hide FrequencyToClockDiv, Spi.Valid, Bits, Received, Spliced;
      msg.cs.Write(false, if spi == null then 0 else |spi.wire|);
      if spi != null {
        ghost var start := |spi.wire|;
        spi.TransferBytes(msg.tx, msg.rx, msg.size);
        assert msg.rx[..msg.size] == msg.rx[..][0..0 + msg.size];
        assert msg.rx[msg.size..] == msg.rx[..][0 + msg.size..];
      }
      msg.cs.Write(true, if spi == null then 0 else |spi.wire|);
      return true;
    }
  }

  // ---------- whole runs ----------

  datatype BusCall = SetFrequency(freq: uint32) | Transfer(tx: seq<byte>)

  function LastFrequency(initial: uint32, calls: seq<BusCall>): uint32 {
    if calls == [] then initial
    else match calls[|calls| - 1]
      case SetFrequency(f) => f
      case Transfer(_) => LastFrequency(initial, calls[..|calls| - 1])
  }

  /** All that is transferred. */
  function Sent(calls: seq<BusCall>): seq<byte> {
    if calls == [] then []
    else Sent(calls[..|calls| - 1]) + match calls[|calls| - 1] case SetFrequency(_) => [] case Transfer(tx) => tx
  }

  lemma CallStep(initial: uint32, calls: seq<BusCall>, i: nat)
    requires i < |calls|
    ensures LastFrequency(initial, calls[..i + 1])
         == match calls[i] case SetFrequency(f) => f case Transfer(_) => LastFrequency(initial, calls[..i])
    ensures Sent(calls[..i + 1]) == Sent(calls[..i]) + match calls[i] case SetFrequency(_) => [] case Transfer(tx) => tx
  {
    assert calls[..i + 1][..i] == calls[..i];
  }

  lemma NothingCalled(initial: uint32, calls: seq<BusCall>)
    ensures LastFrequency(initial, calls[..0]) == initial && Sent(calls[..0]) == []
  {
  }

  lemma SentMoreBytes(start: seq<bool>, sent: seq<byte>, more: seq<byte>, lsbFirst: bool)
    ensures start + Bits(sent, lsbFirst) + Bits(more, lsbFirst) == start + Bits(sent + more, lsbFirst)
    ensures start + Bits([], lsbFirst) == start
  {
    hide Bits;
    BitsConcat(sent, more, lsbFirst);
    NothingSent(start, lsbFirst);
  }

  method TransferSeq(bus: SpiBus, tx: seq<byte>)
    requires bus.Coherent()
    modifies bus.spi, if bus.spi == null then {} else {bus.spi.dataBuf}
    ensures bus.Coherent()
    ensures bus.spi != null ==>
              && bus.spi.wire == old(bus.spi.wire) + Bits(tx, bus.spi.wrBitOrder)
              && bus.spi.Cfg() == old(bus.spi.Cfg())
  {
    hide SpiBus.Coherent, Bits, Received;
    var cs := new CsPin;
    var a := new byte[|tx|](i requires 0 <= i < |tx| => tx[i]);
    assert a[..] == tx && a[..|tx|] == tx;
    var _ := bus.Transfer(Message(cs, a, a, |tx|));
  }

  /** Any series of calls: the divider stays that of the last request, though most writes of the register are
      skipped and transfers come between; the bus exceeds that request exactly when it was below the slowest
      divider; and every transfer is on the wire whole and in turn. */
  method RunBus(bus: SpiBus, calls: seq<BusCall>)
    requires bus.Coherent()
    modifies bus`frequency, bus`div, bus.spi, if bus.spi == null then {} else {bus.spi.dataBuf}
    ensures bus.Coherent()
    ensures bus.frequency == LastFrequency(old(bus.frequency), calls)
    ensures bus.spi != null ==>
              && bus.spi.Cfg() == old(bus.spi.Cfg()).(clock := FrequencyToClockDiv(bus.clk, bus.frequency))
              && bus.spi.wire == old(bus.spi.wire) + Bits(Sent(calls), bus.spi.wrBitOrder)
              && (ClockDivToFrequency(bus.clk, bus.spi.clock) <= bus.frequency <==> MinFreq(bus.clk) <= bus.frequency)
  {
    hide SpiBus.Coherent, Bits, FrequencyToClockDiv, ClockDivToFrequency, MinFreq, Achieved, LastFrequency, Sent;
    NothingCalled(bus.frequency, calls);
    CoherentClock(bus);
    if bus.spi != null {
      SentMoreBytes(bus.spi.wire, [], [], bus.spi.wrBitOrder);
    }
    for i := 0 to |calls|
      invariant bus.Coherent()
      invariant bus.frequency == LastFrequency(old(bus.frequency), calls[..i])
      invariant bus.spi != null ==>
                  && bus.spi.Cfg() == old(bus.spi.Cfg()).(clock := FrequencyToClockDiv(bus.clk, bus.frequency))
                  && bus.spi.wire == old(bus.spi.wire) + Bits(Sent(calls[..i]), bus.spi.wrBitOrder)
    {
      CallStep(old(bus.frequency), calls, i);
      match calls[i] {
        case SetFrequency(f) =>
          bus.SetFrequency(f);
          assert Sent(calls[..i]) + [] == Sent(calls[..i]);
        case Transfer(tx) =>
          TransferSeq(bus, tx);
          if bus.spi != null {
            SentMoreBytes(old(bus.spi.wire), Sent(calls[..i]), tx, bus.spi.wrBitOrder);
          }
      }
    }
    assert calls[..|calls|] == calls;
    NeverFasterThanAsked(bus.clk, bus.frequency);
    AchievedMeans(bus.clk, bus.frequency);
  }

  lemma CoherentClock(bus: SpiBus)
    requires bus.Coherent()
    ensures bus.spi != null ==> bus.spi.clock == FrequencyToClockDiv(bus.clk, bus.frequency)
  {
  }

  lemma AchievedMeans(clk: CpuClock, freq: uint32)
    ensures Achieved(clk, freq) == ClockDivToFrequency(clk, FrequencyToClockDiv(clk, freq))
  {
  }
}
