/** The public calls of the driver as values, and running them on a bus (esp32/esp32spi.c, lines 315-1030). */
module SpiCalls {
  import opened SpiClock
  import opened Wire
  import opened SpiDevice
  import opened SpiDriver
  import opened SpiWords
  import opened SpiNumbers

  /** The buffers of a transfer: one for both directions, two apart, no output, no data, or neither. */
  datatype Shape = InPlace | Apart | DataOnly | OutOnly | Neither
  {
    predicate HasData() {
      InPlace? || Apart? || DataOnly?
    }

    predicate HasOut() {
      InPlace? || Apart? || OutOnly?
    }
  }

  /** The calls made inside a transaction.  Of a transfer, mem is the data buffer, and before is
      what the output buffer holds, where it is another one. */
  datatype InnerCall =
    | WriteNL(ws: seq<word>, len: nat)
    | TransferBytesNL(mem: seq<word>, before: seq<word>, len: nat, shape: Shape)
    | WritePixelsNL(ws: seq<word>, len: nat)
    | TransferBitsNL(data: word, bits: nat, hasOut: bool)
    | WriteByteNL(b: byte)
    | TransferByteNL(b: byte)
    | WriteShortNL(h: bv16)
    | TransferShortNL(h: bv16)
    | WriteLongNL(w: word)
    | TransferLongNL(w: word)

  /** clockDiv, dataMode and bitOrder of spiTransaction. */
  datatype Settings = Settings(clockDiv: uint32, dataMode: bv8, bitOrder: bv8)

  /** The calls that take the lock themselves.  Bracket is spiTransaction, or spiSimpleTransaction when
      there are no settings, with the calls made inside it and spiEndTransaction. */
  datatype Call =
    | SetClockDiv(clockDiv: uint32)
    | SetDataMode(dataMode: bv8)
    | SetBitOrder(bitOrder: bv8)
    | Bracket(settings: Option<Settings>, inner: seq<InnerCall>)
    | Write(ws: seq<word>, len: nat)
    | Transfer(ws: seq<word>, len: nat)
    | TransferBytes(mem: seq<byte>, before: seq<byte>, size: nat, shape: Shape)
    | TransferBits(data: word, bits: nat, hasOut: bool)
    | WriteByte(b: byte)
    | TransferByte(b: byte)
    | WriteWord(h: bv16)
    | TransferWord(h: bv16)
    | WriteLong(w: word)
    | TransferLong(w: word)
  {
    /** The calls that read the bit order outside the lock. */
    predicate ReadsOutside() {
      WriteWord? || TransferWord? || WriteLong? || TransferLong?
    }

    /** What the driver demands: buffers as long as what it uses of them, and no zero lengths. */
    predicate Legal() {
      match this
      case Bracket(_, inner) => forall c :: c in inner ==> LegalInside(c)
      case Write(ws, len) => 1 <= len && (len <= |ws| || 16 <= |ws|)
      case Transfer(ws, len) => 1 <= len && (len <= |ws| || 16 <= |ws|)
      case TransferBytes(mem, before, size, shape) => Fits(|mem|, |before|, size, shape)
      case TransferBits(_, bits, _) => 1 <= bits
      case _ => true
    }
  }

  /** The buffers that a transfer of this shape uses are long enough. */
  predicate Fits(mem: nat, before: nat, size: nat, shape: Shape) {
    && (shape.HasData() ==> size <= mem)
    && (shape.Apart? || shape.OutOnly? ==> size <= before)
  }

  predicate LegalInside(c: InnerCall) {
    match c
    case WriteNL(ws, len) => len <= 4 * |ws|
    case TransferBytesNL(mem, before, len, shape) => Fits(4 * |mem|, 4 * |before|, len, shape)
    case WritePixelsNL(ws, len) => len <= 4 * |ws|
    case TransferBitsNL(_, bits, _) => 1 <= bits
    case _ => true
  }

  // ---------- what a call sends ----------

  /** The bits a call inside a transaction sends. */
  function SentInside(lsbFirst: bool, c: InnerCall): seq<bool>
    requires LegalInside(c)
  {
    match c
    case WriteNL(ws, len) => Bits(Leading(ws, len), lsbFirst)
    case TransferBytesNL(mem, _, len, shape) => Bits(if shape.HasData() then Leading(mem, len) else Ones(len), lsbFirst)
    case WritePixelsNL(ws, len) => Bits(if lsbFirst then Leading(ws, len) else SentPixels(Leading(ws, len)), lsbFirst)
    case TransferBitsNL(data, bits, _) => SentBits(data, if bits > 32 then 32 else bits, lsbFirst)
    case WriteByteNL(b) => Bits([b], lsbFirst)
    case TransferByteNL(b) => Bits([b], lsbFirst)
    case WriteShortNL(h) => Bits(Bytes16(h, lsbFirst), lsbFirst)
    case TransferShortNL(h) => Bits(Bytes16(h, lsbFirst), lsbFirst)
    case WriteLongNL(w) => Bits(Bytes32(w, lsbFirst), lsbFirst)
    case TransferLongNL(w) => Bits(Bytes32(w, lsbFirst), lsbFirst)
  }

  function SentInsideAll(lsbFirst: bool, inner: seq<InnerCall>): seq<bool>
    requires forall c :: c in inner ==> LegalInside(c)
  {
    if inner == [] then []
    else SentInsideAll(lsbFirst, inner[..|inner| - 1]) + SentInside(lsbFirst, inner[|inner| - 1])
  }

  /** The bits any call sends on a bus in configuration cfg. */
  function Sent(cfg: Config, call: Call): seq<bool>
    requires call.Legal()
  {
    var lsbFirst := cfg.wrBitOrder;
    match call
    case Bracket(_, inner) => SentInsideAll(Apply(cfg, call).wrBitOrder, inner)
    case Write(ws, len) => Bits(BytesOf(ws[..if len > 16 then 16 else len]), lsbFirst)
    case Transfer(ws, len) => Bits(BytesOf(ws[..if len > 16 then 16 else len]), lsbFirst)
    case TransferBytes(mem, _, size, shape) => Bits(if shape.HasData() then mem[..size] else Ones(size), lsbFirst)
    case TransferBits(data, bits, _) => SentBits(data, if bits > 32 then 32 else bits, lsbFirst)
    case WriteByte(b) => Bits([b], lsbFirst)
    case TransferByte(b) => Bits([b], lsbFirst)
    case WriteWord(h) => Bits(Bytes16(h, lsbFirst), lsbFirst)
    case TransferWord(h) => Bits(Bytes16(h, lsbFirst), lsbFirst)
    case WriteLong(w) => Bits(Bytes32(w, lsbFirst), lsbFirst)
    case TransferLong(w) => Bits(Bytes32(w, lsbFirst), lsbFirst)
    case _ => []
  }

  lemma NextInside(lsbFirst: bool, inner: seq<InnerCall>, i: nat)
    requires i < |inner| && forall c :: c in inner ==> LegalInside(c)
    ensures SentInsideAll(lsbFirst, inner[..i + 1])
         == SentInsideAll(lsbFirst, inner[..i]) + SentInside(lsbFirst, inner[i])
  {
    hide LegalInside, SentInside;
    assert inner[..i + 1][..i] == inner[..i];
  }

  lemma NoneInside(lsbFirst: bool)
    ensures SentInsideAll(lsbFirst, []) == []
  {
  }

  // ---------- inside a transaction ----------

  method NewWords(ws: seq<word>) returns (a: array<word>)
    ensures fresh(a) && a[..] == ws
  {
    a := new word[|ws|](i requires 0 <= i < |ws| => ws[i]);
    assert a[..] == ws;
  }

  method NewBytes(bs: seq<byte>) returns (a: array<byte>)
    ensures fresh(a) && a[..] == bs
  {
    a := new byte[|bs|](i requires 0 <= i < |bs| => bs[i]);
    assert a[..] == bs;
  }

  /** The pointers a transfer of this shape passes. */
  method Pointers<T>(a: array<T>, b: array<T>, shape: Shape) returns (data: array?<T>, out: array?<T>)
    ensures data == if shape.HasData() then a else null
    ensures out == if !shape.HasOut() then null else if shape.InPlace? then a else b
  {
    data := if shape.HasData() then a else null;
    out := if !shape.HasOut() then null else if shape.InPlace? then a else b;
  }

  method RunInnerBuffers(spi: Spi, c: InnerCall)
    requires spi.Valid() && spi.Started() && LegalInside(c)
    requires c.WriteNL? || c.TransferBytesNL? || c.TransferBitsNL? || c.WritePixelsNL?
    modifies spi`mosiDlen, spi`misoDlen, spi.dataBuf, spi`wire, spi`log, spi`session
    ensures spi.Valid() && spi.Within()
    ensures spi.wire == old(spi.wire) + SentInside(spi.wrBitOrder, c)
  {
    hide Spi.Valid, Bits, BytesOf, Leading, Bytes16, Bytes32, Received, Ones, SentPixels, SentBits, FifoBits, BitsWord;
    hide PixelWords, BitsOut, Response, Padding;
    match c {
      case WriteNL(ws, len) =>
        var a := NewWords(ws);
        spi.WriteNL(a, len);
      case TransferBytesNL(mem, before, len, shape) =>
        var a := NewWords(mem);
        var b := NewWords(before);
        var data, out := Pointers(a, b, shape);
        spi.TransferBytesNL(data, out, len);
      case TransferBitsNL(data, bits, hasOut) =>
        var a := NewWords([0]);
        BitsSentAre(data, if bits > 32 then 32 else bits, spi.wrBitOrder);
        spi.TransferBitsNL(data, if hasOut then a else null, bits);
      case WritePixelsNL(ws, len) =>
        var a := NewWords(ws);
        PixelsSentOf(ws, len);
        spi.WritePixelsNL(a, len);
    }
  }

  method RunInner(spi: Spi, c: InnerCall)
    requires spi.Valid() && spi.Started() && LegalInside(c)
    modifies spi`mosiDlen, spi`misoDlen, spi.dataBuf, spi`wire, spi`log, spi`session
    ensures spi.Valid() && spi.Within()
    ensures spi.wire == old(spi.wire) + SentInside(spi.wrBitOrder, c)
  {
    hide Spi.Valid, Bits, BytesOf, Leading, Bytes16, Bytes32, Received, Ones, SentPixels, SentBits, FifoBits, BitsWord;
    hide PixelWords, BitsOut, Response, Padding;
    match c {
      case WriteByteNL(b) => spi.WriteByteNL(b);
      case TransferByteNL(b) => var _ := spi.TransferByteNL(b);
      case WriteShortNL(h) => spi.WriteShortNL(h);
      case TransferShortNL(h) => var _ := spi.TransferShortNL(h);
      case WriteLongNL(w) => spi.WriteLongNL(w);
      case TransferLongNL(w) => var _ := spi.TransferLongNL(w);
      case _ => RunInnerBuffers(spi, c);
    }
  }

  /** The calls between spiTransaction and spiEndTransaction. */
  method RunInside(spi: Spi, inner: seq<InnerCall>)
    requires spi.Valid() && spi.Started() && forall c :: c in inner ==> LegalInside(c)
    modifies spi`mosiDlen, spi`misoDlen, spi.dataBuf, spi`wire, spi`log, spi`session
    ensures spi.Valid() && spi.Within()
    ensures spi.wire == old(spi.wire) + SentInsideAll(spi.wrBitOrder, inner)
  {
    hide Spi.Valid, LegalInside, SentInside, SentInsideAll;
    NoneInside(spi.wrBitOrder);
    assert inner[..0] == [];
    for i := 0 to |inner|
      invariant spi.Valid() && spi.Within()
      invariant spi.wire == old(spi.wire) + SentInsideAll(spi.wrBitOrder, inner[..i])
    {
      RunInner(spi, inner[i]);
      NextInside(spi.wrBitOrder, inner, i);
    }
    assert inner[..|inner|] == inner;
  }

  // ---------- whole calls ----------

  /** The configuration after a call. */
  function Apply(cfg: Config, call: Call): Config {
    match call
    case SetClockDiv(v) => cfg.(clock := v)
    case SetDataMode(m) => WithMode(cfg, m)
    case SetBitOrder(o) => WithOrder(cfg, o)
    case Bracket(Some(s), _) => WithOrder(WithMode(cfg.(clock := s.clockDiv), s.dataMode), s.bitOrder)
    case _ => cfg
  }

  /** A transaction and all that is done in it. */
  method RunBracket(spi: Spi, settings: Option<Settings>, inner: seq<InnerCall>)
    requires spi.Valid() && spi.Started() && !spi.locked && forall c :: c in inner ==> LegalInside(c)
    modifies spi`clock, spi`idleEdge, spi`outEdge, spi`wrBitOrder, spi`rdBitOrder
    modifies spi`locked, spi`past, spi`origin, spi`log, spi`session
    modifies spi`mosiDlen, spi`misoDlen, spi.dataBuf, spi`wire
    ensures spi.Valid() && !spi.locked && spi.Balanced()
    ensures spi.Cfg() == Apply(old(spi.Cfg()), Bracket(settings, inner))
    ensures spi.wire == old(spi.wire) + SentInsideAll(spi.wrBitOrder, inner)
  {
    hide Spi.Valid, LegalInside, WithMode, WithOrder, IsCall, SentInsideAll;
    match settings {
      case Some(s) => spi.Transaction(s.clockDiv, s.dataMode, s.bitOrder);
      case None => spi.SimpleTransaction();
    }
    RunInside(spi, inner);
    spi.EndTransaction();
  }

  method RunSetting(spi: Spi, call: Call)
    requires spi.Valid() && !spi.locked && (call.SetClockDiv? || call.SetDataMode? || call.SetBitOrder?)
    modifies spi`clock, spi`idleEdge, spi`outEdge, spi`wrBitOrder, spi`rdBitOrder
    modifies spi`locked, spi`past, spi`origin, spi`log, spi`session
    ensures spi.Valid() && !spi.locked && spi.Balanced()
    ensures spi.Cfg() == Apply(old(spi.Cfg()), call)
  {
    hide Spi.Valid, WithMode, WithOrder, IsCall;
    match call {
      case SetClockDiv(v) => spi.SetClockDiv(v);
      case SetDataMode(m) => spi.SetDataMode(m);
      case SetBitOrder(o) => spi.SetBitOrder(o);
    }
  }

  method RunBuffers(spi: Spi, call: Call)
    requires spi.Valid() && spi.Started() && !spi.locked && call.Legal()
    requires call.Write? || call.Transfer? || call.TransferBytes?
    modifies spi`locked, spi`past, spi`origin, spi`log, spi`session
    modifies spi`mosiDlen, spi`misoDlen, spi.dataBuf, spi`wire
    ensures spi.Valid() && !spi.locked && spi.Balanced()
    ensures spi.wire == old(spi.wire) + Sent(spi.Cfg(), call)
  {
    hide Spi.Valid, IsCall, Bits, BytesOf, Received, Ones;
    match call {
      case Write(ws, len) =>
        var a := NewWords(ws);
        spi.Write(a, len);
      case Transfer(ws, len) =>
        var a := NewWords(ws);
        spi.Transfer(a, len);
      case TransferBytes(mem, before, size, shape) =>
        var a := NewBytes(mem);
        var b := NewBytes(before);
        var data, out := Pointers(a, b, shape);
        spi.TransferBytes(data, out, size);
    }
  }

  method RunTransfer(spi: Spi, call: Call)
    requires spi.Valid() && spi.Started() && !spi.locked && call.Legal()
    requires call.Write? || call.Transfer? || call.TransferBytes? || call.TransferBits? || call.WriteByte?
          || call.TransferByte?
    modifies spi`locked, spi`past, spi`origin, spi`log, spi`session
    modifies spi`mosiDlen, spi`misoDlen, spi.dataBuf, spi`wire
    ensures spi.Valid() && !spi.locked && spi.Balanced()
    ensures spi.wire == old(spi.wire) + Sent(spi.Cfg(), call)
  {
    hide Spi.Valid, IsCall, Bits, BytesOf, Leading, Received, Ones, SentBits, FifoBits, BitsWord, BitsOut, Response;
    if call.TransferBits? {
      var a := NewWords([0]);
      BitsSentAre(call.data, if call.bits > 32 then 32 else call.bits, spi.wrBitOrder);
      spi.TransferBits(call.data, if call.hasOut then a else null, call.bits);
    } else if call.WriteByte? {
      spi.WriteByte(call.b);
    } else if call.TransferByte? {
      var _ := spi.TransferByte(call.b);
    } else {
      RunBuffers(spi, call);
    }
  }

  method RunNumber(spi: Spi, call: Call)
    requires spi.Valid() && spi.Started() && !spi.locked && call.ReadsOutside()
    modifies spi`locked, spi`past, spi`origin, spi`log, spi`session
    modifies spi`mosiDlen, spi`misoDlen, spi.dataBuf, spi`wire
    ensures spi.Valid() && !spi.locked
    ensures spi.wire == old(spi.wire) + Sent(spi.Cfg(), call)
  {
    hide Spi.Valid, Bits, Bytes16, Bytes32, Received, SendCall, ExchangeCall, Word16, Word32, Number16, Number32;
    match call {
      case WriteWord(h) => spi.WriteWord(h);
      case TransferWord(h) => var _ := spi.TransferWord(h);
      case WriteLong(w) => spi.WriteLong(w);
      case TransferLong(w) => var _ := spi.TransferLong(w);
    }
  }

  /** Any call: the configuration it leaves, the bits it sends, and that it locks for all its accesses, from
      whatever state it finds, or is one of the four that read the order outside the lock. */
  method RunCall(spi: Spi, call: Call)
    requires spi.Valid() && spi.Started() && !spi.locked && call.Legal()
    modifies spi`clock, spi`idleEdge, spi`outEdge, spi`wrBitOrder, spi`rdBitOrder
    modifies spi`locked, spi`past, spi`origin, spi`log, spi`session
    modifies spi`mosiDlen, spi`misoDlen, spi.dataBuf, spi`wire
    ensures spi.Valid() && !spi.locked && (call.ReadsOutside() || spi.Balanced())
    ensures spi.Cfg() == Apply(old(spi.Cfg()), call)
    ensures spi.wire == old(spi.wire) + Sent(old(spi.Cfg()), call)
  {
    hide Spi.Valid, IsCall, WithMode, WithOrder, Bits, Ones, SentBits, SentInsideAll;
    if call.ReadsOutside() {
      RunNumber(spi, call);
    } else if call.SetClockDiv? || call.SetDataMode? || call.SetBitOrder? {
      RunSetting(spi, call);
    } else if call.Bracket? {
      RunBracket(spi, call.settings, call.inner);
    } else {
      RunTransfer(spi, call);
    }
  }
}
