/** The controller registers as a value, the accesses a driver can make to them, and the bookkeeping that
    says when a stream of accesses obeys the bus lock. */
module SpiDevice {
  import opened SpiClock
  import opened Wire
  import opened SpiWords

  datatype Option<T> = None | Some(value: T)

  const FIFO_WORDS: nat := 16

  const SPI_MODE0: bv8 := 0
  const SPI_MODE1: bv8 := 1
  const SPI_MODE2: bv8 := 2
  const SPI_MODE3: bv8 := 3
  const SPI_LSBFIRST: bv8 := 0
  const SPI_MSBFIRST: bv8 := 1

  /** clock.val, pin.ck_idle_edge, user.ck_out_edge, ctrl.wr_bit_order and ctrl.rd_bit_order.
      A set order bit means least significant bit first. */
  datatype Config = Config(clock: uint32, idleEdge: bool, outEdge: bool, wrBitOrder: bool, rdBitOrder: bool)

  /** The registers, the FIFO data_buf, and every bit sent since the bus was started. */
  datatype Device = Device(cfg: Config, mosiDlen: nat, misoDlen: nat, fifo: seq<word>, wire: seq<bool>)

  /** One access: a lock operation, a register access, or starting the command.
      Reads carry the value they returned. */
  datatype Op =
    | Take
    | Give
    | SetClock(clock: uint32)
    | SetIdleEdge(on: bool)
    | SetOutEdge(on: bool)
    | SetWrOrder(on: bool)
    | SetRdOrder(on: bool)
    | ReadWrOrder(on: bool)
    | ReadRdOrder(on: bool)
    | SetMosiDlen(dlen: nat)
    | SetMisoDlen(dlen: nat)
    | Load(i: nat, w: word)
    | Fire
    | Unload(i: nat, w: word)

  /** A command the controller can run: at most the whole FIFO, and no more received than sent. */
  predicate CanFire(d: Device) {
    |d.fifo| == FIFO_WORDS && d.mosiDlen < 512 && d.misoDlen <= d.mosiDlen
  }

  /** The hardware assumption: a full-duplex command sends the first mosiDlen+1 bits of the FIFO, and
      replaces its first misoDlen+1 bits by what the peer answered meanwhile. */
  function Command(peer: Peer, d: Device): Device
    requires CanFire(d)
  {
    var wire := d.wire + FifoBits(d.fifo, d.cfg.wrBitOrder, d.mosiDlen + 1);
    d.(wire := wire,
       fifo := Overwrite(d.fifo, d.cfg.rdBitOrder, Response(peer, wire, |d.wire|, d.misoDlen + 1)))
  }

  function Exec(peer: Peer, d: Device, op: Op): Device {
    match op
    case SetClock(v) => d.(cfg := d.cfg.(clock := v))
    case SetIdleEdge(b) => d.(cfg := d.cfg.(idleEdge := b))
    case SetOutEdge(b) => d.(cfg := d.cfg.(outEdge := b))
    case SetWrOrder(b) => d.(cfg := d.cfg.(wrBitOrder := b))
    case SetRdOrder(b) => d.(cfg := d.cfg.(rdBitOrder := b))
    case SetMosiDlen(n) => d.(mosiDlen := n)
    case SetMisoDlen(n) => d.(misoDlen := n)
    case Load(i, w) => if i < |d.fifo| then d.(fifo := d.fifo[i := w]) else d
    case Fire => if CanFire(d) then Command(peer, d) else d
    case _ => d
  }

  function Replay(peer: Peer, d: Device, ops: seq<Op>): Device {
    if ops == [] then d else Exec(peer, Replay(peer, d, ops[..|ops| - 1]), ops[|ops| - 1])
  }

  // ---------- the lock discipline ----------

  /** What one task knows of its own accesses: whether it holds the lock, what it has set up for its next
      command since it took the lock and since its last command, and whether every access so far was
      allowed.  words is the prefix of the FIFO it has loaded. */
  datatype Session = Session(held: bool, mosi: Option<nat>, miso: Option<nat>, words: seq<word>, ok: bool)

  const IDLE: Session := Session(false, None, None, [], true)

  /** The next command is fully set up by this session: both lengths, and every FIFO word it sends. */
  predicate Ready(s: Session) {
    && s.mosi.Some? && s.miso.Some?
    && s.mosi.value < 512 && s.miso.value <= s.mosi.value
    && s.mosi.value + 1 <= 32 * |s.words|
  }

  function Loaded(words: seq<word>, i: nat, w: word): seq<word> {
    if i == |words| then words + [w] else if i < |words| then words[i := w] else words
  }

  function Next(s: Session, op: Op): Session {
    match op
    case Take => Session(true, None, None, [], s.ok && !s.held)
    case Give => Session(false, None, None, [], s.ok && s.held)
    case SetMosiDlen(n) => s.(mosi := Some(n), ok := s.ok && s.held)
    case SetMisoDlen(n) => s.(miso := Some(n), ok := s.ok && s.held)
    case Load(i, w) => s.(words := Loaded(s.words, i, w), ok := s.ok && s.held && i < FIFO_WORDS)
    case Fire => Session(s.held, None, None, [], s.ok && s.held && Ready(s))
    case _ => s.(ok := s.ok && s.held)
  }

  function Summary(ops: seq<Op>): Session {
    if ops == [] then IDLE else Next(Summary(ops[..|ops| - 1]), ops[|ops| - 1])
  }

  /** The accesses of one whole call: it takes the lock first, obeys the discipline, and has given the lock
      back at the end. */
  predicate IsCall(ops: seq<Op>) {
    ops != [] && ops[0].Take? && Summary(ops).ok && !Summary(ops).held
  }

  /** The accesses that send n bytes out of one word, and those that also read the answer. */
  function SendOps(w: word, n: nat): seq<Op>
    requires 1 <= n
  {
    [SetMosiDlen(8 * n - 1), SetMisoDlen(0), Load(0, w), Fire]
  }

  function ExchangeOps(w: word, n: nat, raw: word): seq<Op>
    requires 1 <= n
  {
    [SetMosiDlen(8 * n - 1), SetMisoDlen(8 * n - 1), Load(0, w), Fire, Unload(0, raw)]
  }

  function SendCall(w: word, n: nat): seq<Op>
    requires 1 <= n
  {
    [Take] + SendOps(w, n) + [Give]
  }

  function ExchangeCall(w: word, n: nat, raw: word): seq<Op>
    requires 1 <= n
  {
    [Take] + ExchangeOps(w, n, raw) + [Give]
  }

  /** The accesses of the Word and Long calls, which read the bit order before they take the lock and, to
      decode an answer, after they give it back. */
  function WriteCall(w: word, n: nat, seen: bool): seq<Op>
    requires 1 <= n
  {
    [ReadWrOrder(seen)] + SendCall(w, n)
  }

  function TransferCall(w: word, n: nat, raw: word, seen: bool, after: bool): seq<Op>
    requires 1 <= n
  {
    [ReadWrOrder(seen)] + ExchangeCall(w, n, raw) + [ReadRdOrder(after)]
  }

  predicate IsOrderRead(op: Op) {
    op.ReadWrOrder? || op.ReadRdOrder?
  }

  /** The accesses but for the reads of the order registers. */
  function Bare(ops: seq<Op>): seq<Op> {
    if ops == [] then []
    else
      var p, op := ops[..|ops| - 1], ops[|ops| - 1];
      if IsOrderRead(op) then Bare(p) else Bare(p) + [op]
  }

  lemma BareStep(ops: seq<Op>, op: Op)
    ensures Bare(ops + [op]) == if IsOrderRead(op) then Bare(ops) else Bare(ops) + [op]
  {
    assert (ops + [op])[..|ops + [op]| - 1] == ops;
  }

  lemma {:induction false} BareConcat(a: seq<Op>, b: seq<Op>)
    ensures Bare(a + b) == Bare(a) + Bare(b)
    decreases |b|
  {
    hide IsOrderRead;
    if b == [] {
      assert a + b == a;
    } else {
      var c, op := b[..|b| - 1], b[|b| - 1];
      assert a + b == (a + c) + [op] && b == c + [op];
      BareStep(a + c, op);
      BareStep(c, op);
      BareConcat(a, c);
    }
  }

  lemma {:induction false} NoReads(ops: seq<Op>)
    requires forall op :: op in ops ==> !IsOrderRead(op)
    ensures Bare(ops) == ops
    decreases |ops|
  {
    if ops != [] {
      NoReads(ops[..|ops| - 1]);
    }
  }

  /** Taking the reads out of a whole call leaves a whole call. */
  lemma {:induction false} BareSummary(ops: seq<Op>)
    requires Summary(ops).ok
    ensures Summary(Bare(ops)) == Summary(ops)
    decreases |ops|
  {
    hide Summary, Bare, Next, IsOrderRead;
    if ops == [] {
      EmptyBare();
    } else {
      var p, op := ops[..|ops| - 1], ops[|ops| - 1];
      assert ops == p + [op];
      SummaryStep(p, op);
      NextUnbroken(Summary(p), op);
      BareSummary(p);
      BareStep(p, op);
      SummaryStep(Bare(p), op);
    }
  }

  lemma EmptyBare()
    ensures Bare([]) == []
  {
  }

  /** An access that is allowed follows none that was not, and reading an order changes nothing. */
  lemma NextUnbroken(s: Session, op: Op)
    requires Next(s, op).ok
    ensures s.ok && (IsOrderRead(op) ==> Next(s, op) == s)
  {
    hide Ready, Loaded;
  }

  lemma BareCall(ops: seq<Op>)
    requires IsCall(ops)
    ensures IsCall(Bare(ops))
  {
    hide Summary, Bare;
    BareSummary(ops);
    assert ops == [Take] + ops[1..];
    BareConcat([Take], ops[1..]);
    NoReads([Take]);
  }

  /** The accesses of the order switch. */
  function OrderOps(bitOrder: bv8): seq<Op> {
    if bitOrder == SPI_MSBFIRST then [SetWrOrder(false), SetRdOrder(false)]
    else if bitOrder == SPI_LSBFIRST then [SetWrOrder(true), SetRdOrder(true)]
    else []
  }

  lemma EmptyLog(peer: Peer, d: Device)
    ensures Summary([]) == IDLE && Replay(peer, d, []) == d
  {
  }

  lemma SummaryStep(ops: seq<Op>, op: Op)
    ensures Summary(ops + [op]) == Next(Summary(ops), op)
  {
    hide Next;
    assert (ops + [op])[..|ops + [op]| - 1] == ops;
  }

  /** Setting up and running one word inside a session. */
  lemma SendSummary(ops: seq<Op>, w: word, n: nat, miso: nat)
    requires 1 <= n <= 4 && miso < 8 * n && Summary(ops) == Session(true, None, None, [], true)
    ensures Summary(ops + [SetMosiDlen(8 * n - 1), SetMisoDlen(miso), Load(0, w), Fire]) == Summary(ops)
  {
    hide Summary;
    var a, b, c := SetMosiDlen(8 * n - 1), SetMisoDlen(miso), Load(0, w);
    SummaryStep(ops, a);
    SummaryStep(ops + [a], b);
    SummaryStep(ops + [a] + [b], c);
    SummaryStep(ops + [a] + [b] + [c], Fire);
    assert ops + [a] + [b] + [c] + [Fire] == ops + [a, b, c, Fire];
  }

  lemma JustTaken()
    ensures Summary([Take]) == Session(true, None, None, [], true)
  {
    SummaryStep([], Take);
    assert [] + [Take] == [Take];
  }

  /** Between lock and unlock, the Word and Long calls obey the discipline. */
  lemma NumberCallsAreCalls(w: word, n: nat, raw: word)
    requires 1 <= n <= 4
    ensures IsCall(SendCall(w, n)) && IsCall(ExchangeCall(w, n, raw))
  {
    hide Summary;
    JustTaken();
    SendSummary([Take], w, n, 0);
    SummaryStep([Take] + SendOps(w, n), Give);
    var setup := [SetMosiDlen(8 * n - 1), SetMisoDlen(8 * n - 1), Load(0, w), Fire];
    SendSummary([Take], w, n, 8 * n - 1);
    SummaryStep([Take] + setup, Unload(0, raw));
    SummaryStep([Take] + setup + [Unload(0, raw)], Give);
    assert ExchangeCall(w, n, raw) == [Take] + setup + [Unload(0, raw)] + [Give];
  }

  /** Without their reads outside the lock these calls are whole calls. */
  lemma NumberCallsAreBareCalls(w: word, n: nat, raw: word, seen: bool, after: bool)
    requires 1 <= n <= 4
    ensures Bare(WriteCall(w, n, seen)) == SendCall(w, n)
    ensures Bare(TransferCall(w, n, raw, seen, after)) == ExchangeCall(w, n, raw)
  {
    hide Bare;
    var read, reread := [ReadWrOrder(seen)], [ReadRdOrder(after)];
    BareConcat(read, SendCall(w, n));
    BareConcat(read + ExchangeCall(w, n, raw), reread);
    BareConcat(read, ExchangeCall(w, n, raw));
    NoReads(SendCall(w, n));
    NoReads(ExchangeCall(w, n, raw));
    OnlyRead(ReadWrOrder(seen));
    OnlyRead(ReadRdOrder(after));
  }

  lemma OnlyRead(op: Op)
    requires IsOrderRead(op)
    ensures Bare([op]) == []
  {
    BareStep([], op);
    assert [] + [op] == [op];
  }

  lemma LogStep(peer: Peer, d: Device, ops: seq<Op>, op: Op)
    ensures Summary(ops + [op]) == Next(Summary(ops), op)
    ensures Replay(peer, d, ops + [op]) == Exec(peer, Replay(peer, d, ops), op)
  {
    assert (ops + [op])[..|ops + [op]| - 1] == ops;
  }

  // ---------- whole-byte commands ----------

  /** A command of n bytes sends the first n bytes of the FIFO, and leaves there the n bytes received. */
  lemma WholeByteCommand(peer: Peer, d: Device, n: nat)
    requires |d.fifo| == FIFO_WORDS && 1 <= n <= 64 && d.mosiDlen == 8 * n - 1
    requires d.misoDlen <= d.mosiDlen
    ensures Command(peer, d).wire == d.wire + Bits(BytesOf(d.fifo)[..n], d.cfg.wrBitOrder)
    ensures d.misoDlen == 8 * n - 1 ==>
              (BytesOf(Command(peer, d).fifo) ==
                Received(peer, Command(peer, d).wire, |d.wire|, n, d.cfg.rdBitOrder) + BytesOf(d.fifo)[n..])
  {
    FifoWholeBytes(d.fifo, d.cfg.wrBitOrder, n);
    var wire := Command(peer, d).wire;
    if d.misoDlen == 8 * n - 1 {
      OverwriteWholeBytes(d.fifo, d.cfg.rdBitOrder, Response(peer, wire, |d.wire|, 8 * n), n);
    }
  }

  /** The same, with the FIFO freshly loaded with ws. */
  lemma LoadedCommand(peer: Peer, d: Device, ws: seq<word>, n: nat)
    requires 1 <= n <= 64 && |ws| == (n + 3) / 4 && |d.fifo| == FIFO_WORDS && d.fifo[..|ws|] == ws
    requires d.mosiDlen == 8 * n - 1 && d.misoDlen <= d.mosiDlen
    ensures CanFire(d) && |Command(peer, d).wire| == |d.wire| + 8 * n
    ensures Command(peer, d).wire == d.wire + Bits(BytesOf(ws)[..n], d.cfg.wrBitOrder)
    ensures d.misoDlen == 8 * n - 1 ==>
              (BytesOf(Command(peer, d).fifo)[..4 * |ws|] ==
                Received(peer, Command(peer, d).wire, |d.wire|, n, d.cfg.rdBitOrder) + BytesOf(ws)[n..])
  {
    hide Bits, Received, Overwrite, FifoBits, BytesOf;
    BytesOfPrefix(d.fifo, |ws|);
    assert BytesOf(d.fifo)[..n] == BytesOf(ws)[..n];
    assert BytesOf(d.fifo)[n..4 * |ws|] == BytesOf(ws)[n..];
    WholeByteCommand(peer, d, n);
    assert |Bits(BytesOf(ws)[..n], d.cfg.wrBitOrder)| == 8 * n;
  }

  // ---------- one-word commands ----------

  /** A command of n bits out of word 0, with m bits of answer. */
  lemma OneWordCommand(peer: Peer, d: Device, w: word, n: nat, m: nat)
    requires 1 <= m <= n <= 32 && |d.fifo| == FIFO_WORDS && d.fifo[0] == w
    requires d.mosiDlen == n - 1 && d.misoDlen == m - 1
    ensures CanFire(d) && |Command(peer, d).wire| == |d.wire| + n && |Command(peer, d).fifo| == FIFO_WORDS
    ensures Command(peer, d).wire == d.wire + FifoBits([w], d.cfg.wrBitOrder, n)
    ensures Answered(Command(peer, d).fifo[0], w, Response(peer, Command(peer, d).wire, |d.wire|, m), d.cfg.rdBitOrder)
  {
    hide Overwrite, Response, Bits, BytesOf;
    FirstWordBits(d.fifo, d.cfg.wrBitOrder);
    assert FifoBits(d.fifo, d.cfg.wrBitOrder, n) == FifoBits([w], d.cfg.wrBitOrder, n);
    var after := Command(peer, d);
    var resp := Response(peer, after.wire, |d.wire|, m);
    OverwriteBits(d.fifo, d.cfg.rdBitOrder, resp);
    FirstWordBits(after.fifo, d.cfg.rdBitOrder);
    FirstWordBits(d.fifo, d.cfg.rdBitOrder);
    Splice32(resp, Bits(BytesOf(d.fifo), d.cfg.rdBitOrder));
  }

  /** o is the number read back from a command of |resp| bits that answered resp. */
  ghost predicate BitsOut(o: word, data: word, resp: seq<bool>, wrLsb: bool, rdLsb: bool) {
    && 1 <= |resp| <= 32
    && exists raw :: Answered(raw, BitsWord(data, |resp|, wrLsb), resp, rdLsb) && o == Decoded(raw, |resp|, rdLsb)
  }

  /** Where numbers go out right, the number read back is the one received, with no other bits. */
  lemma BitsOutMeans(o: word, data: word, resp: seq<bool>, lsbFirst: bool)
    requires BitsOut(o, data, resp, lsbFirst, lsbFirst)
    requires lsbFirst || |resp| == 16 || |resp| == 24 || |resp| == 32
    ensures NumberBits(o, |resp|, lsbFirst) == resp
    ensures forall j :: |resp| <= j < 32 ==> !NumberBit(o, j)
  {
    hide Answered, BitsWord, Decoded, NumberBit, NumberBits;
    var raw :| Answered(raw, BitsWord(data, |resp|, lsbFirst), resp, lsbFirst) && o == Decoded(raw, |resp|, lsbFirst);
    BitsAnswered(raw, data, resp, lsbFirst);
  }

  /** At 16 and 32 bits the number read back is the one the Short and Long calls decode from the answer. */
  lemma BitsOutIsScalar(o: word, h: bv16, w: word, resp: seq<bool>, wrLsb: bool, rdLsb: bool)
    ensures BitsOut(o, h as bv32, resp, wrLsb, rdLsb) && |resp| == 16 ==>
              o < 0x1_0000 && Bytes16(Low16(o), rdLsb) == Unbits(resp, rdLsb)
    ensures BitsOut(o, w, resp, wrLsb, rdLsb) && |resp| == 32 ==> Bytes32(o, rdLsb) == Unbits(resp, rdLsb)
  {
    hide Answered, BitsWord, Decoded, Unbits, Word16, Word32, Number16, Number32, Bytes16, Bytes32, Leading, Low16;
    BitsAgreeWithScalars(h, w, wrLsb);
    if BitsOut(o, h as bv32, resp, wrLsb, rdLsb) && |resp| == 16 {
      var raw :| Answered(raw, BitsWord(h as bv32, 16, wrLsb), resp, rdLsb) && o == Decoded(raw, 16, rdLsb);
      AnswerFits(raw, h, resp, wrLsb, rdLsb);
      BitsAgreeWithScalars(h, raw, rdLsb);
      AnsweredBytes(raw, Word16(h, wrLsb), resp, rdLsb, 2);
      ScalarAnswers(raw, rdLsb);
      LowOfWide(Number16(raw, rdLsb));
    }
    if BitsOut(o, w, resp, wrLsb, rdLsb) && |resp| == 32 {
      var raw :| Answered(raw, BitsWord(w, 32, wrLsb), resp, rdLsb) && o == Decoded(raw, 32, rdLsb);
      BitsAgreeWithScalars(h, raw, rdLsb);
      AnsweredBytes(raw, BitsWord(w, 32, wrLsb), resp, rdLsb, 4);
      ScalarAnswers(raw, rdLsb);
    }
  }

  function Low16(w: word): bv16 {
    (w & 0xFFFF) as bv16
  }

  lemma LowOfWide(h: bv16)
    ensures h as bv32 < 0x1_0000 && Low16(h as bv32) == h
  {
  }

  lemma FirstWordBits(buf: seq<word>, lsbFirst: bool)
    requires 1 <= |buf|
    ensures Bits(BytesOf([buf[0]]), lsbFirst) == Bits(BytesOf(buf), lsbFirst)[..32]
  {
    hide BytesOf, Bits;
    BytesOfPrefix(buf, 1);
    assert buf[..1] == [buf[0]];
    BitsPrefix(BytesOf(buf), lsbFirst, 4);
  }

  lemma Splice32(resp: seq<bool>, s: seq<bool>)
    requires |resp| <= 32 <= |s|
    ensures (resp + s[|resp|..])[..32] == resp + s[..32][|resp|..]
  {
  }

  // ---------- configuration calls ----------

  const ZERO_CONFIG: Config := Config(0, false, false, false, false)

  /** The register settings of a data mode; an unknown mode is mode 0. */
  function WithMode(cfg: Config, dataMode: bv8): Config {
    if dataMode == SPI_MODE1 then cfg.(idleEdge := false, outEdge := true)
    else if dataMode == SPI_MODE2 then cfg.(idleEdge := true, outEdge := true)
    else if dataMode == SPI_MODE3 then cfg.(idleEdge := true, outEdge := false)
    else cfg.(idleEdge := false, outEdge := false)
  }

  /** Mode by mode: the idle level is high in modes 2 and 3, and the other edge is used in modes 1 and 2. */
  lemma ModeRegisters(cfg: Config, m: bv8)
    ensures WithMode(cfg, m).idleEdge == (m == 2 || m == 3)
    ensures WithMode(cfg, m).outEdge == (m == 1 || m == 2)
    ensures WithMode(cfg, m) == cfg.(idleEdge := m == 2 || m == 3, outEdge := m == 1 || m == 2)
  {
  }

  /** Order 0 is least significant bit first, order 1 most significant bit first. */
  lemma OrderRegisters(cfg: Config, o: bv8)
    ensures WithOrder(cfg, o) == if o == 0 then cfg.(wrBitOrder := true, rdBitOrder := true)
                                 else if o == 1 then cfg.(wrBitOrder := false, rdBitOrder := false) else cfg
  {
  }

  /** The register settings of a bit order; an unknown order changes nothing. */
  function WithOrder(cfg: Config, bitOrder: bv8): Config {
    if bitOrder == SPI_MSBFIRST then cfg.(wrBitOrder := false, rdBitOrder := false)
    else if bitOrder == SPI_LSBFIRST then cfg.(wrBitOrder := true, rdBitOrder := true)
    else cfg
  }

  function DataMode(cfg: Config): bv8 {
    if cfg.idleEdge then (if cfg.outEdge then SPI_MODE2 else SPI_MODE3)
    else if cfg.outEdge then SPI_MODE1 else SPI_MODE0
  }

  function BitOrder(cfg: Config): bv8 {
    if cfg.wrBitOrder || cfg.rdBitOrder then SPI_LSBFIRST else SPI_MSBFIRST
  }
}
