/** Tasks that share a bus: any interleaving of their accesses, under the bus mutex
    (esp32/esp32spi.c, lines 80-82, 477-548, 689-721, 732-781). */
module SpiSessions {
  import opened Wire
  import opened SpiDevice

  /** One access by one task. */
  datatype Event = Event(task: nat, op: Op)

  function Ops(run: seq<Event>): (ops: seq<Op>)
    ensures |ops| == |run|
  {
    seq(|run|, i requires 0 <= i < |run| => run[i].op)
  }

  /** The accesses of one task, in order. */
  function Own(run: seq<Event>, t: nat): seq<Op> {
    if run == [] then []
    else
      var p, e := run[..|run| - 1], run[|run| - 1];
      if e.task == t then Own(p, t) + [e.op] else Own(p, t)
  }

  /** Who holds the mutex. */
  function Holder(run: seq<Event>): Option<nat> {
    if run == [] then None
    else
      var p, e := run[..|run| - 1], run[|run| - 1];
      if e.op.Take? then Some(e.task) else if e.op.Give? then None else Holder(p)
  }

  /** The controller after a run. */
  ghost function Bus(peer: Peer, start: Device, run: seq<Event>): Device {
    Replay(peer, start, Ops(run))
  }

  /** What the system does to an access: the mutex is taken only when free, and reads see the registers. */
  ghost predicate Possible(peer: Peer, start: Device, run: seq<Event>, e: Event) {
    match e.op
    case Take => Holder(run).None?
    case ReadWrOrder(b) => b == Bus(peer, start, run).cfg.wrBitOrder
    case ReadRdOrder(b) => b == Bus(peer, start, run).cfg.rdBitOrder
    case Unload(i, w) =>
      i < FIFO_WORDS && |Bus(peer, start, run).fifo| == FIFO_WORDS && w == Bus(peer, start, run).fifo[i]
    case _ => true
  }

  /** Any interleaving of any tasks. */
  ghost predicate IsInterleaving(peer: Peer, start: Device, run: seq<Event>) {
    run == [] ||
    var p, e := run[..|run| - 1], run[|run| - 1];
    IsInterleaving(peer, start, p) && Possible(peer, start, p, e)
  }

  /** Every task obeys the lock discipline by its own account, as the driver calls ensure. */
  ghost predicate Disciplined(run: seq<Event>) {
    run == [] ||
    var p, e := run[..|run| - 1], run[|run| - 1];
    Disciplined(p) && Next(Summary(Own(p, e.task)), e.op).ok
  }

  ghost predicate IsRun(peer: Peer, start: Device, run: seq<Event>) {
    |start.fifo| == FIFO_WORDS && IsInterleaving(peer, start, run) && Disciplined(run)
  }

  lemma Snoc(peer: Peer, start: Device, p: seq<Event>, e: Event, t: nat)
    ensures Own(p + [e], t) == if e.task == t then Own(p, t) + [e.op] else Own(p, t)
    ensures Summary(Own(p + [e], t)) == if e.task == t then Next(Summary(Own(p, t)), e.op) else Summary(Own(p, t))
    ensures Bus(peer, start, p + [e]) == Exec(peer, Bus(peer, start, p), e.op)
  {
    hide Exec;
    assert (p + [e])[..|p + [e]| - 1] == p;
    assert Ops(p + [e]) == Ops(p) + [e.op];
    LogStep(peer, start, Ops(p), e.op);
    LogStep(peer, start, Own(p, t), e.op);
  }

  lemma SnocRun(peer: Peer, start: Device, run: seq<Event>) returns (p: seq<Event>, e: Event)
    requires IsRun(peer, start, run) && run != []
    ensures run == p + [e] && p == run[..|run| - 1] && IsRun(peer, start, p)
    ensures Possible(peer, start, p, e) && Next(Summary(Own(p, e.task)), e.op).ok
    ensures Holder(run) == if e.op.Take? then Some(e.task) else if e.op.Give? then None else Holder(p)
  {
    hide Next, Summary, Own, Possible;
    p, e := run[..|run| - 1], run[|run| - 1];
  }

  // ---------- mutual exclusion ----------

  /** A task believes it holds the lock exactly when it does, and its discipline is never broken. */
  lemma {:induction false} HolderHolds(peer: Peer, start: Device, run: seq<Event>, t: nat)
    requires IsRun(peer, start, run)
    ensures Summary(Own(run, t)).held <==> Holder(run) == Some(t)
    ensures Summary(Own(run, t)).ok
    decreases |run|
  {
    hide Exec, Bus;
    if run != [] {
      var p, e := SnocRun(peer, start, run);
      Snoc(peer, start, p, e, t);
      HolderHolds(peer, start, p, t);
      HolderHolds(peer, start, p, e.task);
    }
  }

  /** Only the holder touches the controller. */
  lemma OnlyHolderActs(peer: Peer, start: Device, p: seq<Event>, e: Event)
    requires IsRun(peer, start, p + [e])
    ensures if e.op.Take? then Holder(p) == None else Holder(p) == Some(e.task)
  {
    hide Exec, Bus, Own, Summary;
    var p', e' := SnocRun(peer, start, p + [e]);
    assert (p + [e])[..|p + [e]| - 1] == p && p' == p && e' == e;
    HolderHolds(peer, start, p, e.task);
  }

  // ---------- no command mixes two tasks ----------

  /** What a session has set up is what the controller holds. */
  ghost predicate SetUp(d: Device, s: Session) {
    && |d.fifo| == FIFO_WORDS
    && (s.mosi.Some? ==> d.mosiDlen == s.mosi.value)
    && (s.miso.Some? ==> d.misoDlen == s.miso.value)
    && |s.words| <= FIFO_WORDS
    && d.fifo[..|s.words|] == s.words
  }

  lemma SetUpStep(peer: Peer, d: Device, s: Session, op: Op)
    requires SetUp(d, s) && Next(s, op).ok
    ensures SetUp(Exec(peer, d, op), Next(s, op))
  {
    hide Command;
    if op.Fire? {
      assert CanFire(d) ==> |Command(peer, d).fifo| == FIFO_WORDS by { CommandKeepsSize(peer, d); }
    }
  }

  lemma CommandKeepsSize(peer: Peer, d: Device)
    ensures CanFire(d) ==> |Command(peer, d).fifo| == FIFO_WORDS
  {
    hide Overwrite, Response, FifoBits;
  }

  lemma {:induction false} FifoSize(peer: Peer, start: Device, run: seq<Event>)
    requires IsRun(peer, start, run)
    ensures |Bus(peer, start, run).fifo| == FIFO_WORDS
    decreases |run|
  {
    hide Bus, Command, Summary, Own;
    if run == [] {
      EmptyBus(peer, start);
    } else {
      var p, e := SnocRun(peer, start, run);
      Snoc(peer, start, p, e, 0);
      FifoSize(peer, start, p);
      CommandKeepsSize(peer, Bus(peer, start, p));
    }
  }

  lemma EmptyBus(peer: Peer, start: Device)
    ensures Bus(peer, start, []) == start
  {
  }

  /** While a task holds the lock, the controller holds what that task has set up since it took it. */
  lemma {:induction false} HolderHasSetUp(peer: Peer, start: Device, run: seq<Event>, t: nat)
    requires IsRun(peer, start, run) && Holder(run) == Some(t)
    ensures SetUp(Bus(peer, start, run), Summary(Own(run, t)))
    decreases |run|
  {
    hide Bus, Exec, Own, Summary, Next, SetUp;
    var p, e := SnocRun(peer, start, run);
    Snoc(peer, start, p, e, t);
    OnlyHolderActs(peer, start, p, e);
    if e.op.Take? {
      FifoSize(peer, start, p);
      FreshSetUp(peer, Bus(peer, start, p), Summary(Own(p, t)));
    } else {
      HolderHasSetUp(peer, start, p, t);
      SetUpStep(peer, Bus(peer, start, p), Summary(Own(p, t)), e.op);
    }
  }

  lemma FreshSetUp(peer: Peer, d: Device, s: Session)
    requires |d.fifo| == FIFO_WORDS
    ensures SetUp(Exec(peer, d, Take), Next(s, Take))
  {
  }

  /** The bits a command sends are those its own task prepared: the words it loaded and the length it set
      since it took the lock and since its last command.  No other task has a part in them. */
  lemma FiredBitsAreOwn(peer: Peer, start: Device, p: seq<Event>, t: nat)
    requires IsRun(peer, start, p + [Event(t, Fire)])
    ensures var s := Summary(Own(p, t));
            var d := Bus(peer, start, p);
            && Ready(s) && CanFire(d) && d.misoDlen == s.miso.value
            && Bus(peer, start, p + [Event(t, Fire)]).wire
               == d.wire + FifoBits(s.words, d.cfg.wrBitOrder, s.mosi.value + 1)
  {
    hide Bus, Own, Summary, Overwrite, Response, FifoBits;
    var e := Event(t, Fire);
    var p', e' := SnocRun(peer, start, p + [e]);
    assert (p + [e])[..|p + [e]| - 1] == p && p' == p && e' == e;
    OnlyHolderActs(peer, start, p, e);
    HolderHasSetUp(peer, start, p, t);
    Snoc(peer, start, p, e, t);
    PreparedBits(Bus(peer, start, p), Summary(Own(p, t)));
  }

  lemma PreparedBits(d: Device, s: Session)
    requires SetUp(d, s) && Ready(s)
    ensures CanFire(d)
    ensures FifoBits(d.fifo, d.cfg.wrBitOrder, d.mosiDlen + 1) == FifoBits(s.words, d.cfg.wrBitOrder, s.mosi.value + 1)
  {
    hide Bits, BytesOf;
    BytesOfPrefix(d.fifo, |s.words|);
    BitsPrefix(BytesOf(d.fifo), d.cfg.wrBitOrder, 4 * |s.words|);
  }

  // ---------- the wire is a concatenation of sessions ----------

  /** The run cut before every Take. */
  function Sessions(run: seq<Event>): seq<seq<Event>> {
    if run == [] then []
    else
      var before, e := Sessions(run[..|run| - 1]), run[|run| - 1];
      if e.op.Take? || before == [] then before + [[e]]
      else before[..|before| - 1] + [before[|before| - 1] + [e]]
  }

  function Flatten(blocks: seq<seq<Event>>): seq<Event> {
    if blocks == [] then [] else Flatten(blocks[..|blocks| - 1]) + blocks[|blocks| - 1]
  }

  /** One task takes the lock, and does nothing after giving it back. */
  ghost predicate IsSession(block: seq<Event>) {
    && block != []
    && block[0].op.Take?
    && (forall i :: 0 <= i < |block| ==> block[i].task == block[0].task)
    && (forall i :: 0 < i < |block| ==> !block[i].op.Take?)
    && (forall i :: 0 <= i < |block| - 1 ==> !block[i].op.Give?)
  }

  ghost predicate IsClosed(block: seq<Event>) {
    IsSession(block) && block[|block| - 1].op.Give?
  }

  /** The bits a session sends, by its own accesses alone and the bit order it found. */
  datatype Output = Output(session: Session, wrBitOrder: bool, bits: seq<bool>)

  function SendNext(a: Output, op: Op): Output {
    Output(Next(a.session, op),
           if op.SetWrOrder? then op.on else a.wrBitOrder,
           if op.Fire? && Ready(a.session)
           then a.bits + FifoBits(a.session.words, a.wrBitOrder, a.session.mosi.value + 1) else a.bits)
  }

  function SessionOutput(ops: seq<Op>, wrBitOrder: bool): Output {
    if ops == [] then Output(IDLE, wrBitOrder, [])
    else SendNext(SessionOutput(ops[..|ops| - 1], wrBitOrder), ops[|ops| - 1])
  }

  /** The outputs of the sessions, one after the other: each whole, none interleaved with another. */
  function SerialOutput(blocks: seq<seq<Event>>, wrBitOrder: bool): Output {
    if blocks == [] then Output(IDLE, wrBitOrder, [])
    else
      var before := SerialOutput(blocks[..|blocks| - 1], wrBitOrder);
      var last := SessionOutput(Ops(blocks[|blocks| - 1]), before.wrBitOrder);
      last.(bits := before.bits + last.bits)
  }

  lemma SnocSessions(p: seq<Event>, e: Event)
    ensures Sessions(p + [e]) ==
            if e.op.Take? || Sessions(p) == [] then Sessions(p) + [[e]]
            else Sessions(p)[..|Sessions(p)| - 1] + [Sessions(p)[|Sessions(p)| - 1] + [e]]
  {
    assert (p + [e])[..|p + [e]| - 1] == p;
  }

  lemma SnocFlatten(blocks: seq<seq<Event>>, b: seq<Event>)
    ensures Flatten(blocks + [b]) == Flatten(blocks) + b
  {
    assert (blocks + [b])[..|blocks + [b]| - 1] == blocks;
  }

  lemma SnocOutput(blocks: seq<seq<Event>>, b: seq<Event>, wrBitOrder: bool)
    ensures var before := SerialOutput(blocks, wrBitOrder);
            var last := SessionOutput(Ops(b), before.wrBitOrder);
            SerialOutput(blocks + [b], wrBitOrder) == last.(bits := before.bits + last.bits)
  {
    assert (blocks + [b])[..|blocks + [b]| - 1] == blocks;
  }

  lemma SnocSession(b: seq<Event>, e: Event, wrBitOrder: bool)
    ensures SessionOutput(Ops(b + [e]), wrBitOrder) == SendNext(SessionOutput(Ops(b), wrBitOrder), e.op)
  {
    hide SendNext;
    assert Ops(b + [e]) == Ops(b) + [e.op];
    assert Ops(b + [e])[..|Ops(b + [e])| - 1] == Ops(b);
  }

  /** A run is whole sessions, one after the other, and at the end perhaps one that is still open. */
  ghost predicate IsSerial(run: seq<Event>, blocks: seq<seq<Event>>) {
    && Flatten(blocks) == run
    && (forall i :: 0 <= i < |blocks| ==> IsSession(blocks[i]))
    && (forall i :: 0 <= i < |blocks| - 1 ==> IsClosed(blocks[i]))
    && (Holder(run).None? <==> blocks == [] || IsClosed(blocks[|blocks| - 1]))
    && (Holder(run).Some? ==> blocks != [] && blocks[|blocks| - 1][0].task == Holder(run).value)
  }

  lemma OpenSession(e: Event)
    requires e.op.Take?
    ensures IsSession([e]) && !IsClosed([e])
  {
  }

  lemma GrowSession(b: seq<Event>, e: Event)
    requires IsSession(b) && !IsClosed(b) && e.task == b[0].task && !e.op.Take?
    ensures IsSession(b + [e]) && (IsClosed(b + [e]) <==> e.op.Give?) && (b + [e])[0] == b[0]
  {
  }

  lemma SerialTake(p: seq<Event>, e: Event)
    requires IsSerial(p, Sessions(p)) && Holder(p).None? && e.op.Take?
    requires Holder(p + [e]) == Some(e.task)
    ensures IsSerial(p + [e], Sessions(p + [e]))
  {
    hide Sessions, IsSession, IsClosed, Holder;
    SnocSessions(p, e);
    SnocFlatten(Sessions(p), [e]);
    OpenSession(e);
  }

  lemma SerialInside(p: seq<Event>, e: Event)
    requires IsSerial(p, Sessions(p)) && Holder(p) == Some(e.task) && !e.op.Take?
    requires Holder(p + [e]) == if e.op.Give? then None else Some(e.task)
    ensures IsSerial(p + [e], Sessions(p + [e]))
  {
    hide Sessions, IsSession, IsClosed, Holder;
    var bs := Sessions(p);
    var b, before := bs[|bs| - 1], bs[..|bs| - 1];
    assert before + [b] == bs;
    SnocSessions(p, e);
    SnocFlatten(before, b);
    SnocFlatten(before, b + [e]);
    GrowSession(b, e);
  }

  /** Every interleaving of disciplined tasks is serial. */
  lemma {:induction false} RunsAreSerial(peer: Peer, start: Device, run: seq<Event>)
    requires IsRun(peer, start, run)
    ensures IsSerial(run, Sessions(run))
    decreases |run|
  {
    hide Bus, Own, Summary, Sessions, IsSession, IsClosed, Possible, Next, IsSerial;
    if run == [] {
      NoSessions();
    } else {
      var p, e := SnocRun(peer, start, run);
      RunsAreSerial(peer, start, p);
      OnlyHolderActs(peer, start, p, e);
      if e.op.Take? {
        SerialTake(p, e);
      } else {
        SerialInside(p, e);
      }
    }
  }

  lemma NoSessions()
    ensures IsSerial([], Sessions([]))
  {
  }

  /** The state of a run as told by its sessions. */
  ghost predicate OutputAgrees(peer: Peer, start: Device, run: seq<Event>) {
    var out := SerialOutput(Sessions(run), start.cfg.wrBitOrder);
    && Bus(peer, start, run).wire == start.wire + out.bits
    && Bus(peer, start, run).cfg.wrBitOrder == out.wrBitOrder
    && (Holder(run).Some? ==> out.session == Summary(Own(run, Holder(run).value)))
  }

  /** The wire carries the sessions one after the other: each contributes exactly the bits that its own
      accesses produce from the bit order it found, whatever the other tasks did meanwhile. */
  lemma {:induction false} WireIsSerial(peer: Peer, start: Device, run: seq<Event>)
    requires IsRun(peer, start, run)
    ensures OutputAgrees(peer, start, run)
    decreases |run|
  {
    hide Bus, Own, Summary, Sessions, Possible, Next, SerialOutput, OutputAgrees;
    if run == [] {
      NothingSerial(peer, start);
    } else {
      var p, e := SnocRun(peer, start, run);
      WireIsSerial(peer, start, p);
      OnlyHolderActs(peer, start, p, e);
      if e.op.Take? {
        TakeAgrees(peer, start, p, e);
      } else {
        RunsAreSerial(peer, start, p);
        InsideAgrees(peer, start, p, e);
      }
    }
  }

  lemma NothingSerial(peer: Peer, start: Device)
    ensures OutputAgrees(peer, start, [])
  {
  }

  lemma TakeAgrees(peer: Peer, start: Device, p: seq<Event>, e: Event)
    requires IsRun(peer, start, p + [e]) && OutputAgrees(peer, start, p) && e.op.Take?
    ensures OutputAgrees(peer, start, p + [e])
  {
    hide Bus, Own, Summary, Sessions, Possible, SerialOutput;
    var p', e' := SnocRun(peer, start, p + [e]);
    assert p' == p && e' == e by { assert (p + [e])[..|p + [e]| - 1] == p; }
    Snoc(peer, start, p, e, e.task);
    SnocSessions(p, e);
    SnocOutput(Sessions(p), [e], start.cfg.wrBitOrder);
    FirstTake(e, SerialOutput(Sessions(p), start.cfg.wrBitOrder).wrBitOrder);
  }

  lemma FirstTake(e: Event, wrBitOrder: bool)
    requires e.op.Take?
    ensures SessionOutput(Ops([e]), wrBitOrder) == Output(Session(true, None, None, [], true), wrBitOrder, [])
  {
    assert Ops([e]) == Ops([]) + [e.op];
    assert [] + [e] == [e];
    SnocSession([], e, wrBitOrder);
  }

  lemma InsideAgrees(peer: Peer, start: Device, p: seq<Event>, e: Event)
    requires IsRun(peer, start, p + [e]) && OutputAgrees(peer, start, p) && !e.op.Take?
    requires Holder(p) == Some(e.task) && Sessions(p) != []
    ensures OutputAgrees(peer, start, p + [e])
  {
    hide Bus, Own, Summary, Sessions, SerialOutput, SendNext, Next, FifoBits, IsRun, Ready;
    SnocHolder(p, e);
    SerialStep(p, e, start.cfg.wrBitOrder);
    OutputStep(start.wire, SerialOutput(Sessions(p), start.cfg.wrBitOrder), e.op);
    Snoc(peer, start, p, e, e.task);
    WireStep(peer, start, p, e);
  }

  lemma SnocHolder(p: seq<Event>, e: Event)
    ensures Holder(p + [e]) == if e.op.Take? then Some(e.task) else if e.op.Give? then None else Holder(p)
  {
    assert (p + [e])[..|p + [e]| - 1] == p;
  }

  /** What one access adds to an output, behind what the wire carried at the start. */
  lemma OutputStep(wire: seq<bool>, out: Output, op: Op)
    ensures var next := SendNext(out, op);
            && next.session == Next(out.session, op)
            && next.wrBitOrder == (if op.SetWrOrder? then op.on else out.wrBitOrder)
            && wire + next.bits ==
               if op.Fire? && Ready(out.session)
               then wire + out.bits + FifoBits(out.session.words, out.wrBitOrder, out.session.mosi.value + 1)
               else wire + out.bits
  {
    hide Next, FifoBits;
  }

  /** One more access in the last session: what it adds to the serial output. */
  lemma SerialStep(p: seq<Event>, e: Event, wr: bool)
    requires Sessions(p) != [] && !e.op.Take?
    ensures SerialOutput(Sessions(p + [e]), wr) == SendNext(SerialOutput(Sessions(p), wr), e.op)
  {
    hide Sessions, SerialOutput, SessionOutput, Next, FifoBits, Ready;
    var bs := Sessions(p);
    var b, before := bs[|bs| - 1], bs[..|bs| - 1];
    assert before + [b] == bs;
    SnocSessions(p, e);
    SnocOutput(before, b, wr);
    SnocOutput(before, b + [e], wr);
    SnocSession(b, e, SerialOutput(before, wr).wrBitOrder);
  }

  /** One access of the holder: its effect on the wire and on the bit order. */
  lemma WireStep(peer: Peer, start: Device, p: seq<Event>, e: Event)
    requires IsRun(peer, start, p + [e]) && Holder(p) == Some(e.task) && !e.op.Take?
    ensures var d, d', s := Bus(peer, start, p), Bus(peer, start, p + [e]), Summary(Own(p, e.task));
            && d'.cfg.wrBitOrder == (if e.op.SetWrOrder? then e.op.on else d.cfg.wrBitOrder)
            && (e.op.Fire? ==> Ready(s))
            && d'.wire == if e.op.Fire? then d.wire + FifoBits(s.words, d.cfg.wrBitOrder, s.mosi.value + 1) else d.wire
  {
    hide Bus, Own, Summary, FifoBits, Ready;
    Snoc(peer, start, p, e, e.task);
    if e.op.Fire? {
      assert e == Event(e.task, Fire);
      FiredBitsAreOwn(peer, start, p, e.task);
    }
  }

  // ---------- a session on a shared bus is a session alone ----------

  lemma {:induction false} ReplayJoins(peer: Peer, d: Device, a: seq<Op>, b: seq<Op>)
    ensures Replay(peer, d, a + b) == Replay(peer, Replay(peer, d, a), b)
    decreases |b|
  {
    hide Exec;
    if b == [] {
      assert a + b == a;
    } else {
      assert (a + b)[..|a + b| - 1] == a + b[..|b| - 1];
      ReplayJoins(peer, d, a, b[..|b| - 1]);
    }
  }

  lemma BusJoins(peer: Peer, start: Device, a: seq<Event>, b: seq<Event>)
    ensures Bus(peer, start, a + b) == Replay(peer, Bus(peer, start, a), Ops(b))
  {
    hide Replay;
    assert Ops(a + b) == Ops(a) + Ops(b);
    ReplayJoins(peer, start, Ops(a), Ops(b));
  }

  lemma {:induction false} PrefixIsInterleaving(peer: Peer, start: Device, a: seq<Event>, b: seq<Event>)
    requires IsInterleaving(peer, start, a + b)
    ensures IsInterleaving(peer, start, a)
    ensures b != [] ==> Possible(peer, start, a, b[0])
    decreases |b|
  {
    hide Possible;
    if b == [] {
      assert a + b == a;
    } else {
      assert (a + b)[..|a + b| - 1] == a + b[..|b| - 1];
      PrefixIsInterleaving(peer, start, a, b[..|b| - 1]);
      if |b| == 1 {
        assert a + b[..0] == a;
      }
    }
  }

  lemma {:induction false} FlattenJoins(blocks: seq<seq<Event>>, i: nat)
    requires i <= |blocks|
    ensures Flatten(blocks) == Flatten(blocks[..i]) + Flatten(blocks[i..])
    decreases |blocks| - i
  {
    var n := |blocks|;
    if i == n {
      assert blocks[..i] == blocks && Flatten(blocks[i..]) == [];
    } else {
      FlattenJoins(blocks[..n - 1], i);
      assert blocks[..n - 1][..i] == blocks[..i] && blocks[..n - 1][i..] == blocks[i..][..n - 1 - i];
    }
  }

  /** In any run, what a session does to the controller, and what it reads there, is what its own accesses do
      and read when it runs alone from the state it found.  So the contracts of the driver calls, which say
      what a call does from any state, hold call by call on a shared bus: received data and the bit orders
      read included. */
  lemma SessionRunsAlone(peer: Peer, start: Device, run: seq<Event>, i: nat)
    requires IsRun(peer, start, run) && i < |Sessions(run)|
    ensures var bs := Sessions(run);
            var found := Bus(peer, start, Flatten(bs[..i]));
            && Bus(peer, start, Flatten(bs[..i + 1])) == Replay(peer, found, Ops(bs[i]))
            && forall k :: 0 <= k < |bs[i]| ==> ReadsAlone(Replay(peer, found, Ops(bs[i][..k])), bs[i][k].op)
  {
    hide Bus, Replay, Sessions, Disciplined, Possible, IsInterleaving, IsSession, IsClosed;
    RunsAreSerial(peer, start, run);
    var bs := Sessions(run);
    var before, b := Flatten(bs[..i]), bs[i];
    assert bs[..i + 1] == bs[..i] + [b];
    SnocFlatten(bs[..i], b);
    BusJoins(peer, start, before, b);
    FlattenJoins(bs, i + 1);
    var rest := Flatten(bs[i + 1..]);
    assert run == before + b + rest;
    forall k | 0 <= k < |b|
      ensures ReadsAlone(Replay(peer, Bus(peer, start, before), Ops(b[..k])), b[k].op)
    {
      assert run == (before + b[..k]) + (b[k..] + rest);
      PrefixIsInterleaving(peer, start, before + b[..k], b[k..] + rest);
      BusJoins(peer, start, before, b[..k]);
      ReadsTheBus(peer, start, before + b[..k], b[k]);
    }
  }

  /** What is read is what is there: a FIFO word, or the bit order in force. */
  predicate ReadsAlone(d: Device, op: Op) {
    match op
    case Unload(i, w) => i < |d.fifo| && w == d.fifo[i]
    case ReadWrOrder(b) => b == d.cfg.wrBitOrder
    case ReadRdOrder(b) => b == d.cfg.rdBitOrder
    case _ => true
  }

  lemma ReadsTheBus(peer: Peer, start: Device, p: seq<Event>, e: Event)
    requires Possible(peer, start, p, e)
    ensures ReadsAlone(Bus(peer, start, p), e.op)
  {
    hide Bus;
  }

  // ---------- from driver calls to runs ----------

  lemma BreachStays(s: Session, op: Op)
    ensures Next(s, op).ok ==> s.ok
  {
  }

  /** It is enough that every task's log ends unbroken. */
  lemma {:induction false} LogsAreDisciplined(run: seq<Event>)
    requires forall t :: Summary(Own(run, t)).ok
    ensures Disciplined(run)
    decreases |run|
  {
    hide Next, Summary;
    if run != [] {
      var p, e := run[..|run| - 1], run[|run| - 1];
      assert run == p + [e];
      forall t
        ensures Summary(Own(p, t)).ok
      {
        assert Summary(Own(run, t)).ok;
        if e.task == t {
          SummaryStep(Own(p, t), e.op);
          BreachStays(Summary(Own(p, t)), e.op);
        }
      }
      LogsAreDisciplined(p);
      assert Summary(Own(run, e.task)).ok;
      SummaryStep(Own(p, e.task), e.op);
    }
  }

  function Joined(calls: seq<seq<Op>>): seq<Op> {
    if calls == [] then [] else Joined(calls[..|calls| - 1]) + calls[|calls| - 1]
  }

  /** A task that makes driver calls, each from whatever state it finds, and is perhaps in the middle of one:
      every call is one that Spi.Balanced promises. */
  ghost predicate MakesCalls(ops: seq<Op>) {
    exists calls: seq<seq<Op>>, current: seq<Op>, part: nat :: IsCut(ops, calls, current, part)
  }

  /** Whole calls, and the first part of one more. */
  ghost predicate IsCut(ops: seq<Op>, calls: seq<seq<Op>>, current: seq<Op>, part: nat) {
    && (forall c :: c in calls ==> IsCall(c))
    && part <= |current|
    && (part > 0 ==> IsCall(current))
    && ops == Joined(calls) + current[..part]
  }

  /** A Take forgets what came before. */
  lemma {:induction false} TakeForgets(a: seq<Op>, b: seq<Op>)
    requires Summary(a).ok && !Summary(a).held && b != [] && b[0].Take?
    ensures Summary(a + b) == Summary(b)
    decreases |b|
  {
    var c, op := b[..|b| - 1], b[|b| - 1];
    assert a + b == (a + c) + [op] && b == c + [op];
    SummaryStep(a + c, op);
    SummaryStep(c, op);
    if c == [] {
      assert a + c == a;
    } else {
      TakeForgets(a, c);
    }
  }

  lemma {:induction false} CallsAreIdle(calls: seq<seq<Op>>)
    requires forall c :: c in calls ==> IsCall(c)
    ensures Summary(Joined(calls)).ok && !Summary(Joined(calls)).held
    decreases |calls|
  {
    hide Next, Summary;
    if calls == [] {
      NothingLogged();
    } else {
      var c := calls[|calls| - 1];
      assert IsCall(c);
      CallsAreIdle(calls[..|calls| - 1]);
      TakeForgets(Joined(calls[..|calls| - 1]), c);
    }
  }

  lemma NothingLogged()
    ensures Summary([]) == IDLE
  {
  }

  lemma {:induction false} PrefixIsUnbroken(ops: seq<Op>, k: nat)
    requires k <= |ops| && Summary(ops).ok
    ensures Summary(ops[..k]).ok
    decreases |ops| - k
  {
    hide Next;
    if k == |ops| {
      assert ops[..k] == ops;
    } else {
      PrefixIsUnbroken(ops, k + 1);
      assert ops[..k + 1] == ops[..k] + [ops[k]];
      SummaryStep(ops[..k], ops[k]);
      BreachStays(Summary(ops[..k]), ops[k]);
    }
  }

  /** Such a task's log is unbroken, whatever the bus did between its calls. */
  lemma CallsAreUnbroken(ops: seq<Op>)
    requires MakesCalls(ops)
    ensures Summary(ops).ok
  {
    hide Summary, Joined;
    var calls, current, part: nat :| IsCut(ops, calls, current, part);
    CallsAreIdle(calls);
    if part == 0 {
      assert ops == Joined(calls);
    } else {
      PrefixIsUnbroken(current, part);
      TakeForgets(Joined(calls), current[..part]);
    }
  }

  /** Tasks that make driver calls, in any interleaving, cut anywhere: their sessions never interleave, and
      the wire carries them one after the other. */
  lemma DriverCallsAreSerializable(peer: Peer, start: Device, run: seq<Event>)
    requires |start.fifo| == FIFO_WORDS && IsInterleaving(peer, start, run)
    requires forall t :: MakesCalls(Own(run, t))
    ensures IsRun(peer, start, run) && IsSerial(run, Sessions(run))
    ensures Bus(peer, start, run).wire == start.wire + SerialOutput(Sessions(run), start.cfg.wrBitOrder).bits
  {
    hide Bus, Own, Summary, Sessions, SerialOutput, IsSerial, IsInterleaving, MakesCalls;
    forall t
      ensures Summary(Own(run, t)).ok
    {
      CallsAreUnbroken(Own(run, t));
    }
    LogsAreDisciplined(run);
    RunsAreSerial(peer, start, run);
    WireIsSerial(peer, start, run);
  }
}
