/** The Word and Long calls on a shared bus.  They read the bit order before they take the lock, and the
    transfers read it again after they give it back (esp32/esp32spi.c, lines 570-646). */
module SpiScalarCalls {
  import opened Wire
  import opened SpiWords
  import opened SpiDevice
  import opened SpiOrders
  import opened SpiSessions

  // ---------- reads of the order registers, taken out ----------

  function BareRun(run: seq<Event>): seq<Event> {
    if run == [] then []
    else
      var p, e := run[..|run| - 1], run[|run| - 1];
      if IsOrderRead(e.op) then BareRun(p) else BareRun(p) + [e]
  }

  /** Any tasks that make driver calls, the Word and Long calls among them: but for the reads of the order
      registers, each task's accesses are those of whole locked calls and perhaps a part of one. */
  ghost predicate IsLooseRun(peer: Peer, start: Device, run: seq<Event>) {
    && |start.fifo| == FIFO_WORDS
    && IsInterleaving(peer, start, run)
    && forall t :: MakesCalls(Bare(Own(run, t)))
  }

  lemma SnocBare(p: seq<Event>, e: Event)
    ensures BareRun(p + [e]) == if IsOrderRead(e.op) then BareRun(p) else BareRun(p) + [e]
  {
    assert (p + [e])[..|p + [e]| - 1] == p;
  }

  lemma {:induction false} BareJoins(a: seq<Event>, b: seq<Event>)
    ensures BareRun(a + b) == BareRun(a) + BareRun(b)
    decreases |b|
  {
    if b == [] {
      assert a + b == a;
    } else {
      var c, e := b[..|b| - 1], b[|b| - 1];
      assert a + b == (a + c) + [e] && b == c + [e];
      SnocBare(a + c, e);
      SnocBare(c, e);
      BareJoins(a, c);
    }
  }

  /** The reads change nothing: without them the run is an interleaving that leaves the same bus. */
  lemma {:induction false} BareIsSame(peer: Peer, start: Device, run: seq<Event>)
    requires IsInterleaving(peer, start, run)
    ensures IsInterleaving(peer, start, BareRun(run))
    ensures Holder(BareRun(run)) == Holder(run) && Bus(peer, start, BareRun(run)) == Bus(peer, start, run)
    decreases |run|
  {
    hide Bus, Possible, IsOrderRead, Holder;
    if run != [] {
      var p, e := run[..|run| - 1], run[|run| - 1];
      assert run == p + [e];
      BareIsSame(peer, start, p);
      SnocBare(p, e);
      SnocHolder(p, e);
      if IsOrderRead(e.op) {
        ReadKeeps(peer, start, p, e);
      } else {
        SameEffect(peer, start, p, BareRun(p), e);
      }
    }
  }

  lemma ReadKeeps(peer: Peer, start: Device, p: seq<Event>, e: Event)
    requires IsOrderRead(e.op)
    ensures Bus(peer, start, p + [e]) == Bus(peer, start, p) && Holder(p + [e]) == Holder(p)
  {
    hide Bus, Exec;
    Snoc(peer, start, p, e, 0);
    KeepsBus(peer, Bus(peer, start, p), e.op);
    SnocHolder(p, e);
  }

  lemma SamePossible(peer: Peer, start: Device, a: seq<Event>, b: seq<Event>, e: Event)
    requires Holder(a) == Holder(b) && Bus(peer, start, a) == Bus(peer, start, b) && Possible(peer, start, a, e)
    ensures Possible(peer, start, b, e)
  {
    hide Bus, Holder;
  }

  /** What an access may do and does depends only on the holder and the controller. */
  lemma SameEffect(peer: Peer, start: Device, a: seq<Event>, b: seq<Event>, e: Event)
    requires Holder(a) == Holder(b) && Bus(peer, start, a) == Bus(peer, start, b)
    requires IsInterleaving(peer, start, b) && Possible(peer, start, a, e)
    ensures IsInterleaving(peer, start, b + [e]) && Holder(a + [e]) == Holder(b + [e])
    ensures Bus(peer, start, a + [e]) == Bus(peer, start, b + [e])
  {
    hide Bus, Exec, Holder, Possible, Own, Summary;
    SamePossible(peer, start, a, b, e);
    Snoc(peer, start, a, e, 0);
    Snoc(peer, start, b, e, 0);
    SnocHolder(a, e);
    SnocHolder(b, e);
    assert (b + [e])[..|b + [e]| - 1] == b;
  }

  lemma {:induction false} BareOwn(run: seq<Event>, t: nat)
    ensures Own(BareRun(run), t) == Bare(Own(run, t))
    decreases |run|
  {
    if run != [] {
      var p, e := run[..|run| - 1], run[|run| - 1];
      BareOwn(p, t);
      OwnStep(BareRun(p), e, t);
      if e.task == t {
        BareStep(Own(p, t), e.op);
      }
    }
  }

  lemma OwnStep(p: seq<Event>, e: Event, t: nat)
    ensures Own(p + [e], t) == if e.task == t then Own(p, t) + [e.op] else Own(p, t)
  {
    assert (p + [e])[..|p + [e]| - 1] == p;
  }

  lemma KeepsBus(peer: Peer, d: Device, op: Op)
    requires op.Take? || op.Give? || IsOrderRead(op)
    ensures Exec(peer, d, op) == d
  {
  }

  /** Whatever calls are made, the wire is serial: the locked parts of the calls, one after the other. */
  lemma LooseRunIsSerial(peer: Peer, start: Device, run: seq<Event>)
    requires IsLooseRun(peer, start, run)
    ensures IsRun(peer, start, BareRun(run)) && IsSerial(BareRun(run), Sessions(BareRun(run)))
    ensures Bus(peer, start, run).wire == start.wire + SerialOutput(Sessions(BareRun(run)), start.cfg.wrBitOrder).bits
  {
    hide Bus, BareRun, Own, Bare, MakesCalls, IsSerial, IsRun, SerialOutput, Sessions;
    BareIsSame(peer, start, run);
    forall t
      ensures MakesCalls(Own(BareRun(run), t))
    {
      assert MakesCalls(Bare(Own(run, t)));
      BareOwn(run, t);
    }
    DriverCallsAreSerializable(peer, start, BareRun(run));
  }

  // ---------- the locked part of a scalar call ----------

  /** One task's accesses as events. */
  function ByTask(t: nat, ops: seq<Op>): (events: seq<Event>)
    ensures |events| == |ops|
  {
    seq(|ops|, i requires 0 <= i < |ops| => Event(t, ops[i]))
  }

  lemma {:induction false} OwnJoins(a: seq<Event>, b: seq<Event>, t: nat)
    ensures Own(a + b, t) == Own(a, t) + Own(b, t)
    decreases |b|
  {
    if b == [] {
      assert a + b == a;
    } else {
      var c, e := b[..|b| - 1], b[|b| - 1];
      assert a + b == (a + c) + [e] && b == c + [e];
      OwnStep(a + c, e, t);
      OwnStep(c, e, t);
      OwnJoins(a, c, t);
    }
  }

  lemma PrefixIsRun(peer: Peer, start: Device, a: seq<Event>, e: Event)
    requires IsRun(peer, start, a + [e])
    ensures IsRun(peer, start, a)
  {
    hide Possible, Next, Own, Summary;
    assert (a + [e])[..|a + [e]| - 1] == a;
  }

  /** Until it gives the lock back, only the holder acts. */
  lemma {:induction false} HolderActsAlone(peer: Peer, start: Device, p: seq<Event>, u: seq<Event>, t: nat)
    requires IsRun(peer, start, p + u) && Holder(p) == Some(t) && Give !in Own(u, t)
    ensures u == ByTask(t, Own(u, t)) && Holder(p + u) == Some(t)
    decreases |u|
  {
    hide IsRun;
    if u == [] {
      assert p + u == p;
    } else {
      var v, e := u[..|u| - 1], u[|u| - 1];
      assert u == v + [e] && p + u == (p + v) + [e];
      PrefixIsRun(peer, start, p + v, e);
      OwnStep(v, e, t);
      HolderActsAlone(peer, start, p, v, t);
      OnlyHolderActs(peer, start, p + v, e);
      assert e.op in Own(u, t);
      assert (p + v + [e])[..|p + v + [e]| - 1] == p + v;
    }
  }

  lemma Replay4(peer: Peer, d: Device, a: Op, b: Op, c: Op, e: Op)
    ensures Replay(peer, d, [a, b, c, e]) == Exec(peer, Exec(peer, Exec(peer, Exec(peer, d, a), b), c), e)
  {
    hide Exec;
    assert [a] == [] + [a] && [a, b] == [a] + [b] && [a, b, c] == [a, b] + [c] && [a, b, c, e] == [a, b, c] + [e];
    LogStep(peer, d, [], a);
    LogStep(peer, d, [a], b);
    LogStep(peer, d, [a, b], c);
    LogStep(peer, d, [a, b, c], e);
  }

  /** The command of a scalar call, from any state. */
  lemma SetupEffect(peer: Peer, d: Device, w: word, n: nat, miso: nat)
    requires |d.fifo| == FIFO_WORDS && 1 <= n <= 4 && miso < 8 * n
    ensures var after := Replay(peer, d, [SetMosiDlen(8 * n - 1), SetMisoDlen(miso), Load(0, w), Fire]);
            && after.wire == d.wire + Bits(Leading([w], n), d.cfg.wrBitOrder)
            && after.cfg == d.cfg && |after.fifo| == FIFO_WORDS && |after.wire| == |d.wire| + 8 * n
            && (miso == 8 * n - 1 ==>
                  Leading([after.fifo[0]], n) == Received(peer, after.wire, |d.wire|, n, d.cfg.rdBitOrder))
  {
    hide FifoBits, Replay, Leading, Answered, Bits, Unbits;
    var a, b, c := SetMosiDlen(8 * n - 1), SetMisoDlen(miso), Load(0, w);
    Replay4(peer, d, a, b, c, Fire);
    var ready := d.(mosiDlen := 8 * n - 1, misoDlen := miso, fifo := d.fifo[0 := w]);
    assert Exec(peer, Exec(peer, Exec(peer, d, a), b), c) == ready;
    OneWordCommand(peer, ready, w, 8 * n, miso + 1);
    WholeBytesOut(w, d.cfg.wrBitOrder, n);
    var after := Command(peer, ready);
    if miso == 8 * n - 1 {
      AnsweredBytes(after.fifo[0], w, Response(peer, after.wire, |d.wire|, 8 * n), d.cfg.rdBitOrder, n);
    }
  }

  /** A run that ends with a whole locked part: from a Take of t to its Give. */
  ghost predicate EndsInCall(run: seq<Event>, p: seq<Event>, tail: seq<Event>, t: nat, ops: seq<Op>) {
    && run == p + [Event(t, Take)] + tail
    && tail != [] && tail[|tail| - 1] == Event(t, Give)
    && Bare(Own(tail, t)) == ops + [Give]
  }

  /** The run without the order reads, and what is left of the locked part. */
  lemma CallShape(run: seq<Event>, p: seq<Event>, tail: seq<Event>, t: nat, ops: seq<Op>)
    requires EndsInCall(run, p, tail, t, ops)
    ensures tail != []
    ensures var u := BareRun(tail[..|tail| - 1]);
            && BareRun(run) == BareRun(p) + [Event(t, Take)] + u + [Event(t, Give)]
            && Own(u, t) == ops
  {
    hide Own, Bare;
    var take, give, v := Event(t, Take), Event(t, Give), tail[..|tail| - 1];
    assert tail == v + [give];
    OwnStep(v, give, t);
    BareStep(Own(v, t), Give);
    SameButLast(Bare(Own(v, t)), ops, Give);
    BareOwn(v, t);
    BareJoins(p + [take], tail);
    SnocBare(p, take);
    SnocBare(v, give);
  }

  /** Whatever the other tasks do meanwhile, the bus only sees the accesses of t. */
  lemma CallIsUndisturbed(peer: Peer, start: Device, run: seq<Event>, p: seq<Event>, tail: seq<Event>, t: nat,
                          ops: seq<Op>)
    returns (bare: seq<Event>)
    requires IsLooseRun(peer, start, run) && EndsInCall(run, p, tail, t, ops) && Give !in ops
    ensures IsInterleaving(peer, start, bare + ByTask(t, ops))
    ensures Bus(peer, start, bare) == Bus(peer, start, p) && |Bus(peer, start, p).fifo| == FIFO_WORDS
    ensures Bus(peer, start, run) == Replay(peer, Bus(peer, start, p), ops)
  {
    hide Bus, Replay, IsRun, IsSerial, SerialOutput, Sessions, Possible, IsLooseRun, Own, BareRun, EndsInCall, Holder;
    CallShape(run, p, tail, t, ops);
    var take, give, u := Event(t, Take), Event(t, Give), BareRun(tail[..|tail| - 1]);
    LooseRunIsSerial(peer, start, run);
    SameBus(peer, start, run, p, tail, t, ops);
    bare := BareRun(p) + [take];
    PrefixIsRun(peer, start, bare + u, give);
    TakeHolds(BareRun(p), t);
    HolderActsAlone(peer, start, bare, u, t);
    RunIsInterleaving(peer, start, bare + u);
    BusJoins(peer, start, bare, u);
    OpsByTask(t, ops);
    LastKeeps(peer, start, bare + u, give);
    LastKeeps(peer, start, BareRun(p), take);
    BareFifoSize(peer, start, bare, u);
  }

  lemma SameBus(peer: Peer, start: Device, run: seq<Event>, p: seq<Event>, tail: seq<Event>, t: nat, ops: seq<Op>)
    requires IsLooseRun(peer, start, run) && EndsInCall(run, p, tail, t, ops)
    ensures Bus(peer, start, BareRun(run)) == Bus(peer, start, run)
    ensures Bus(peer, start, BareRun(p)) == Bus(peer, start, p)
  {
    hide Bus, BareRun, Possible, IsLooseRun, IsInterleaving, Own, Bare, Holder;
    LooseIsInterleaving(peer, start, run);
    BareIsSame(peer, start, run);
    assert run == p + ([Event(t, Take)] + tail);
    PrefixIsInterleaving(peer, start, p, [Event(t, Take)] + tail);
    BareIsSame(peer, start, p);
  }

  lemma OpsByTask(t: nat, ops: seq<Op>)
    ensures Ops(ByTask(t, ops)) == ops
  {
  }

  lemma SameButLast(a: seq<Op>, b: seq<Op>, op: Op)
    requires a + [op] == b + [op]
    ensures a == b
  {
    assert a == (a + [op])[..|a + [op]| - 1] && b == (b + [op])[..|b + [op]| - 1];
  }

  lemma LooseIsInterleaving(peer: Peer, start: Device, run: seq<Event>)
    requires IsLooseRun(peer, start, run)
    ensures IsInterleaving(peer, start, run)
  {
  }

  lemma RunIsInterleaving(peer: Peer, start: Device, run: seq<Event>)
    requires IsRun(peer, start, run)
    ensures IsInterleaving(peer, start, run)
  {
  }

  lemma TakeHolds(p: seq<Event>, t: nat)
    ensures Holder(p + [Event(t, Take)]) == Some(t)
  {
  }

  lemma LastKeeps(peer: Peer, start: Device, p: seq<Event>, e: Event)
    requires e.op.Take? || e.op.Give?
    ensures Bus(peer, start, p + [e]) == Bus(peer, start, p)
  {
    hide Bus, Exec;
    Snoc(peer, start, p, e, 0);
    KeepsBus(peer, Bus(peer, start, p), e.op);
  }

  lemma {:induction false} BareFifoSize(peer: Peer, start: Device, a: seq<Event>, b: seq<Event>)
    requires IsRun(peer, start, a + b)
    ensures |Bus(peer, start, a).fifo| == FIFO_WORDS
    decreases |b|
  {
    hide Bus, IsRun;
    if b == [] {
      assert a + b == a;
      FifoSize(peer, start, a);
    } else {
      assert a + b == (a + b[..|b| - 1]) + [b[|b| - 1]];
      PrefixIsRun(peer, start, a + b[..|b| - 1], b[|b| - 1]);
      BareFifoSize(peer, start, a, b[..|b| - 1]);
    }
  }

  // ---------- what a call sends and reads, in any run ----------

  /** A Word or Long write sends the bytes it arranged, in the bit order it finds when it has the lock. */
  lemma WriteCallSends(peer: Peer, start: Device, run: seq<Event>, p: seq<Event>, tail: seq<Event>, t: nat,
                       w: word, n: nat)
    requires IsLooseRun(peer, start, run) && 1 <= n <= 4 && EndsInCall(run, p, tail, t, SendOps(w, n))
    ensures Bus(peer, start, run).wire
         == Bus(peer, start, p).wire + Bits(Leading([w], n), Bus(peer, start, p).cfg.wrBitOrder)
  {
    hide Bus, Replay, IsLooseRun, EndsInCall, Bits, Leading;
    var bare := CallIsUndisturbed(peer, start, run, p, tail, t, SendOps(w, n));
    SetupEffect(peer, Bus(peer, start, p), w, n, 0);
  }

  /** A transfer does the same, and reads the answer as received in the order it finds. */
  lemma TransferCallExchanges(peer: Peer, start: Device, run: seq<Event>, p: seq<Event>, tail: seq<Event>, t: nat,
                              w: word, n: nat, raw: word)
    requires IsLooseRun(peer, start, run) && 1 <= n <= 4 && EndsInCall(run, p, tail, t, ExchangeOps(w, n, raw))
    ensures var d, d' := Bus(peer, start, p), Bus(peer, start, run);
            && d'.wire == d.wire + Bits(Leading([w], n), d.cfg.wrBitOrder) && |d'.wire| == |d.wire| + 8 * n
            && Leading([raw], n) == Received(peer, d'.wire, |d.wire|, n, d.cfg.rdBitOrder)
  {
    hide Bus, Replay, IsLooseRun, EndsInCall, Bits, Leading, Received, Exec, IsInterleaving, Possible;
    var ops := ExchangeOps(w, n, raw);
    var setup, unload := ops[..4], Unload(0, raw);
    assert setup == [SetMosiDlen(8 * n - 1), SetMisoDlen(8 * n - 1), Load(0, w), Fire];
    assert ops == setup + [unload];
    var bare := CallIsUndisturbed(peer, start, run, p, tail, t, ops);
    var d := Bus(peer, start, p);
    SetupEffect(peer, d, w, n, 8 * n - 1);
    LogStep(peer, d, setup, unload);
    UnloadKeeps(peer, Replay(peer, d, setup), unload);
    assert bare + ByTask(t, ops) == (bare + ByTask(t, setup)) + [Event(t, unload)];
    PrefixIsInterleaving(peer, start, bare + ByTask(t, setup), [Event(t, unload)]);
    BusJoins(peer, start, bare, ByTask(t, setup));
    OpsByTask(t, setup);
    ReadsTheBus(peer, start, bare + ByTask(t, setup), Event(t, unload));
  }

  lemma UnloadKeeps(peer: Peer, d: Device, op: Op)
    requires op.Unload?
    ensures Exec(peer, d, op) == d
  {
  }

  // ---------- when such a call is serial ----------

  /** Run whole where the order is o, a call with the n-byte number bs sends this. */
  function SentWhole(bs: seq<byte>, o: bool): seq<bool> {
    Bits(Ordered(bs, o), o)
  }

  /** In any run, spiWriteWord and spiWriteLong send what the call sends when it runs whole in some order, if
      and only if the order they read is the order in force when they took the lock, or the bytes of the
      number read the same backwards, or every byte does. */
  lemma WriteCallIsSerialExactly(peer: Peer, start: Device, run: seq<Event>, p: seq<Event>, tail: seq<Event>, t: nat,
                                 w: word, bs: seq<byte>, seen: bool)
    requires 1 <= |bs| <= 4 && Leading([w], |bs|) == Ordered(bs, seen)
    requires IsLooseRun(peer, start, run) && EndsInCall(run, p, tail, t, SendOps(w, |bs|))
    ensures var d, found := Bus(peer, start, p), Bus(peer, start, p).cfg.wrBitOrder;
            && Bus(peer, start, run).wire == d.wire + Bits(Ordered(bs, seen), found)
            && ((exists o :: Bus(peer, start, run).wire == d.wire + SentWhole(bs, o))
                <==> seen == found || bs == Rev(bs) || forall b :: b in bs ==> Palindrome(b))
  {
    hide Bus, IsLooseRun, EndsInCall, Bits, Leading, Ordered, Palindrome, Rev, Mirrored;
    WriteCallSends(peer, start, run, p, tail, t, w, |bs|);
    var wire, found := Bus(peer, start, p).wire, Bus(peer, start, p).cfg.wrBitOrder;
    SerialInSomeOrder(wire, bs, seen, found);
  }

  lemma SerialInSomeOrder(wire: seq<bool>, bs: seq<byte>, seen: bool, found: bool)
    ensures (exists o :: wire + Bits(Ordered(bs, seen), found) == wire + SentWhole(bs, o))
       <==> seen == found || bs == Rev(bs) || forall b :: b in bs ==> Palindrome(b)
  {
    hide Bits, Ordered, Palindrome, Rev, Mirrored, SentWhole;
    forall o
      ensures wire + Bits(Ordered(bs, seen), found) == wire + SentWhole(bs, o) <==> Harmless(bs, seen, found, o)
    {
      SentInOrder(wire, bs, seen, found, o);
    }
    if seen == found || bs == Rev(bs) {
      assert Harmless(bs, seen, found, found);
    } else if forall b :: b in bs ==> Palindrome(b) {
      assert Harmless(bs, seen, found, seen);
    } else {
      assert !Harmless(bs, seen, found, found) && !Harmless(bs, seen, found, !found);
    }
  }

  lemma SentInOrder(wire: seq<bool>, bs: seq<byte>, seen: bool, found: bool, o: bool)
    ensures wire + Bits(Ordered(bs, seen), found) == wire + SentWhole(bs, o) <==> Harmless(bs, seen, found, o)
  {
    hide Bits, Ordered, Harmless;
    SentAsExactly(bs, seen, found, o);
    SamePrefix(wire, Bits(Ordered(bs, seen), found), SentWhole(bs, o));
  }

  lemma SamePrefix(w: seq<bool>, a: seq<bool>, b: seq<bool>)
    ensures w + a == w + b <==> a == b
  {
    if w + a == w + b {
      assert a == (w + a)[|w|..] && b == (w + b)[|w|..];
    }
  }

  /** From d to d' a transfer sent bs, and returned v, as when it runs whole in order o. */
  ghost predicate AsWhole(peer: Peer, d: Device, d': Device, bs: seq<byte>, v: seq<byte>, o: bool)
    requires |d'.wire| == |d.wire| + 8 * |bs|
  {
    d'.wire == d.wire + SentWhole(bs, o) && Ordered(v, o) == Received(peer, d'.wire, |d.wire|, |bs|, o)
  }

  /** Both halves of a transfer are harmless for order o: the number sent, arranged in the order seen, and the
      bytes answered, decoded in the order after; found are the orders in force in between. */
  ghost predicate BothHarmless(bs: seq<byte>, seen: bool, answer: seq<byte>, after: bool, found: Config, o: bool) {
    Harmless(bs, seen, found.wrBitOrder, o) && Harmless(answer, after, found.rdBitOrder, o)
  }

  lemma WholeIsHarmless(peer: Peer, d: Device, d': Device, bs: seq<byte>, seen: bool, v: seq<byte>, after: bool,
                        o: bool)
    requires d'.wire == d.wire + Bits(Ordered(bs, seen), d.cfg.wrBitOrder) && |d'.wire| == |d.wire| + 8 * |bs|
    requires |v| == |bs| && Ordered(v, after) == Received(peer, d'.wire, |d.wire|, |bs|, d.cfg.rdBitOrder)
    ensures AsWhole(peer, d, d', bs, v, o)
       <==> BothHarmless(bs, seen, Received(peer, d'.wire, |d.wire|, |bs|, d.cfg.rdBitOrder), after, d.cfg, o)
  {
    hide Bits, Ordered, Harmless, Response, Unbits;
    SentAsExactly(bs, seen, d.cfg.wrBitOrder, o);
    SamePrefix(d.wire, Bits(Ordered(bs, seen), d.cfg.wrBitOrder), SentWhole(bs, o));
    AnsweredAsExactly(v, Response(peer, d'.wire, |d.wire|, 8 * |bs|), after, d.cfg.rdBitOrder, o);
  }

  /** spiTransferWord and spiTransferLong also decode the answer, v, in an order read after the unlock.  The
      call is what it is when it runs whole in order o if and only if both halves are harmless for o; and so it
      is serial at all if and only if they are for some order. */
  lemma TransferCallIsSerialExactly(peer: Peer, start: Device, run: seq<Event>, p: seq<Event>, tail: seq<Event>, t: nat,
                                    w: word, bs: seq<byte>, seen: bool, raw: word, v: seq<byte>, after: bool)
    requires 1 <= |bs| == |v| <= 4 && Leading([w], |bs|) == Ordered(bs, seen)
    requires Leading([raw], |bs|) == Ordered(v, after)
    requires IsLooseRun(peer, start, run) && EndsInCall(run, p, tail, t, ExchangeOps(w, |bs|, raw))
    ensures var d, d' := Bus(peer, start, p), Bus(peer, start, run);
            && |d'.wire| == |d.wire| + 8 * |bs|
            && var answer := Received(peer, d'.wire, |d.wire|, |bs|, d.cfg.rdBitOrder);
               && (forall o :: AsWhole(peer, d, d', bs, v, o) <==> BothHarmless(bs, seen, answer, after, d.cfg, o))
               && ((exists o :: AsWhole(peer, d, d', bs, v, o))
                   <==> exists o :: BothHarmless(bs, seen, answer, after, d.cfg, o))
  {
    hide Bus, IsLooseRun, EndsInCall, Bits, Leading, Ordered, Received, AsWhole, BothHarmless;
    TransferCallExchanges(peer, start, run, p, tail, t, w, |bs|, raw);
    var d, d' := Bus(peer, start, p), Bus(peer, start, run);
    forall o
      ensures AsWhole(peer, d, d', bs, v, o)
         <==> BothHarmless(bs, seen, Received(peer, d'.wire, |d.wire|, |bs|, d.cfg.rdBitOrder), after, d.cfg, o)
    {
      WholeIsHarmless(peer, d, d', bs, seen, v, after, o);
    }
  }

  // ---------- such runs exist ----------

  /** What spiSetBitOrder does; see Spi.SetBitOrder. */
  function OrderCall(lsbFirst: bool): seq<Op> {
    [Take] + OrderOps(if lsbFirst then SPI_LSBFIRST else SPI_MSBFIRST) + [Give]
  }

  lemma Extend(peer: Peer, start: Device, p: seq<Event>, e: Event)
    requires IsInterleaving(peer, start, p) && Possible(peer, start, p, e)
    ensures IsInterleaving(peer, start, p + [e])
    ensures Holder(p + [e]) == if e.op.Take? then Some(e.task) else if e.op.Give? then None else Holder(p)
    ensures Bus(peer, start, p + [e]) == Exec(peer, Bus(peer, start, p), e.op)
    ensures Own(p + [e], e.task) == Own(p, e.task) + [e.op]
    ensures forall t :: t != e.task ==> Own(p + [e], t) == Own(p, t)
  {
    hide Exec, Possible, Bus;
    assert (p + [e])[..|p + [e]| - 1] == p;
    Snoc(peer, start, p, e, e.task);
  }

  predicate IsPlain(op: Op) {
    !op.Take? && !op.Give? && !op.ReadWrOrder? && !op.ReadRdOrder? && !op.Unload?
  }

  /** Several accesses of one task in a row, none of them a lock operation or a read. */
  lemma {:induction false} ExtendMany(peer: Peer, start: Device, p: seq<Event>, t: nat, ops: seq<Op>)
    requires IsInterleaving(peer, start, p) && Holder(p) == Some(t)
    requires forall op :: op in ops ==> IsPlain(op)
    ensures var r := p + ByTask(t, ops);
            && IsInterleaving(peer, start, r) && Holder(r) == Some(t)
            && Bus(peer, start, r) == Replay(peer, Bus(peer, start, p), ops)
            && Own(r, t) == Own(p, t) + ops
            && forall u :: u != t ==> Own(r, u) == Own(p, u)
    decreases |ops|
  {
    hide Exec, Bus, Own;
    if ops == [] {
      assert p + ByTask(t, ops) == p;
    } else {
      var less, op := ops[..|ops| - 1], ops[|ops| - 1];
      assert ops == less + [op];
      assert IsPlain(op);
      assert p + ByTask(t, ops) == p + ByTask(t, less) + [Event(t, op)];
      ExtendMany(peer, start, p, t, less);
      Extend(peer, start, p + ByTask(t, less), Event(t, op));
      LogStep(peer, Bus(peer, start, p), less, op);
    }
  }

  lemma OrderEffect(peer: Peer, d: Device, lsbFirst: bool)
    ensures Replay(peer, d, OrderOps(if lsbFirst then SPI_LSBFIRST else SPI_MSBFIRST))
         == d.(cfg := d.cfg.(wrBitOrder := lsbFirst, rdBitOrder := lsbFirst))
  {
    hide Command, Replay;
    var a, b := SetWrOrder(lsbFirst), SetRdOrder(lsbFirst);
    assert OrderOps(if lsbFirst then SPI_LSBFIRST else SPI_MSBFIRST) == [a, b];
    assert [a] == [] + [a] && [a, b] == [a] + [b];
    LogStep(peer, d, [], a);
    LogStep(peer, d, [a], b);
    EmptyLog(peer, d);
  }

  lemma NothingDone()
    ensures forall t :: Own([], t) == []
  {
  }

  /** A whole call of a task, when nobody holds the lock. */
  lemma ExtendCall(peer: Peer, start: Device, p: seq<Event>, t: nat, ops: seq<Op>) returns (run: seq<Event>)
    requires IsInterleaving(peer, start, p) && Holder(p).None?
    requires forall op :: op in ops ==> IsPlain(op)
    ensures IsInterleaving(peer, start, run) && Holder(run).None?
    ensures Bus(peer, start, run) == Replay(peer, Bus(peer, start, p), ops)
    ensures Own(run, t) == Own(p, t) + ([Take] + ops + [Give])
    ensures forall u :: u != t ==> Own(run, u) == Own(p, u)
  {
    hide Exec, Bus, Own, Replay, IsInterleaving, Holder, IsPlain;
    TakePossible(peer, start, p, t);
    Extend(peer, start, p, Event(t, Take));
    KeepsBus(peer, Bus(peer, start, p), Take);
    var q := p + [Event(t, Take)];
    ExtendMany(peer, start, q, t, ops);
    var r := q + ByTask(t, ops);
    Extend(peer, start, r, Event(t, Give));
    KeepsBus(peer, Bus(peer, start, r), Give);
    run := r + [Event(t, Give)];
    assert Own(p, t) + [Take] + ops + [Give] == Own(p, t) + ([Take] + ops + [Give]);
  }

  lemma TakePossible(peer: Peer, start: Device, p: seq<Event>, t: nat)
    requires Holder(p).None?
    ensures Possible(peer, start, p, Event(t, Take))
  {
  }

  lemma OrderOpsArePlain(bitOrder: bv8)
    ensures forall op :: op in OrderOps(bitOrder) ==> IsPlain(op)
  {
  }

  /** The first task reads the order, and then the second changes it. */
  lemma Opening(peer: Peer, start: Device) returns (run: seq<Event>)
    requires |start.fifo| == FIFO_WORDS
    ensures var o := start.cfg.wrBitOrder;
            && IsInterleaving(peer, start, run) && Holder(run).None?
            && Own(run, 0) == [ReadWrOrder(o)] && Own(run, 1) == OrderCall(!o)
            && Bus(peer, start, run) == start.(cfg := start.cfg.(wrBitOrder := !o, rdBitOrder := !o))
  {
    hide Exec, Bus, Own, Replay, IsPlain, OrderOps;
    var o := start.cfg.wrBitOrder;
    var bitOrder := if !o then SPI_LSBFIRST else SPI_MSBFIRST;
    var before := FirstRead(peer, start);
    OrderOpsArePlain(bitOrder);
    run := ExtendCall(peer, start, before, 1, OrderOps(bitOrder));
    OrderEffect(peer, start, !o);
  }

  /** One such call and one change of the bit order, from either order to the other: they interleave so that
      the number is arranged for the order before and sent in the order after.  That is what one of the two
      serial runs sends, first the call or first the change, exactly for the harmless numbers. */
  lemma WriteCallInterleaved(peer: Peer, start: Device, w: word, bs: seq<byte>) returns (run: seq<Event>)
    requires |start.fifo| == FIFO_WORDS
    requires 1 <= |bs| <= 4 && Leading([w], |bs|) == Ordered(bs, start.cfg.wrBitOrder)
    ensures var o := start.cfg.wrBitOrder;
            && IsInterleaving(peer, start, run)
            && Own(run, 0) == WriteCall(w, |bs|, o) && Own(run, 1) == OrderCall(!o)
            && Bus(peer, start, run).wire == start.wire + Bits(Ordered(bs, o), !o)
            && (Bus(peer, start, run).wire == start.wire + SentWhole(bs, o)
                || Bus(peer, start, run).wire == start.wire + SentWhole(bs, !o)
                <==> bs == Rev(bs) || forall b :: b in bs ==> Palindrome(b))
  {
    hide Exec, Bus, Own, Bits, FifoBits, Replay, Leading, Ordered, SentWhole, Rev, Palindrome;
    var o, ops := start.cfg.wrBitOrder, SendOps(w, |bs|);
    var before := Opening(peer, start);
    SendOpsArePlain(w, |bs|);
    run := ExtendCall(peer, start, before, 0, ops);
    SetupEffect(peer, Bus(peer, start, before), w, |bs|, 0);
    SerialInSomeOrder(start.wire, bs, o, !o);
    SomeOrder(start.wire, bs, o);
  }

  lemma SendOpsArePlain(w: word, n: nat)
    requires 1 <= n
    ensures forall op :: op in SendOps(w, n) ==> IsPlain(op)
  {
  }

  lemma SomeOrder(wire: seq<bool>, bs: seq<byte>, o: bool)
    ensures (exists x :: wire + Bits(Ordered(bs, o), !o) == wire + SentWhole(bs, x))
       <==> || wire + Bits(Ordered(bs, o), !o) == wire + SentWhole(bs, o)
            || wire + Bits(Ordered(bs, o), !o) == wire + SentWhole(bs, !o)
  {
    hide Bits, Ordered, SentWhole;
    if x :| wire + Bits(Ordered(bs, o), !o) == wire + SentWhole(bs, x) {
      assert x == o || x == !o;
    }
  }

  // ---------- and for the transfers ----------

  /** A whole exchange of a task, when nobody holds the lock. */
  lemma ExtendExchange(peer: Peer, start: Device, p: seq<Event>, t: nat, setup: seq<Op>)
    returns (run: seq<Event>, raw: word)
    requires IsInterleaving(peer, start, p) && Holder(p).None?
    requires forall op :: op in setup ==> IsPlain(op)
    requires |Replay(peer, Bus(peer, start, p), setup).fifo| == FIFO_WORDS
    ensures IsInterleaving(peer, start, run) && Holder(run).None?
    ensures Bus(peer, start, run) == Replay(peer, Bus(peer, start, p), setup)
    ensures raw == Bus(peer, start, run).fifo[0]
    ensures Own(run, t) == Own(p, t) + ([Take] + (setup + [Unload(0, raw)]) + [Give])
    ensures forall u :: u != t ==> Own(run, u) == Own(p, u)
  {
    hide Exec, Bus, Own, Replay, IsInterleaving, Holder, IsPlain;
    TakePossible(peer, start, p, t);
    Extend(peer, start, p, Event(t, Take));
    KeepsBus(peer, Bus(peer, start, p), Take);
    var q := p + [Event(t, Take)];
    ExtendMany(peer, start, q, t, setup);
    var r := q + ByTask(t, setup);
    var d := Bus(peer, start, r);
    raw := d.fifo[0];
    UnloadPossible(peer, start, r, t, raw);
    Extend(peer, start, r, Event(t, Unload(0, raw)));
    UnloadKeeps(peer, d, Unload(0, raw));
    var s := r + [Event(t, Unload(0, raw))];
    Extend(peer, start, s, Event(t, Give));
    KeepsBus(peer, d, Give);
    run := s + [Event(t, Give)];
    CallLog(Own(p, t), setup, Unload(0, raw));
  }

  lemma CallLog(own: seq<Op>, setup: seq<Op>, unload: Op)
    ensures own + [Take] + setup + [unload] + [Give] == own + ([Take] + (setup + [unload]) + [Give])
  {
  }

  lemma UnloadPossible(peer: Peer, start: Device, p: seq<Event>, t: nat, raw: word)
    requires |Bus(peer, start, p).fifo| == FIFO_WORDS && raw == Bus(peer, start, p).fifo[0]
    ensures Possible(peer, start, p, Event(t, Unload(0, raw)))
  {
    hide Bus;
  }

  /** The accesses that set up and run an exchange. */
  function ExchangeSetup(w: word, n: nat): seq<Op>
    requires 1 <= n
  {
    [SetMosiDlen(8 * n - 1), SetMisoDlen(8 * n - 1), Load(0, w), Fire]
  }

  lemma ExchangeSetupIsPlain(w: word, n: nat, raw: word)
    requires 1 <= n
    ensures forall op :: op in ExchangeSetup(w, n) ==> IsPlain(op)
    ensures ExchangeOps(w, n, raw) == ExchangeSetup(w, n) + [Unload(0, raw)]
  {
  }

  /** Task 0 makes the locked part of a transfer of bs, arranged in the order seen. */
  lemma Exchange(peer: Peer, start: Device, p: seq<Event>, w: word, bs: seq<byte>, seen: bool)
    returns (run: seq<Event>, raw: word)
    requires IsInterleaving(peer, start, p) && Holder(p).None? && |Bus(peer, start, p).fifo| == FIFO_WORDS
    requires 1 <= |bs| <= 4 && Leading([w], |bs|) == Ordered(bs, seen)
    ensures IsInterleaving(peer, start, run) && Holder(run).None?
    ensures var d, d' := Bus(peer, start, p), Bus(peer, start, run);
            && d'.cfg == d.cfg && |d'.wire| == |d.wire| + 8 * |bs|
            && d'.wire == d.wire + Bits(Ordered(bs, seen), d.cfg.wrBitOrder)
            && Leading([raw], |bs|) == Received(peer, d'.wire, |d.wire|, |bs|, d.cfg.rdBitOrder)
    ensures Own(run, 0) == Own(p, 0) + ExchangeCall(w, |bs|, raw) && Own(run, 1) == Own(p, 1)
  {
    hide Bus, Own, Replay, IsInterleaving, Holder, IsPlain, Bits, Leading, Received, ExchangeSetup;
    var n := |bs|;
    var setup := ExchangeSetup(w, n);
    ExchangeSetupIsPlain(w, n, 0);
    ExchangeSetupEffect(peer, Bus(peer, start, p), w, n);
    run, raw := ExtendExchange(peer, start, p, 0, setup);
    ExchangeSetupIsPlain(w, n, raw);
  }

  lemma ExchangeSetupEffect(peer: Peer, d: Device, w: word, n: nat)
    requires |d.fifo| == FIFO_WORDS && 1 <= n <= 4
    ensures var after := Replay(peer, d, ExchangeSetup(w, n));
            && after.wire == d.wire + Bits(Leading([w], n), d.cfg.wrBitOrder)
            && after.cfg == d.cfg && |after.fifo| == FIFO_WORDS && |after.wire| == |d.wire| + 8 * n
            && Leading([after.fifo[0]], n) == Received(peer, after.wire, |d.wire|, n, d.cfg.rdBitOrder)
  {
    hide Replay, Leading, Bits, Received;
    SetupEffect(peer, d, w, n, 8 * n - 1);
  }

  /** The number decoded from an answer in some order. */
  lemma Decodes(raw: word, n: nat, after: bool) returns (v: seq<byte>)
    requires n <= 4
    ensures |v| == n && Ordered(v, after) == Leading([raw], n)
  {
    hide Leading;
    v := Ordered(Leading([raw], n), after);
    RevTwice(Leading([raw], n));
  }

  /** Reading the order after the unlock ends the call. */
  lemma Reread(peer: Peer, start: Device, p: seq<Event>, after: bool) returns (run: seq<Event>)
    requires IsInterleaving(peer, start, p) && Bus(peer, start, p).cfg.rdBitOrder == after
    ensures IsInterleaving(peer, start, run) && Bus(peer, start, run) == Bus(peer, start, p)
    ensures Own(run, 0) == Own(p, 0) + [ReadRdOrder(after)] && Own(run, 1) == Own(p, 1)
  {
    hide Exec, Bus, Own, IsInterleaving;
    var e := Event(0, ReadRdOrder(after));
    ReadPossible(peer, start, p, e);
    Extend(peer, start, p, e);
    KeepsBus(peer, Bus(peer, start, p), e.op);
    run := p + [e];
  }

  lemma ReadPossible(peer: Peer, start: Device, p: seq<Event>, e: Event)
    requires e.op.ReadRdOrder? && e.op.on == Bus(peer, start, p).cfg.rdBitOrder
    ensures Possible(peer, start, p, e)
  {
    hide Bus;
  }

  /** One transfer and one change of the bit order, from either order to the other, before the transfer has
      the lock: it is arranged for the order before, and sent, answered and decoded in the order after.  That
      is what one of the two serial runs gives exactly when the bytes sent read the same backwards, or each of
      them does and the whole answer does. */
  lemma TransferCallInterleaved(peer: Peer, start: Device, w: word, bs: seq<byte>)
    returns (run: seq<Event>, raw: word, v: seq<byte>)
    requires |start.fifo| == FIFO_WORDS
    requires 1 <= |bs| <= 4 && Leading([w], |bs|) == Ordered(bs, start.cfg.wrBitOrder)
    ensures var o, d' := start.cfg.wrBitOrder, Bus(peer, start, run);
            && IsInterleaving(peer, start, run)
            && Own(run, 0) == TransferCall(w, |bs|, raw, o, !o) && Own(run, 1) == OrderCall(!o)
            && d'.wire == start.wire + Bits(Ordered(bs, o), !o) && |d'.wire| == |start.wire| + 8 * |bs|
            && |v| == |bs| && Ordered(v, !o) == Leading([raw], |bs|)
            && var answer := Received(peer, d'.wire, |start.wire|, |bs|, !o);
               && Leading([raw], |bs|) == answer
               && (AsWhole(peer, start, d', bs, v, o) || AsWhole(peer, start, d', bs, v, !o)
                   <==> bs == Rev(bs) || ((forall b :: b in bs ==> Palindrome(b)) && ReadsBackwards(answer)))
  {
    hide Bus, Own, Replay, IsInterleaving, Holder, Bits, Leading, Received, Ordered, Rev, Palindrome, AsWhole;
    hide OrderCall, ExchangeCall, ReadsBackwards;
    var o := start.cfg.wrBitOrder;
    var before := Opening(peer, start);
    var d := Bus(peer, start, before);
    var locked;
    locked, raw := Exchange(peer, start, before, w, bs, o);
    run := Reread(peer, start, locked, !o);
    v := Decodes(raw, |bs|, !o);
    var answer := Received(peer, Bus(peer, start, run).wire, |start.wire|, |bs|, !o);
    SameWhole(peer, start, d, Bus(peer, start, run), bs, v);
    WholeIsHarmless(peer, d, Bus(peer, start, run), bs, o, v, !o, o);
    WholeIsHarmless(peer, d, Bus(peer, start, run), bs, o, v, !o, !o);
    EarlyChange(bs, answer, o, d.cfg);
    LogOfTransfer(w, |bs|, raw, o, !o);
  }

  lemma LogOfTransfer(w: word, n: nat, raw: word, seen: bool, after: bool)
    requires 1 <= n
    ensures [ReadWrOrder(seen)] + ExchangeCall(w, n, raw) + [ReadRdOrder(after)] == TransferCall(w, n, raw, seen, after)
  {
  }

  /** Only the wire of the state before counts. */
  lemma SameWhole(peer: Peer, a: Device, b: Device, d': Device, bs: seq<byte>, v: seq<byte>)
    requires a.wire == b.wire && |d'.wire| == |a.wire| + 8 * |bs|
    ensures forall o :: AsWhole(peer, a, d', bs, v, o) == AsWhole(peer, b, d', bs, v, o)
  {
  }

  lemma EarlyChange(bs: seq<byte>, answer: seq<byte>, o: bool, found: Config)
    requires found.wrBitOrder == found.rdBitOrder == !o
    ensures BothHarmless(bs, o, answer, !o, found, !o) <==> bs == Rev(bs)
    ensures BothHarmless(bs, o, answer, !o, found, o)
       <==> (forall b :: b in bs ==> Palindrome(b)) && ReadsBackwards(answer)
  {
    hide Rev, Palindrome, Mirrored;
  }

  /** The same with the change between the unlock and the last read, on a bus whose two order registers agree:
      sent and answered in the order before, but decoded for the order after.  That is serial exactly when the
      bytes answered read the same backwards, or each of them does and the whole number sent does. */
  lemma TransferCallReread(peer: Peer, start: Device, w: word, bs: seq<byte>)
    returns (run: seq<Event>, raw: word, v: seq<byte>)
    requires |start.fifo| == FIFO_WORDS && start.cfg.wrBitOrder == start.cfg.rdBitOrder
    requires 1 <= |bs| <= 4 && Leading([w], |bs|) == Ordered(bs, start.cfg.wrBitOrder)
    ensures var o, d' := start.cfg.wrBitOrder, Bus(peer, start, run);
            && IsInterleaving(peer, start, run)
            && Own(run, 0) == TransferCall(w, |bs|, raw, o, !o) && Own(run, 1) == OrderCall(!o)
            && d'.wire == start.wire + Bits(Ordered(bs, o), o) && |d'.wire| == |start.wire| + 8 * |bs|
            && |v| == |bs| && Ordered(v, !o) == Leading([raw], |bs|)
            && var answer := Received(peer, d'.wire, |start.wire|, |bs|, o);
               && Leading([raw], |bs|) == answer
               && (AsWhole(peer, start, d', bs, v, o) || AsWhole(peer, start, d', bs, v, !o)
                   <==> answer == Rev(answer) || ((forall b :: b in answer ==> Palindrome(b)) && ReadsBackwards(bs)))
  {
    hide Exec, Bus, Own, Replay, IsInterleaving, Holder, Bits, Leading, Received, Ordered, Rev, Palindrome, AsWhole;
    hide OrderOps, ExchangeCall, ReadsBackwards, IsPlain;
    var o := start.cfg.wrBitOrder;
    var bitOrder := if !o then SPI_LSBFIRST else SPI_MSBFIRST;
    var before := FirstRead(peer, start);
    var locked, changed;
    locked, raw := Exchange(peer, start, before, w, bs, o);
    OrderOpsArePlain(bitOrder);
    changed := ExtendCall(peer, start, locked, 1, OrderOps(bitOrder));
    OrderEffect(peer, Bus(peer, start, locked), !o);
    run := Reread(peer, start, changed, !o);
    v := Decodes(raw, |bs|, !o);
    var answer := Received(peer, Bus(peer, start, run).wire, |start.wire|, |bs|, o);
    WholeIsHarmless(peer, start, Bus(peer, start, run), bs, o, v, !o, o);
    WholeIsHarmless(peer, start, Bus(peer, start, run), bs, o, v, !o, !o);
    LateChange(bs, answer, o, start.cfg);
    LogOfTransfer(w, |bs|, raw, o, !o);
  }

  lemma FirstRead(peer: Peer, start: Device) returns (run: seq<Event>)
    requires |start.fifo| == FIFO_WORDS
    ensures IsInterleaving(peer, start, run) && Holder(run).None? && Bus(peer, start, run) == start
    ensures Own(run, 0) == [ReadWrOrder(start.cfg.wrBitOrder)] && Own(run, 1) == []
  {
    hide Exec, Bus, Own, Replay;
    var read := Event(0, ReadWrOrder(start.cfg.wrBitOrder));
    EmptyBus(peer, start);
    NothingDone();
    Extend(peer, start, [], read);
    KeepsBus(peer, start, read.op);
    run := [] + [read];
  }

  lemma LateChange(bs: seq<byte>, answer: seq<byte>, o: bool, found: Config)
    requires found.wrBitOrder == found.rdBitOrder == o
    ensures BothHarmless(bs, o, answer, !o, found, o) <==> answer == Rev(answer)
    ensures BothHarmless(bs, o, answer, !o, found, !o)
       <==> ReadsBackwards(bs) && forall b :: b in answer ==> Palindrome(b)
  {
    hide Rev, Palindrome, Mirrored;
  }
}
