/** Tasks on a shared bus, from the driver calls they make to the runs they take part in
    (esp32/esp32spi.c, lines 315-1030). */
module SpiTasks {
  import opened Wire
  import opened SpiWords
  import opened SpiDevice
  import opened SpiDriver
  import opened SpiCalls
  import opened SpiOrders
  import opened SpiSessions
  import opened SpiScalarCalls

  /** What the other tasks leave in the controller: before a call, and for the calls that read the bit order
      outside the lock also between that read and the lock, and between the unlock and the next read. */
  datatype Around = Around(before: Device, between: Device, after: Device)

  predicate IsAround(a: Around) {
    |a.before.fifo| == FIFO_WORDS && |a.between.fifo| == FIFO_WORDS && |a.after.fifo| == FIFO_WORDS
  }

  /** The other tasks at work: the controller changes under a task that does not hold the lock. */
  method Disturb(spi: Spi, found: Device)
    requires spi.Valid() && !spi.locked && |found.fifo| == FIFO_WORDS
    modifies spi`clock, spi`idleEdge, spi`outEdge, spi`wrBitOrder, spi`rdBitOrder
    modifies spi`origin, spi`log, spi`session, spi`mosiDlen, spi`misoDlen, spi.dataBuf, spi`wire
    ensures spi.Valid() && spi.Dev() == found && spi.log == []
  {
    hide Spi.Valid;
    HasMutex(spi);
    spi.clock, spi.idleEdge, spi.outEdge := found.cfg.clock, found.cfg.idleEdge, found.cfg.outEdge;
    spi.wrBitOrder, spi.rdBitOrder := found.cfg.wrBitOrder, found.cfg.rdBitOrder;
    spi.mosiDlen, spi.misoDlen, spi.wire := found.mosiDlen, found.misoDlen, found.wire;
    Fill(spi.dataBuf, found.fifo);
    spi.RestartLog();
  }

  lemma HasMutex(spi: Spi)
    requires spi.Valid()
    ensures spi.lockCreated
  {
  }

  method Fill(a: array<word>, ws: seq<word>)
    requires a.Length == |ws|
    modifies a
    ensures a[..] == ws
  {
    forall i | 0 <= i < |ws| {
      a[i] := ws[i];
    }
    assert a[..] == ws;
  }

  // ---------- one call ----------

  /** The word and the number of bytes a Word or Long call loads, when it has read the order lsbFirst. */
  function Arranged(call: Call, lsbFirst: bool): (word, nat)
    requires call.ReadsOutside()
  {
    match call
    case WriteWord(h) => (Word16(h, lsbFirst), 2)
    case TransferWord(h) => (Word16(h, lsbFirst), 2)
    case WriteLong(w) => (Word32(w, lsbFirst), 4)
    case TransferLong(w) => (Word32(w, lsbFirst), 4)
  }

  /** The accesses of a Word or Long call that read the order as seen, was answered raw, and then read the
      order as after. */
  function NumberOps(call: Call, seen: bool, raw: word, after: bool): seq<Op>
    requires call.ReadsOutside()
  {
    var (w, n) := Arranged(call, seen);
    if call.WriteWord? || call.WriteLong? then WriteCall(w, n, seen) else TransferCall(w, n, raw, seen, after)
  }

  /** The locked part of such a call, run from d: it sends the word loaded in the order it finds, and a
      transfer is answered raw. */
  ghost predicate RunsFrom(peer: Peer, d: Device, call: Call, w: word, n: nat, raw: word)
    requires call.ReadsOutside() && 1 <= n <= 4
  {
    var locked := if call.WriteWord? || call.WriteLong? then SendCall(w, n) else ExchangeCall(w, n, raw);
    var d' := Replay(peer, d, locked);
    && d'.cfg == d.cfg
    && |d'.wire| == |d.wire| + 8 * n && d'.wire == d.wire + Bits(Leading([w], n), d.cfg.wrBitOrder)
    && (call.TransferWord? || call.TransferLong? ==>
          Leading([raw], n) == Received(peer, d'.wire, |d.wire|, n, d.cfg.rdBitOrder))
  }

  /** The accesses of a call that found these states: replayed from there, they send what the call is to send
      and leave the configuration it is to leave.  The Word and Long calls read the order in force before, and
      the transfers again the one in force after. */
  ghost predicate Made(peer: Peer, call: Call, around: Around, made: seq<Op>)
    requires call.Legal()
  {
    if call.ReadsOutside() then
      var seen, after := around.before.cfg.wrBitOrder, around.after.cfg.rdBitOrder;
      ArrangedSize(call, seen);
      exists raw ::
        && made == NumberOps(call, seen, raw, after)
        && RunsFrom(peer, around.between, call, Arranged(call, seen).0, Arranged(call, seen).1, raw)
    else
      var d' := Replay(peer, around.before, made);
      && IsCall(made)
      && d'.wire == around.before.wire + Sent(around.before.cfg, call)
      && d'.cfg == Apply(around.before.cfg, call)
  }

  lemma ReplayIs(spi: Spi)
    requires spi.Valid()
    ensures spi.Dev() == Replay(spi.peer, spi.origin, spi.log)
  {
  }

  method ReadShared(spi: Spi, found: Device) returns (seen: bool)
    requires spi.Valid() && spi.Started() && !spi.locked && |found.fifo| == FIFO_WORDS
    modifies spi`clock, spi`idleEdge, spi`outEdge, spi`wrBitOrder, spi`rdBitOrder
    modifies spi`origin, spi`log, spi`session, spi`mosiDlen, spi`misoDlen, spi.dataBuf, spi`wire
    ensures spi.Valid() && spi.log == [ReadWrOrder(seen)] && seen == found.cfg.wrBitOrder
  {
    hide Spi.Valid;
    Disturb(spi, found);
    seen := spi.GetWrOrder();
  }

  /** Spi.WriteWord and the three calls like it, with other tasks at work on both sides of the lock. */
  method RunNumberShared(spi: Spi, call: Call, around: Around)
    returns (seen: bool, raw: word, after: bool, ghost made: seq<Op>)
    requires spi.Valid() && spi.Started() && !spi.locked && call.ReadsOutside() && IsAround(around)
    modifies spi`clock, spi`idleEdge, spi`outEdge, spi`wrBitOrder, spi`rdBitOrder
    modifies spi`locked, spi`past, spi`origin, spi`log, spi`session
    modifies spi`mosiDlen, spi`misoDlen, spi.dataBuf, spi`wire
    ensures spi.Valid() && !spi.locked
    ensures made == NumberOps(call, seen, raw, after) && Made(spi.peer, call, around, made)
  {
    hide Spi.Valid, IsCall, Arranged, Bits, Leading, Received, SendCall, ExchangeCall, IsAround, Replay, RunsFrom;
    hide NumberOps;
    AroundMeans(around);
    seen := ReadShared(spi, around.before);
    made := spi.log;
    Disturb(spi, around.between);
    ArrangedSize(call, seen);
    var (w, n) := Arranged(call, seen);
    raw, after := 0, false;
    if call.WriteWord? || call.WriteLong? {
      SendShared(spi, call, w, n);
      made := made + spi.log;
      after := around.after.cfg.rdBitOrder;
    } else {
      ghost var rest;
      raw, after, rest := RunExchangeShared(spi, call, w, n, around.after);
      made := made + rest;
    }
    LogOfNumber(call, seen, raw, after);
  }

  lemma LogOfNumber(call: Call, seen: bool, raw: word, after: bool)
    requires call.ReadsOutside()
    ensures var (w, n) := Arranged(call, seen);
            && 1 <= n
            && (call.WriteWord? || call.WriteLong? ==>
                  [ReadWrOrder(seen)] + SendCall(w, n) == NumberOps(call, seen, raw, after))
            && (call.TransferWord? || call.TransferLong? ==>
                  [ReadWrOrder(seen)] + (ExchangeCall(w, n, raw) + [ReadRdOrder(after)])
                  == NumberOps(call, seen, raw, after))
  {
    hide SendCall, ExchangeCall, Arranged;
    ArrangedSize(call, seen);
  }

  /** The locked part of the two that only send. */
  method SendShared(spi: Spi, call: Call, w: word, n: nat)
    requires spi.Valid() && spi.Started() && !spi.locked && 1 <= n <= 4 && (call.WriteWord? || call.WriteLong?)
    modifies spi`locked, spi`past, spi`origin, spi`log, spi`session
    modifies spi`mosiDlen, spi`misoDlen, spi.dataBuf, spi`wire
    ensures spi.Valid() && !spi.locked && spi.log == SendCall(w, n)
    ensures forall raw :: RunsFrom(spi.peer, old(spi.Dev()), call, w, n, raw)
  {
    hide Spi.Valid, IsCall, Bits, Leading, SendCall, Replay;
    spi.SendLocked(w, n);
    ReplayIs(spi);
  }

  /** The second half of the two that read an answer. */
  method RunExchangeShared(spi: Spi, call: Call, w: word, n: nat, found: Device)
    returns (raw: word, after: bool, ghost made: seq<Op>)
    requires spi.Valid() && spi.Started() && !spi.locked && 1 <= n <= 4 && |found.fifo| == FIFO_WORDS
    requires call.TransferWord? || call.TransferLong?
    modifies spi`clock, spi`idleEdge, spi`outEdge, spi`wrBitOrder, spi`rdBitOrder
    modifies spi`locked, spi`past, spi`origin, spi`log, spi`session
    modifies spi`mosiDlen, spi`misoDlen, spi.dataBuf, spi`wire
    ensures spi.Valid() && !spi.locked
    ensures made == ExchangeCall(w, n, raw) + [ReadRdOrder(after)] && after == found.cfg.rdBitOrder
    ensures RunsFrom(spi.peer, old(spi.Dev()), call, w, n, raw)
  {
    hide Spi.Valid, IsCall, Bits, Leading, Received, ExchangeCall, Replay;
    raw := spi.ExchangeLocked(w, n);
    ReplayIs(spi);
    assert RunsFrom(spi.peer, old(spi.Dev()), call, w, n, raw);
    made := spi.log;
    Disturb(spi, found);
    after := spi.GetRdOrder();
    made := made + spi.log;
  }

  lemma AroundMeans(a: Around)
    requires IsAround(a)
    ensures |a.before.fifo| == |a.between.fifo| == |a.after.fifo| == FIFO_WORDS
  {
  }

  lemma ArrangedSize(call: Call, seen: bool)
    requires call.ReadsOutside()
    ensures 1 <= Arranged(call, seen).1 <= 4
  {
  }

  /** One call of a task. */
  method RunShared(spi: Spi, call: Call, around: Around) returns (ghost made: seq<Op>)
    requires spi.Valid() && spi.Started() && !spi.locked && call.Legal() && IsAround(around)
    modifies spi`clock, spi`idleEdge, spi`outEdge, spi`wrBitOrder, spi`rdBitOrder
    modifies spi`locked, spi`past, spi`origin, spi`log, spi`session
    modifies spi`mosiDlen, spi`misoDlen, spi.dataBuf, spi`wire
    ensures spi.Valid() && !spi.locked
    ensures IsCall(Bare(made)) && (!call.ReadsOutside() ==> IsCall(made))
    ensures Made(spi.peer, call, around, made)
  {
    hide Spi.Valid, IsCall, Bare, Apply, NumberOps, Call.Legal, Replay, Sent, RunsFrom;
    if call.ReadsOutside() {
      var seen, raw, after;
      seen, raw, after, made := RunNumberShared(spi, call, around);
      NumberIsBareCall(call, seen, raw, after);
    } else {
      Disturb(spi, around.before);
      RunCall(spi, call);
      made := spi.log;
      BareCall(made);
      ReplayIs(spi);
    }
  }

  lemma NumberIsBareCall(call: Call, seen: bool, raw: word, after: bool)
    requires call.ReadsOutside()
    ensures IsCall(Bare(NumberOps(call, seen, raw, after)))
  {
    hide IsCall, Bare, Arranged, WriteCall, TransferCall;
    ArrangedSize(call, seen);
    var (w, n) := Arranged(call, seen);
    NumberCallsAreCalls(w, n, raw);
    NumberCallsAreBareCalls(w, n, raw, seen, after);
  }

  // ---------- whole tasks, cut anywhere ----------

  /** The calls of a task in turn.  Whatever the other tasks leave in the controller around each, the task's
      own accesses are those of its calls, one after the other, and cut anywhere they are what the theorems on
      shared runs ask of it. */
  method RunTask(spi: Spi, calls: seq<Call>, arounds: seq<Around>)
    returns (ghost own: seq<Op>, ghost logs: seq<seq<Op>>)
    requires spi.Valid() && spi.Started() && !spi.locked && |arounds| == |calls|
    requires forall i :: 0 <= i < |calls| ==> calls[i].Legal() && IsAround(arounds[i])
    modifies spi`clock, spi`idleEdge, spi`outEdge, spi`wrBitOrder, spi`rdBitOrder
    modifies spi`locked, spi`past, spi`origin, spi`log, spi`session
    modifies spi`mosiDlen, spi`misoDlen, spi.dataBuf, spi`wire
    ensures spi.Valid() && !spi.locked
    ensures |logs| == |calls| && own == Joined(logs)
    ensures forall i :: 0 <= i < |calls| ==> Made(spi.peer, calls[i], arounds[i], logs[i])
    ensures forall k :: 0 <= k <= |own| ==> MakesCalls(Bare(own[..k]))
    ensures (forall call :: call in calls ==> !call.ReadsOutside()) ==>
              forall k :: 0 <= k <= |own| ==> MakesCalls(own[..k])
  {
    hide Spi.Valid, IsCall, Bare, MakesCalls, Joined, Call.Legal, IsAround, Made;
    logs, own := [], [];
    NothingJoined();
    for i := 0 to |calls|
      invariant spi.Valid() && !spi.locked && |logs| == i && own == Joined(logs)
      invariant forall j :: 0 <= j < i ==> Made(spi.peer, calls[j], arounds[j], logs[j])
      invariant forall j :: 0 <= j < i ==> IsCall(Bare(logs[j])) && (!calls[j].ReadsOutside() ==> IsCall(logs[j]))
    {
      ghost var made := RunShared(spi, calls[i], arounds[i]);
      JoinedMore(logs, made);
      own, logs := own + made, logs + [made];
    }
    TaskMakesCalls(calls, logs, own);
  }

  lemma NothingJoined()
    ensures Joined([]) == []
  {
  }

  lemma JoinedMore(logs: seq<seq<Op>>, made: seq<Op>)
    ensures Joined(logs + [made]) == Joined(logs) + made
  {
    assert (logs + [made])[..|logs + [made]| - 1] == logs;
  }

  lemma TaskMakesCalls(calls: seq<Call>, logs: seq<seq<Op>>, own: seq<Op>)
    requires |logs| == |calls| && own == Joined(logs)
    requires forall j :: 0 <= j < |logs| ==> IsCall(Bare(logs[j])) && (!calls[j].ReadsOutside() ==> IsCall(logs[j]))
    ensures forall k :: 0 <= k <= |own| ==> MakesCalls(Bare(own[..k]))
    ensures (forall call :: call in calls ==> !call.ReadsOutside()) ==>
              forall k :: 0 <= k <= |own| ==> MakesCalls(own[..k])
  {
    hide IsCall, Bare, MakesCalls, Joined;
    var bares := seq(|logs|, i requires 0 <= i < |logs| => Bare(logs[i]));
    BareJoined(logs, bares);
    forall k | 0 <= k <= |own|
      ensures MakesCalls(Bare(own[..k]))
    {
      BareConcat(own[..k], own[k..]);
      assert own == own[..k] + own[k..];
      CutMakesCalls(bares, |Bare(own[..k])|);
      assert Bare(own[..k]) == Bare(own)[..|Bare(own[..k])|];
    }
    if forall call :: call in calls ==> !call.ReadsOutside() {
      forall k | 0 <= k <= |own|
        ensures MakesCalls(own[..k])
      {
        CutMakesCalls(logs, k);
      }
    }
  }

  lemma {:induction false} BareJoined(logs: seq<seq<Op>>, bares: seq<seq<Op>>)
    requires |bares| == |logs| && forall i :: 0 <= i < |logs| ==> bares[i] == Bare(logs[i])
    ensures Bare(Joined(logs)) == Joined(bares)
    decreases |logs|
  {
    hide IsOrderRead;
    if logs != [] {
      var n := |logs| - 1;
      BareJoined(logs[..n], bares[..n]);
      BareConcat(Joined(logs[..n]), logs[n]);
    }
  }

  /** A series of calls cut at any access: whole calls, and the part of one that is left. */
  lemma {:induction false} CutMakesCalls(logs: seq<seq<Op>>, k: nat)
    requires (forall c :: c in logs ==> IsCall(c)) && k <= |Joined(logs)|
    ensures MakesCalls(Joined(logs)[..k])
    decreases |logs|
  {
    hide IsCall, MakesCalls;
    if logs == [] {
      CutIsCalls([], [], 0);
      assert Joined(logs)[..k] == Joined([]) + [][..0];
    } else {
      var less, last := logs[..|logs| - 1], logs[|logs| - 1];
      if k <= |Joined(less)| {
        CutMakesCalls(less, k);
        assert Joined(logs)[..k] == Joined(less)[..k];
      } else {
        CutIsCalls(less, last, k - |Joined(less)|);
        assert Joined(logs)[..k] == Joined(less) + last[..k - |Joined(less)|];
      }
    }
  }

  lemma CutIsCalls(calls: seq<seq<Op>>, current: seq<Op>, part: nat)
    requires (forall c :: c in calls ==> IsCall(c)) && part <= |current| && (part > 0 ==> IsCall(current))
    ensures MakesCalls(Joined(calls) + current[..part])
  {
    assert IsCut(Joined(calls) + current[..part], calls, current, part);
  }

  // ---------- when the Word and Long calls are serial ----------

  /** The number of a Word or Long call, and the number it returns, as big-endian bytes. */
  function NumberBytes(call: Call): seq<byte>
    requires call.ReadsOutside()
  {
    match call
    case WriteWord(h) => Bytes16(h, false)
    case TransferWord(h) => Bytes16(h, false)
    case WriteLong(w) => Bytes32(w, false)
    case TransferLong(w) => Bytes32(w, false)
  }

  function ReturnedBytes(call: Call, raw: word, after: bool): seq<byte>
    requires call.TransferWord? || call.TransferLong?
  {
    if call.TransferWord? then Bytes16(Number16(raw, after), false) else Bytes32(Number32(raw, after), false)
  }

  lemma ArrangedIsOrdered(call: Call, seen: bool)
    requires call.ReadsOutside()
    ensures var (w, n) := Arranged(call, seen);
            && n == |NumberBytes(call)| && 1 <= n <= 4
            && Leading([w], n) == Ordered(NumberBytes(call), seen)
  {
    hide Bytes16, Bytes32, Word16, Word32, Leading, Ordered;
    match call {
      case WriteWord(h) => ScalarBytes(0, h, 0, seen); ArrangedNumbers(h, 0, seen);
      case TransferWord(h) => ScalarBytes(0, h, 0, seen); ArrangedNumbers(h, 0, seen);
      case WriteLong(w) => ScalarBytes(0, 0, w, seen); ArrangedNumbers(0, w, seen);
      case TransferLong(w) => ScalarBytes(0, 0, w, seen); ArrangedNumbers(0, w, seen);
    }
  }

  lemma ReturnedIsOrdered(call: Call, raw: word, after: bool)
    requires call.TransferWord? || call.TransferLong?
    ensures |ReturnedBytes(call, raw, after)| == |NumberBytes(call)|
    ensures Leading([raw], |NumberBytes(call)|) == Ordered(ReturnedBytes(call, raw, after), after)
  {
    hide Bytes16, Bytes32, Number16, Number32, Leading, Ordered;
    ScalarAnswers(raw, after);
    ArrangedNumbers(Number16(raw, after), Number32(raw, after), after);
  }

  /** spiWriteWord and spiWriteLong in any run: they send what the call sends when it runs whole in some order
      if and only if the order they read is the one they found when they had the lock, or the bytes of the
      number read the same backwards, or every byte does. */
  lemma WritesAreSerialExactly(peer: Peer, start: Device, run: seq<Event>, p: seq<Event>, tail: seq<Event>, t: nat,
                               call: Call, seen: bool)
    requires (call.WriteWord? || call.WriteLong?) && IsLooseRun(peer, start, run)
    requires var (w, n) := Arranged(call, seen); n > 0 && EndsInCall(run, p, tail, t, SendOps(w, n))
    ensures var bs, found := NumberBytes(call), Bus(peer, start, p);
            && Bus(peer, start, run).wire == found.wire + Bits(Ordered(bs, seen), found.cfg.wrBitOrder)
            && ((exists o :: Bus(peer, start, run).wire == found.wire + SentWhole(bs, o))
                <==> seen == found.cfg.wrBitOrder || bs == Rev(bs) || forall b :: b in bs ==> Palindrome(b))
  {
    hide Bus, IsLooseRun, EndsInCall, Leading, Ordered, Arranged, NumberBytes, Palindrome, Rev, SentWhole;
    ArrangedIsOrdered(call, seen);
    WriteCallIsSerialExactly(peer, start, run, p, tail, t, Arranged(call, seen).0, NumberBytes(call), seen);
  }

  /** spiTransferWord and spiTransferLong: what they send and what they return is as when they run whole in
      order o if and only if both the number sent and the number answered are harmless for o; and so they are
      serial if and only if both are harmless for some one order. */
  lemma TransfersAreSerialExactly(peer: Peer, start: Device, run: seq<Event>, p: seq<Event>, tail: seq<Event>, t: nat,
                                  call: Call, seen: bool, raw: word, after: bool)
    requires (call.TransferWord? || call.TransferLong?) && IsLooseRun(peer, start, run)
    requires var (w, n) := Arranged(call, seen); n > 0 && EndsInCall(run, p, tail, t, ExchangeOps(w, n, raw))
    ensures var bs, v := NumberBytes(call), ReturnedBytes(call, raw, after);
            var d, d' := Bus(peer, start, p), Bus(peer, start, run);
            && |d'.wire| == |d.wire| + 8 * |bs|
            && var answer := Received(peer, d'.wire, |d.wire|, |bs|, d.cfg.rdBitOrder);
               && (forall o :: AsWhole(peer, d, d', bs, v, o) <==> BothHarmless(bs, seen, answer, after, d.cfg, o))
               && ((exists o :: AsWhole(peer, d, d', bs, v, o))
                   <==> exists o :: BothHarmless(bs, seen, answer, after, d.cfg, o))
  {
    hide Bus, IsLooseRun, EndsInCall, Leading, Ordered, Arranged, NumberBytes, ReturnedBytes, Received;
    hide AsWhole, BothHarmless;
    ArrangedIsOrdered(call, seen);
    ReturnedIsOrdered(call, raw, after);
    TransferCallIsSerialExactly(peer, start, run, p, tail, t, Arranged(call, seen).0, NumberBytes(call), seen,
                                raw, ReturnedBytes(call, raw, after), after);
  }
}
