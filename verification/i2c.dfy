/** The I2C command-list builder, and a reader of the list that knows only the bus protocol
    (esp32/esp32i2calgorithm.cpp, lines 72-139; NXP UM10204, sections 3.1.4, 3.1.6 and 3.1.10). */
module I2c {
  type uint8 = x: int | 0 <= x < 256

  datatype Result = Total(count: int) | Invalid

  datatype Ack = Ack | LastNack

  /** One entry of an i2c_cmd_handle_t.  Buffers are addresses; Write and Read cover n bytes from there. */
  datatype Cmd =
    | Start
    | WriteByte(b: uint8, checkAck: bool)
    | Write(src: int, n: nat, checkAck: bool)
    | Read(dst: int, n: nat, ack: Ack)
    | Stop

  /** A message as a value. */
  datatype Msg = Msg(address: nat, isRead: bool, repstart: bool, data: int, count: nat)

  const I2C_MASTER_WRITE: nat := 0
  const I2C_MASTER_READ: nat := 1

  // ---------- the list a message vector stands for ----------

  /** address << 1 in a uint16_t, or'ed with the direction, passed as a uint8_t. */
  function AddressByte(address: nat, isRead: bool): uint8 {
    (2 * address % 0x1_0000 + if isRead then I2C_MASTER_READ else I2C_MASTER_WRITE) % 256
  }

  function Data(m: Msg): seq<Cmd> {
    if !m.isRead then [Write(m.data, m.count, true)]
    else if m.count > 1 then [Read(m.data, m.count - 1, Ack), Read(m.data + m.count - 1, 1, LastNack)]
    else [Read(m.data + m.count - 1, 1, LastNack)]
  }

  function Body(m: Msg): seq<Cmd> {
    [WriteByte(AddressByte(m.address, m.isRead), true)] + Data(m)
  }

  function Frame(m: Msg): seq<Cmd> {
    [Start] + Body(m) + if m.repstart then [] else [Stop]
  }

  function CommandList(ms: seq<Msg>): seq<Cmd> {
    if ms == [] then [] else CommandList(ms[..|ms| - 1]) + Frame(ms[|ms| - 1])
  }

  function Count(ms: seq<Msg>): nat {
    if ms == [] then 0 else Count(ms[..|ms| - 1]) + ms[|ms| - 1].count
  }

  // ---------- what the bus does with a list ----------

  /** An address byte; a byte fetched from memory and sent, or received and stored there; and START and STOP.
      checked is whether an acknowledge is asked for, acked whether one is given. */
  datatype BusEvent =
    | Begin
    | Address(b: uint8, checked: bool)
    | Fetch(src: int, checked: bool)
    | Store(dst: int, acked: bool)
    | End

  function Fetches(src: int, n: nat, checked: bool): (es: seq<BusEvent>)
    ensures |es| == n
  {
    seq(n, i => Fetch(src + i, checked))
  }

  function Stores(dst: int, n: nat, acked: bool): (es: seq<BusEvent>)
    ensures |es| == n
  {
    seq(n, i => Store(dst + i, acked))
  }

  function PlayedOne(c: Cmd): seq<BusEvent> {
    match c
    case Start => [Begin]
    case WriteByte(b, checkAck) => [Address(b, checkAck)]
    case Write(src, n, checkAck) => Fetches(src, n, checkAck)
    case Read(dst, n, ack) => Stores(dst, n, ack.Ack?)
    case Stop => [End]
  }

  function Played(cmds: seq<Cmd>): seq<BusEvent> {
    if cmds == [] then [] else Played(cmds[..|cmds| - 1]) + PlayedOne(cmds[|cmds| - 1])
  }

  /** What a message asks of the bus: the low seven address bits with the direction below them, checked; then
      every byte of its buffer, in order, each write checked and each read acknowledged but the last.  An empty
      read still stores one byte, just before its buffer. */
  function BodyScript(m: Msg): seq<BusEvent> {
    [Address(m.address % 128 * 2 + if m.isRead then 1 else 0, true)] +
    if !m.isRead then seq(m.count, i => Fetch(m.data + i, true))
    else if m.count == 0 then [Store(m.data - 1, false)]
    else seq(m.count, i => Store(m.data + i, i < m.count - 1))
  }

  function Script(m: Msg): seq<BusEvent> {
    [Begin] + BodyScript(m) + if m.repstart then [] else [End]
  }

  function Scripts(ms: seq<Msg>): seq<BusEvent> {
    if ms == [] then [] else Scripts(ms[..|ms| - 1]) + Script(ms[|ms| - 1])
  }

  lemma {:induction false} PlayedConcat(a: seq<Cmd>, b: seq<Cmd>)
    ensures Played(a + b) == Played(a) + Played(b)
    decreases |b|
  {
    hide PlayedOne;
    if b == [] {
      assert a + b == a;
    } else {
      assert (a + b)[..|a + b| - 1] == a + b[..|b| - 1];
      PlayedConcat(a, b[..|b| - 1]);
    }
  }

  lemma PlayedSingle(c: Cmd)
    ensures Played([c]) == PlayedOne(c) && Played([]) == []
  {
    assert [c][..0] == [];
  }

  lemma AddressIs(address: nat, isRead: bool)
    ensures AddressByte(address, isRead) == address % 128 * 2 + if isRead then 1 else 0
  {
    AddressSplits(address, isRead);
  }

  lemma DataPlays(m: Msg)
    ensures Played(Data(m)) == BodyScript(m)[1..]
  {
    hide Played;
    PlayedSingle(Data(m)[0]);
    if m.isRead && m.count > 1 {
      var a, b := Data(m)[0], Data(m)[1];
      assert Data(m) == [a] + [b];
      PlayedConcat([a], [b]);
      PlayedSingle(b);
    } else {
      assert Data(m) == [Data(m)[0]];
    }
  }

  lemma BodyPlays(m: Msg)
    ensures Played(Body(m)) == BodyScript(m)
  {
    hide Played, Data, AddressByte;
    var b := WriteByte(AddressByte(m.address, m.isRead), true);
    AddressIs(m.address, m.isRead);
    PlayedConcat([b], Data(m));
    PlayedSingle(b);
    DataPlays(m);
  }

  lemma FramePlays(m: Msg)
    ensures Played(Frame(m)) == Script(m)
  {
    hide Played, Body, BodyScript;
    var stop := if m.repstart then [] else [Stop];
    PlayedConcat([Start], Body(m));
    PlayedConcat([Start] + Body(m), stop);
    PlayedSingle(Start);
    PlayedSingle(Stop);
    BodyPlays(m);
  }

  /** A list does on the bus what its messages ask for, one after the other. */
  lemma {:induction false} ListPlays(ms: seq<Msg>)
    ensures Played(CommandList(ms)) == Scripts(ms)
    decreases |ms|
  {
    hide Played, Frame, Script;
    if ms == [] {
      PlayedSingle(Start);
    } else {
      var p, m := ms[..|ms| - 1], ms[|ms| - 1];
      ListPlays(p);
      PlayedConcat(CommandList(p), Frame(m));
      FramePlays(m);
    }
  }

  // ---------- the builder ----------

  class I2cMessage {
    const msg: Msg
    var index: nat

    constructor (msg: Msg)
      ensures this.msg == msg && index == 0
    {
      this.msg, index := msg, 0;
    }
  }

  class CommandLink {
    var cmds: seq<Cmd>

    constructor ()
      ensures cmds == []
    {
      cmds := [];
    }

    method Append(c: Cmd)
      modifies this
      ensures cmds == old(cmds) + [c]
    {
      cmds := cmds + [c];
    }
  }

  /** prepareTransfer. */
  method PrepareTransfer(handle: CommandLink, msg: I2cMessage)
    modifies handle, msg
    ensures handle.cmds == old(handle.cmds) + Body(msg.msg)
    ensures Played(handle.cmds) == old(Played(handle.cmds)) + BodyScript(msg.msg)
    ensures msg.index == if msg.msg.isRead then msg.msg.count else old(msg.index)
  {
    hide Played, BodyScript;
    var address := 2 * msg.msg.address % 0x1_0000;
    var data := msg.msg.data;
    if msg.msg.isRead {
      handle.Append(WriteByte((address + I2C_MASTER_READ) % 256, true));
      if msg.msg.count > 1 {
        handle.Append(Read(data, msg.msg.count - 1, Ack));
      }
      handle.Append(Read(data + msg.msg.count - 1, 1, LastNack));
      msg.index := msg.msg.count;
    } else {
      handle.Append(WriteByte((address + I2C_MASTER_WRITE) % 256, true));
      handle.Append(Write(data, msg.msg.count, true));
    }
    PlayedConcat(old(handle.cmds), Body(msg.msg));
    BodyPlays(msg.msg);
  }

  function Values(msgs: seq<I2cMessage>): (ms: seq<Msg>)
    ensures |ms| == |msgs|
  {
    seq(|msgs|, i requires 0 <= i < |msgs| => msgs[i].msg)
  }

  /** START, the message, and STOP unless a repeated start is asked for. */
  method Emit(handle: CommandLink, msg: I2cMessage, stop: bool)
    modifies handle, msg
    ensures handle.cmds == old(handle.cmds) + Frame(msg.msg.(repstart := !stop))
    ensures msg.index == if msg.msg.isRead then msg.msg.count else old(msg.index)
  {
    hide AddressByte, Played, BodyScript;
    handle.Append(Start);
    PrepareTransfer(handle, msg);
    if stop {
      handle.Append(Stop);
    }
  }

  lemma SnocList(ms: seq<Msg>, m: Msg)
    ensures CommandList(ms + [m]) == CommandList(ms) + Frame(m) && Count(ms + [m]) == Count(ms) + m.count
  {
    hide Frame;
    assert (ms + [m])[..|ms + [m]| - 1] == ms;
  }

  lemma SnocValues(msgs: seq<I2cMessage>, i: nat)
    requires i < |msgs|
    ensures Values(msgs[..i + 1]) == Values(msgs[..i]) + [msgs[i].msg]
  {
  }

  /** transfer of a vector; busOk is whether the bus accepted the whole list. */
  method TransferAll(msgs: seq<I2cMessage>, busOk: bool) returns (r: Result, handle: CommandLink)
    requires forall i, j :: 0 <= i < j < |msgs| ==> msgs[i] != msgs[j]
    modifies set m | m in msgs
    ensures fresh(handle) && handle.cmds == CommandList(Values(msgs))
    ensures Played(handle.cmds) == Scripts(Values(msgs))
    ensures r == if busOk then Total(Count(Values(msgs))) else Invalid
    ensures forall m :: m in msgs ==> m.index == if m.msg.isRead then m.msg.count else old(m.index)
  {
    hide CommandList, Count, Values, Frame, Played, Scripts;
    handle := new CommandLink();
    var total := 0;
    var i := 0;
    NoMessages(msgs);
    while i < |msgs|
      invariant 0 <= i <= |msgs| && fresh(handle)
      invariant handle.cmds == CommandList(Values(msgs[..i])) && total == Count(Values(msgs[..i]))
      invariant forall k :: 0 <= k < i ==>
                  msgs[k].index == if msgs[k].msg.isRead then msgs[k].msg.count else old(msgs[k].index)
      invariant forall k :: i <= k < |msgs| ==> msgs[k].index == old(msgs[k].index)
    {
      var msg := msgs[i];
      SnocValues(msgs, i);
      SnocList(Values(msgs[..i]), msg.msg);
      Emit(handle, msg, !msg.msg.repstart);
      if total >= 0 {
        total := total + msg.msg.count;
      }
      i := i + 1;
    }
    assert msgs[..i] == msgs;
    ListPlays(Values(msgs));
    return if busOk then Total(total) else Invalid, handle;
  }

  lemma NoMessages(msgs: seq<I2cMessage>)
    ensures CommandList(Values(msgs[..0])) == [] && Count(Values(msgs[..0])) == 0
  {
  }

  /** transfer of one message: always stopped. */
  method TransferOne(msg: I2cMessage, busOk: bool) returns (r: Result, handle: CommandLink)
    modifies msg
    ensures fresh(handle) && handle.cmds == CommandList([msg.msg.(repstart := false)])
    ensures Played(handle.cmds) == Script(msg.msg.(repstart := false))
    ensures r == if busOk then Total(msg.msg.count) else Invalid
    ensures msg.index == if msg.msg.isRead then msg.msg.count else old(msg.index)
  {
    hide CommandList, Count, Frame, Played, Script;
    handle := new CommandLink();
    Emit(handle, msg, true);
    FramePlays(msg.msg.(repstart := false));
    SingleList(msg.msg.(repstart := false));
    return if busOk then Total(msg.msg.count) else Invalid, handle;
  }

  lemma SingleList(m: Msg)
    ensures CommandList([m]) == Frame(m) && Count([m]) == m.count
  {
    assert [m][..0] == [];
  }

  /** The two agree exactly for messages that ask for no repeated start. */
  lemma OneIsVectorOfOne(m: Msg)
    ensures CommandList([m.(repstart := false)]) == CommandList([m]) <==> !m.repstart
  {
    SingleList(m);
    SingleList(m.(repstart := false));
    assert Frame(m.(repstart := false)) == [Start] + Body(m) + [Stop];
    if m.repstart {
      assert |Frame(m)| + 1 == |Frame(m.(repstart := false))|;
    }
  }

  // ---------- reading the list back ----------

  /** What a bus analyser sees of a message: between a START and what ends it. */
  datatype Seen = Seen(address: nat, isRead: bool, count: nat, repstart: bool)

  /** The bytes that move in a stretch of commands, up to the next START or STOP. */
  function Moved(cmds: seq<Cmd>): nat {
    if cmds == [] then 0
    else match cmds[0]
      case Read(_, n, _) => n + Moved(cmds[1..])
      case Write(_, n, _) => n + Moved(cmds[1..])
      case WriteByte(_, _) => 1 + Moved(cmds[1..])
      case _ => 0
  }

  /** The commands after those. */
  function After(cmds: seq<Cmd>): (rest: seq<Cmd>)
    ensures |rest| <= |cmds|
  {
    if cmds == [] then []
    else match cmds[0]
      case Start => cmds
      case Stop => cmds
      case _ => After(cmds[1..])
  }

  /** Framing: every message is START, an address byte, data, and STOP unless another START follows. */
  function Parse(cmds: seq<Cmd>): (r: seq<Seen>)
    decreases |cmds|
  {
    if |cmds| < 2 || !cmds[0].Start? || !cmds[1].WriteByte? then []
    else
      var b := cmds[1].b;
      var rest := After(cmds[2..]);
      var stopped := rest != [] && rest[0].Stop?;
      [Seen(b / 2, b % 2 == 1, Moved(cmds[2..]), !stopped)] + Parse(if stopped then rest[1..] else rest)
  }

  function Describe(ms: seq<Msg>): (r: seq<Seen>)
    ensures |r| == |ms|
  {
    seq(|ms|, i requires 0 <= i < |ms| => Seen(ms[i].address, ms[i].isRead, ms[i].count, ms[i].repstart))
  }

  /** Messages the protocol can carry: 7-bit addresses, and reads of at least one byte. */
  predicate Carried(m: Msg) {
    m.address < 128 && (m.isRead ==> 1 <= m.count)
  }

  /** What the analyser sees of one message. */
  function SeenOf(m: Msg): Seen {
    Seen(m.address % 128, m.isRead, if m.isRead && m.count == 0 then 1 else m.count, m.repstart)
  }

  lemma AddressSplits(address: nat, isRead: bool)
    ensures var b := AddressByte(address, isRead); b / 2 == address % 128 && (b % 2 == 1 <==> isRead)
  {
    var h, l, k := address / 128, address % 128, 2 * address / 0x1_0000;
    var d := if isRead then I2C_MASTER_READ else I2C_MASTER_WRITE;
    assert 2 * address % 0x1_0000 + d == 256 * (h - 256 * k) + (2 * l + d);
    LowByte(2 * address % 0x1_0000 + d, h - 256 * k, 2 * l + d);
  }

  lemma LowByte(x: int, m: int, y: int)
    requires x == 256 * m + y && 0 <= y < 256
    ensures x % 256 == y
  {
  }

  lemma MoveOne(c: Cmd, s: seq<Cmd>)
    requires c.Read? || c.Write?
    ensures Moved([c] + s) == c.n + Moved(s) && After([c] + s) == After(s)
  {
    assert ([c] + s)[1..] == s;
  }

  /** The data of a message moves its bytes, and ends where the next START or STOP is. */
  lemma DataMoves(m: Msg, tail: seq<Cmd>)
    requires tail == [] || tail[0].Start? || tail[0].Stop?
    ensures Moved(Data(m) + tail) == SeenOf(m).count && After(Data(m) + tail) == tail
  {
    assert Moved(tail) == 0 && After(tail) == tail;
    if m.isRead && m.count > 1 {
      var a, b := Read(m.data, m.count - 1, Ack), Read(m.data + m.count - 1, 1, LastNack);
      assert Data(m) + tail == [a] + ([b] + tail);
      MoveOne(a, [b] + tail);
      MoveOne(b, tail);
    } else {
      assert Data(m) == [Data(m)[0]];
      MoveOne(Data(m)[0], tail);
    }
  }

  lemma FrameParses(m: Msg, rest: seq<Cmd>)
    requires rest == [] || rest[0].Start?
    ensures Parse(Frame(m) + rest) == [SeenOf(m)] + Parse(rest)
  {
    hide Data, Moved, After, AddressByte;
    var b := AddressByte(m.address, m.isRead);
    var stop := if m.repstart then [] else [Stop];
    var tail := stop + rest;
    assert Frame(m) + rest == [Start, WriteByte(b, true)] + (Data(m) + tail);
    var cmds := Frame(m) + rest;
    assert cmds[2..] == Data(m) + tail;
    DataMoves(m, tail);
    AddressSplits(m.address, m.isRead);
    if m.repstart {
      assert tail == rest;
    } else {
      assert tail[1..] == rest;
    }
  }

  function SeenAll(ms: seq<Msg>): (r: seq<Seen>)
    ensures |r| == |ms|
  {
    seq(|ms|, i requires 0 <= i < |ms| => SeenOf(ms[i]))
  }

  lemma {:induction false} ListParses(ms: seq<Msg>, rest: seq<Cmd>)
    requires rest == [] || rest[0].Start?
    ensures Parse(CommandList(ms) + rest) == SeenAll(ms) + Parse(rest)
    decreases |ms|
  {
    hide Parse, SeenOf, Frame;
    if ms == [] {
      assert CommandList(ms) + rest == rest && SeenAll(ms) == [];
    } else {
      var p, m := ms[..|ms| - 1], ms[|ms| - 1];
      LastFrame(ms, rest);
      ListParses(p, Frame(m) + rest);
      FrameParses(m, rest);
      LastSeen(ms, Parse(rest));
    }
  }

  lemma LastFrame(ms: seq<Msg>, rest: seq<Cmd>)
    requires ms != []
    ensures var p, m := ms[..|ms| - 1], ms[|ms| - 1];
            && CommandList(ms) + rest == CommandList(p) + (Frame(m) + rest)
            && (Frame(m) + rest)[0].Start?
  {
    hide Body;
  }

  lemma LastSeen(ms: seq<Msg>, rest: seq<Seen>)
    requires ms != []
    ensures SeenAll(ms) + rest == SeenAll(ms[..|ms| - 1]) + ([SeenOf(ms[|ms| - 1])] + rest)
  {
    hide SeenOf;
    assert SeenAll(ms) == SeenAll(ms[..|ms| - 1]) + [SeenOf(ms[|ms| - 1])];
  }

  /** What an analyser reads back from any list. */
  lemma ParseIs(ms: seq<Msg>)
    ensures Parse(CommandList(ms)) ==
            seq(|ms|, i requires 0 <= i < |ms| =>
              Seen(ms[i].address % 128, ms[i].isRead, if ms[i].isRead && ms[i].count == 0 then 1 else ms[i].count,
                   ms[i].repstart))
  {
    hide Parse, CommandList;
    ListParses(ms, []);
    assert CommandList(ms) + [] == CommandList(ms);
    NothingParsed();
  }

  /** Reading the list back gives every message its address, direction, length and repeated-start flag,
      exactly when every address has 7 bits and every read has at least one byte. */
  lemma RoundTrip(ms: seq<Msg>)
    ensures Parse(CommandList(ms)) == Describe(ms) <==> forall m :: m in ms ==> Carried(m)
  {
    hide Parse, CommandList;
    ListParses(ms, []);
    assert CommandList(ms) + [] == CommandList(ms);
    assert Parse([]) == [] by { NothingParsed(); }
    if Parse(CommandList(ms)) == Describe(ms) {
      forall m | m in ms
        ensures Carried(m)
      {
        var i :| 0 <= i < |ms| && ms[i] == m;
        assert SeenAll(ms)[i] == Describe(ms)[i];
      }
    }
    if forall m :: m in ms ==> Carried(m) {
      forall i | 0 <= i < |ms|
        ensures SeenAll(ms)[i] == Describe(ms)[i]
      {
        assert ms[i] in ms;
      }
    }
  }

  lemma NothingParsed()
    ensures Parse([]) == []
  {
  }

  // ---------- framing ----------

  /** The list releases the bus at the end exactly when the last message asks for no repeated start. */
  lemma EndsInStop(ms: seq<Msg>)
    requires ms != []
    ensures CommandList(ms) != []
    ensures CommandList(ms)[|CommandList(ms)| - 1] == Stop <==> !ms[|ms| - 1].repstart
  {
    var p, m := ms[..|ms| - 1], ms[|ms| - 1];
    assert CommandList(ms) == CommandList(p) + Frame(m);
    assert Body(m)[|Body(m)| - 1] == Data(m)[|Data(m)| - 1];
  }

  lemma FrameStarts(m: Msg)
    ensures Frame(m)[0] == Start && forall k :: 0 < k < |Frame(m)| ==> Frame(m)[k] != Start
  {
  }

  /** Where message i + 1 begins. */
  function Boundary(ms: seq<Msg>, i: nat): nat
    requires i < |ms|
  {
    |CommandList(ms[..i + 1])|
  }

  /** Every START but the first follows a STOP, or a message that asked for a repeated start. */
  lemma {:induction false} StartsAreSound(ms: seq<Msg>, k: nat)
    requires 0 < k < |CommandList(ms)| && CommandList(ms)[k] == Start
    ensures || CommandList(ms)[k - 1] == Stop
            || exists i: nat :: i < |ms| - 1 && k == Boundary(ms, i) && ms[i].repstart
    decreases |ms|
  {
    hide Frame;
    var p, m := ms[..|ms| - 1], ms[|ms| - 1];
    var n := |CommandList(p)|;
    FrameStarts(m);
    if k < n {
      StartsAreSound(p, k);
      if CommandList(p)[k - 1] != Stop {
        var i: nat :| i < |p| - 1 && k == Boundary(p, i) && p[i].repstart;
        assert p[..i + 1] == ms[..i + 1];
        assert k == Boundary(ms, i) && ms[i].repstart;
      }
    } else {
      assert k == n;
      assert p != [] by { assert CommandList([]) == []; }
      EndsInStop(p);
      assert ms[..|ms| - 2 + 1] == p;
      assert k == Boundary(ms, |ms| - 2);
    }
  }

  // ---------- bytes ----------

  /** The bytes a list transfers, address bytes aside. */
  function DataBytes(cmds: seq<Cmd>): nat {
    if cmds == [] then 0
    else DataBytes(cmds[..|cmds| - 1]) +
         (match cmds[|cmds| - 1] case Read(_, n, _) => n case Write(_, n, _) => n case _ => 0)
  }

  lemma {:induction false} DataBytesConcat(a: seq<Cmd>, b: seq<Cmd>)
    ensures DataBytes(a + b) == DataBytes(a) + DataBytes(b)
    decreases |b|
  {
    if b == [] {
      assert a + b == a;
    } else {
      assert (a + b)[..|a + b| - 1] == a + b[..|b| - 1];
      DataBytesConcat(a, b[..|b| - 1]);
    }
  }

  lemma DataBytesOne(c: Cmd)
    ensures DataBytes([c]) == match c case Read(_, n, _) => n case Write(_, n, _) => n case _ => 0
  {
    assert [c][..0] == [];
  }

  lemma FrameBytes(m: Msg)
    ensures DataBytes(Frame(m)) == SeenOf(m).count
  {
    hide DataBytes, AddressByte;
    var b := AddressByte(m.address, m.isRead);
    var stop := if m.repstart then [] else [Stop];
    assert Frame(m) == [Start] + ([WriteByte(b, true)] + (Data(m) + stop));
    DataBytesConcat([Start], [WriteByte(b, true)] + (Data(m) + stop));
    DataBytesConcat([WriteByte(b, true)], Data(m) + stop);
    DataBytesConcat(Data(m), stop);
    DataBytesOne(Start);
    DataBytesOne(WriteByte(b, true));
    DataBytesOne(Stop);
    assert DataBytes([]) == 0 by { NoBytes(); }
    if m.isRead && m.count > 1 {
      assert Data(m) == [Data(m)[0]] + [Data(m)[1]];
      DataBytesConcat([Data(m)[0]], [Data(m)[1]]);
      DataBytesOne(Data(m)[0]);
      DataBytesOne(Data(m)[1]);
    } else {
      assert Data(m) == [Data(m)[0]];
      DataBytesOne(Data(m)[0]);
    }
  }

  lemma NoBytes()
    ensures DataBytes([]) == 0
  {
  }

  function EmptyReads(ms: seq<Msg>): nat {
    if ms == [] then 0
    else EmptyReads(ms[..|ms| - 1]) + if ms[|ms| - 1].isRead && ms[|ms| - 1].count == 0 then 1 else 0
  }

  /** The total returned is the number of data bytes queued, exactly when no read is empty: an empty read
      still queues a byte. */
  lemma {:induction false} TotalIsBytesQueued(ms: seq<Msg>)
    ensures DataBytes(CommandList(ms)) == Count(ms) + EmptyReads(ms)
    ensures Count(ms) == DataBytes(CommandList(ms)) <==> forall m :: m in ms ==> m.isRead ==> 1 <= m.count
    decreases |ms|
  {
    hide DataBytes, Frame;
    if ms == [] {
      NoBytes();
    } else {
      var p, m := ms[..|ms| - 1], ms[|ms| - 1];
      TotalIsBytesQueued(p);
      DataBytesConcat(CommandList(p), Frame(m));
      FrameBytes(m);
      assert ms == p + [m];
    }
  }

  // ---------- reads ----------

  /** For each byte read: where it is stored, and whether it is acknowledged. */
  function Reads(cmds: seq<Cmd>): seq<(int, bool)> {
    if cmds == [] then []
    else Reads(cmds[..|cmds| - 1]) +
         (match cmds[|cmds| - 1] case Read(dst, n, ack) => seq(n, i => (dst + i, ack.Ack?)) case _ => [])
  }

  lemma ReadsOfBody(m: Msg)
    ensures Reads(Body(m)) == if !m.isRead then []
                              else if m.count == 0 then [(m.data - 1, false)]
                              else seq(m.count, i => (m.data + i, i < m.count - 1))
  {
    var b := WriteByte(AddressByte(m.address, m.isRead), true);
    assert [b][..0] == [];
    assert Reads([b]) == [];
    if m.isRead && m.count > 1 {
      var c, d := Data(m)[0], Data(m)[1];
      assert Body(m) == [b] + [c] + [d];
      assert ([b] + [c] + [d])[..2] == [b] + [c] && ([b] + [c])[..1] == [b];
      assert Reads([b] + [c]) == seq(m.count - 1, i => (m.data + i, true));
    } else {
      assert Body(m) == [b] + [Data(m)[0]];
      assert ([b] + [Data(m)[0]])[..1] == [b];
    }
  }

  /** A read of n >= 1 bytes fills its buffer byte by byte, without gap or overlap, and acknowledges every
      byte but the last.  An empty read stores one byte, just before its buffer. */
  lemma ReadRule(m: Msg)
    requires m.isRead
    ensures Reads(Body(m)) == seq(m.count, i => (m.data + i, i < m.count - 1)) <==> 1 <= m.count
    ensures m.count == 0 ==> Reads(Body(m)) == [(m.data - 1, false)]
  {
    hide Reads, Body;
    ReadsOfBody(m);
    if m.count == 0 {
      assert |Reads(Body(m))| == 1;
    }
  }
}
