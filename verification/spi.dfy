/** The SPI master driver over one controller (esp32/esp32spi.c). */
module SpiDriver {
  import opened SpiClock
  import opened Wire
  import opened SpiDevice
  import opened SpiWords

  /** The number of bytes of one command: at most the whole FIFO. */
  function Chunk(bytes: nat): nat {
    if bytes > 64 then 64 else bytes
  }

  /** memcpy to out + o. */
  method CopyOut(out: array<byte>, o: nat, bs: seq<byte>)
    requires o + |bs| <= out.Length
    modifies out
    ensures out[..] == Spliced(old(out[..]), o, bs)
  {
    forall k | 0 <= k < |bs| {
      out[o + k] := bs[k];
    }
    assert out[..] == Spliced(old(out[..]), o, bs);
  }

  /** for (i = 0; i < n; i++) result[i] = ws[i]; */
  method CopyWordsOut(result: array<word>, r: nat, ws: seq<word>)
    requires r + |ws| <= result.Length
    modifies result
    ensures result[..] == Spliced(old(result[..]), r, ws)
  {
    forall k | 0 <= k < |ws| {
      result[r + k] := ws[k];
    }
    assert result[..] == Spliced(old(result[..]), r, ws);
  }

  /** A bus: its controller registers and its mutex.  mosiDlen, misoDlen and dataBuf are scratch: every
      transfer sets them up afresh. */
  class Spi {
    const peer: Peer
    const dataBuf: array<word>
    var lockCreated: bool
    var locked: bool
    var clock: uint32
    var idleEdge: bool
    var outEdge: bool
    var wrBitOrder: bool
    var rdBitOrder: bool
    var usrMosi: bool
    var usrMiso: bool
    var doutdin: bool
    var mosiDlen: nat
    var misoDlen: nat
    /** Registers that only spiStopBus touches. */
    var slaveTransDone: bool
    var slaveMode: bool
    var user1: bv32
    var ctrl1: bv32
    var ctrl2: bv32
    /** Every bit sent so far. */
    var wire: seq<bool>
    /** The accesses since the lock was last taken, or since the bus was started; the state they started
        from; and their summary. */
    ghost var log: seq<Op>
    ghost var origin: Device
    ghost var session: Session
    /** The accesses before those. */
    ghost var past: seq<Op>

    function Cfg(): Config
      reads this
    {
      Config(clock, idleEdge, outEdge, wrBitOrder, rdBitOrder)
    }

    function Dev(): Device
      reads this, dataBuf
    {
      Device(Cfg(), mosiDlen, misoDlen, dataBuf[..], wire)
    }

    /** A bus with a mutex, whose state is what its log of accesses produces. */
    ghost predicate Valid()
      reads this, dataBuf
      ensures Valid() ==> dataBuf.Length == FIFO_WORDS == 16 && session.held == locked
      ensures Valid() && locked ==> log != [] && log[0].Take?
    {
      && dataBuf.Length == FIFO_WORDS
      && lockCreated
      && session == Summary(log)
      && session.held == locked
      && (locked ==> log != [] && log[0].Take?)
      && Dev() == Replay(peer, origin, log)
    }

    /** spiStartBus has enabled full-duplex commands. */
    predicate Started()
      reads this`usrMosi, this`usrMiso, this`doutdin
    {
      usrMosi && usrMiso && doutdin
    }

    /** A call inside a session: the lock is left as it was, and a session that has obeyed the discipline so
        far still does. */
    twostate predicate Within()
      reads this
    {
      && session.held == old(session.held)
      && (old(session.held && session.ok) ==> session.ok)
    }

    /** A call that takes the lock, obeys the discipline and gives the lock back: its accesses are log, from
        the state it found, whatever that was. */
    twostate predicate Balanced()
      reads this
    {
      past == old(past + log) && origin == old(Dev()) && IsCall(log)
    }

    // ---------- single accesses ----------

    method Lock()
      requires Valid() && !locked
      modifies this`locked, this`past, this`origin, this`log, this`session
      ensures Valid() && locked && past == old(past + log) && log == [Take] && origin == old(Dev())
      ensures session == Session(true, None, None, [], true)
    {
      hide Command, Replay, Summary;
      LogStep(peer, Dev(), [], Take);
      EmptyLog(peer, Dev());
      assert [Take] == [] + [Take];
      past, origin := past + log, Dev();
      locked, log, session := true, [Take], Next(IDLE, Take);
    }

    method Unlock()
      requires Valid() && locked
      modifies this`locked, this`log, this`session
      ensures Valid() && !locked && log == old(log) + [Give] && session == Next(old(session), Give)
      ensures old(session.ok) ==> IsCall(log)
    {
      hide Command, Replay, Summary;
      LogStep(peer, origin, log, Give);
      locked, log, session := false, log + [Give], Next(session, Give);
    }

    method SetMosiBits(n: nat)
      requires Valid()
      modifies this`mosiDlen, this`log, this`session
      ensures Valid() && mosiDlen == n
      ensures log == old(log) + [SetMosiDlen(n)] && session == Next(old(session), SetMosiDlen(n))
    {
      hide Command, Replay, Summary;
      LogStep(peer, origin, log, SetMosiDlen(n));
      mosiDlen, log, session := n, log + [SetMosiDlen(n)], Next(session, SetMosiDlen(n));
    }

    method SetMisoBits(n: nat)
      requires Valid()
      modifies this`misoDlen, this`log, this`session
      ensures Valid() && misoDlen == n
      ensures log == old(log) + [SetMisoDlen(n)] && session == Next(old(session), SetMisoDlen(n))
    {
      hide Command, Replay, Summary;
      LogStep(peer, origin, log, SetMisoDlen(n));
      misoDlen, log, session := n, log + [SetMisoDlen(n)], Next(session, SetMisoDlen(n));
    }

    method LoadWord(i: nat, w: word)
      requires Valid() && i < FIFO_WORDS
      modifies dataBuf, this`log, this`session
      ensures Valid() && dataBuf[..] == old(dataBuf[..])[i := w]
      ensures log == old(log) + [Load(i, w)] && session == Next(old(session), Load(i, w))
    {
      hide Command, Replay, Summary;
      LogStep(peer, origin, log, Load(i, w));
      log, session := log + [Load(i, w)], Next(session, Load(i, w));
      dataBuf[i] := w;
      assert dataBuf[..] == old(dataBuf[..])[i := w];
    }

    method ReadWord(i: nat) returns (w: word)
      requires Valid() && i < FIFO_WORDS
      modifies this`log, this`session
      ensures Valid() && w == dataBuf[i]
      ensures log == old(log) + [Unload(i, w)] && session == Next(old(session), Unload(i, w))
    {
      hide Command, Replay, Summary;
      w := dataBuf[i];
      LogStep(peer, origin, log, Unload(i, w));
      log, session := log + [Unload(i, w)], Next(session, Unload(i, w));
    }

    method WriteClock(v: uint32)
      requires Valid()
      modifies this`clock, this`log, this`session
      ensures Valid() && clock == v
      ensures log == old(log) + [SetClock(v)] && session == Next(old(session), SetClock(v))
    {
      hide Command, Replay, Summary;
      LogStep(peer, origin, log, SetClock(v));
      clock, log, session := v, log + [SetClock(v)], Next(session, SetClock(v));
    }

    method WriteIdleEdge(v: bool)
      requires Valid()
      modifies this`idleEdge, this`log, this`session
      ensures Valid() && idleEdge == v
      ensures log == old(log) + [SetIdleEdge(v)] && session == Next(old(session), SetIdleEdge(v))
    {
      hide Command, Replay, Summary;
      LogStep(peer, origin, log, SetIdleEdge(v));
      idleEdge, log, session := v, log + [SetIdleEdge(v)], Next(session, SetIdleEdge(v));
    }

    method WriteOutEdge(v: bool)
      requires Valid()
      modifies this`outEdge, this`log, this`session
      ensures Valid() && outEdge == v
      ensures log == old(log) + [SetOutEdge(v)] && session == Next(old(session), SetOutEdge(v))
    {
      hide Command, Replay, Summary;
      LogStep(peer, origin, log, SetOutEdge(v));
      outEdge, log, session := v, log + [SetOutEdge(v)], Next(session, SetOutEdge(v));
    }

    method WriteWrOrder(v: bool)
      requires Valid()
      modifies this`wrBitOrder, this`log, this`session
      ensures Valid() && wrBitOrder == v
      ensures log == old(log) + [SetWrOrder(v)] && session == Next(old(session), SetWrOrder(v))
    {
      hide Command, Replay, Summary;
      LogStep(peer, origin, log, SetWrOrder(v));
      wrBitOrder, log, session := v, log + [SetWrOrder(v)], Next(session, SetWrOrder(v));
    }

    method WriteRdOrder(v: bool)
      requires Valid()
      modifies this`rdBitOrder, this`log, this`session
      ensures Valid() && rdBitOrder == v
      ensures log == old(log) + [SetRdOrder(v)] && session == Next(old(session), SetRdOrder(v))
    {
      hide Command, Replay, Summary;
      LogStep(peer, origin, log, SetRdOrder(v));
      rdBitOrder, log, session := v, log + [SetRdOrder(v)], Next(session, SetRdOrder(v));
    }

    method GetWrOrder() returns (v: bool)
      requires Valid()
      modifies this`log, this`session
      ensures Valid() && v == wrBitOrder
      ensures log == old(log) + [ReadWrOrder(v)] && session == Next(old(session), ReadWrOrder(v))
    {
      hide Command, Replay, Summary;
      v := wrBitOrder;
      LogStep(peer, origin, log, ReadWrOrder(v));
      log, session := log + [ReadWrOrder(v)], Next(session, ReadWrOrder(v));
    }

    method GetRdOrder() returns (v: bool)
      requires Valid()
      modifies this`log, this`session
      ensures Valid() && v == rdBitOrder
      ensures log == old(log) + [ReadRdOrder(v)] && session == Next(old(session), ReadRdOrder(v))
    {
      hide Command, Replay, Summary;
      v := rdBitOrder;
      LogStep(peer, origin, log, ReadRdOrder(v));
      log, session := log + [ReadRdOrder(v)], Next(session, ReadRdOrder(v));
    }

    /** cmd.usr = 1; while(cmd.usr); */
    method RunCommand()
      requires Valid() && Started() && CanFire(Dev())
      modifies dataBuf, this`wire, this`log, this`session
      ensures Valid()
      ensures wire == Command(peer, old(Dev())).wire && dataBuf[..] == Command(peer, old(Dev())).fifo
      ensures log == old(log) + [Fire] && session == Next(old(session), Fire)
    {
      hide Overwrite, FifoBits, Response, Replay, Summary;
      LogStep(peer, origin, log, Fire);
      var after := Command(peer, Dev());
      log, session := log + [Fire], Next(session, Fire);
      wire := after.wire;
      forall i | 0 <= i < dataBuf.Length {
        dataBuf[i] := after.fifo[i];
      }
      assert dataBuf[..] == after.fifo;
    }
  
    /** for (i = 0; i < n; i++) data_buf[i] = ws[i]; */
    method LoadFifo(ws: seq<word>)
      requires Valid() && 1 <= |ws| <= FIFO_WORDS
      modifies dataBuf, this`log, this`session
      ensures Valid()
      ensures dataBuf[..|ws|] == ws
      ensures |ws| <= |session.words|
      ensures session == old(session).(words := session.words, ok := old(session.ok && session.held))
    {
      hide Summary, Replay;
      var i := 0;
      while i < |ws|
        invariant 0 <= i <= |ws| && Valid()
        invariant dataBuf[..i] == ws[..i]
        invariant i <= |session.words|
        invariant session == old(session).(words := session.words, ok := session.ok)
        invariant session.ok == old(session.ok && (i == 0 || session.held))
      {
        LoadWord(i, ws[i]);
        i := i + 1;
      }
    }

    /** for (i = 0; i < n; i++) ws[i] = data_buf[i]; */
    method UnloadFifo(n: nat) returns (ws: seq<word>)
      requires Valid() && n <= FIFO_WORDS
      modifies this`log, this`session
      ensures Valid()
      ensures ws == dataBuf[..n]
      ensures session == old(session).(ok := session.ok)
      ensures Within()
    {
      hide Summary, Replay;
      ws := [];
      var i := 0;
      while i < n
        invariant 0 <= i <= n && Valid()
        invariant ws == dataBuf[..i]
        invariant session == old(session).(ok := session.ok)
        invariant Within()
      {
        var w := ReadWord(i);
        ws := ws + [w];
        i := i + 1;
      }
    }

    // ---------- commands ----------

    /** Both lengths, and the words of a command of n bytes. */
    method SetUpBytes(ws: seq<word>, n: nat, miso: nat)
      requires Valid() && 1 <= n <= 64 && |ws| == WordsFor(n) && miso < 8 * n
      modifies this`mosiDlen, this`misoDlen, dataBuf, this`log, this`session
      ensures Valid() && mosiDlen == 8 * n - 1 && misoDlen == miso && dataBuf[..|ws|] == ws
      ensures Ready(session) && session.held == old(session.held) && session.ok == old(session.ok && session.held)
    {
      hide Valid;
      SetMosiBits(n * 8 - 1);
      SetMisoBits(miso);
      LoadFifo(ws);
    }

    /** Set up and run a full-duplex command of n bytes, whose words are given. */
    method ExchangeBytes(ws: seq<word>, n: nat) returns (ghost got: seq<byte>)
      requires Valid() && Started() && 1 <= n <= 64 && |ws| == WordsFor(n)
      modifies this`mosiDlen, this`misoDlen, dataBuf, this`wire, this`log, this`session
      ensures Valid() && Within()
      ensures Exchanged(peer, old(wire), wire, BytesOf(ws)[..n], got, wrBitOrder, rdBitOrder)
      ensures |got| == n && BytesOf(dataBuf[..|ws|]) == got + BytesOf(ws)[n..]
    {
      hide Bits, Received, BytesOf, Command, CanFire, Valid, Ready;
      SetUpBytes(ws, n, n * 8 - 1);
      LoadedCommand(peer, Dev(), ws, n);
      RunCommand();
      got := Received(peer, wire, |old(wire)|, n, rdBitOrder);
      BytesOfPrefix(dataBuf[..], |ws|);
    }

    /** Set up and run a command that sends n bytes and ignores the answer. */
    method SendBytes(ws: seq<word>, n: nat)
      requires Valid() && Started() && 1 <= n <= 64 && |ws| == WordsFor(n)
      modifies this`mosiDlen, this`misoDlen, dataBuf, this`wire, this`log, this`session
      ensures Valid() && Within()
      ensures wire == old(wire) + Bits(BytesOf(ws)[..n], wrBitOrder)
    {
      hide Bits, Received, BytesOf, Command, CanFire, Valid, Ready;
      SetUpBytes(ws, n, 0);
      LoadedCommand(peer, Dev(), ws, n);
      RunCommand();
    }

    // ---------- byte-chunked transfers ----------

    /** __spiTransferBytes: one command; more than 64 bytes count as 64. */
    method TransferChunk(data: array?<byte>, d: nat, out: array?<byte>, o: nat, bytes: nat)
      returns (ghost sent: seq<byte>, ghost got: seq<byte>)
      requires Valid() && Started() && 1 <= bytes
      requires data != null ==> d + Chunk(bytes) <= data.Length
      requires out != null ==> o + Chunk(bytes) <= out.Length
      modifies this`mosiDlen, this`misoDlen, dataBuf, this`wire, this`log, this`session, out
      ensures Valid() && Within()
      ensures sent == if data == null then Ones(Chunk(bytes)) else old(data[d..d + Chunk(bytes)])
      ensures Exchanged(peer, old(wire), wire, sent, got, wrBitOrder, rdBitOrder)
      ensures |got| == Chunk(bytes) && (out != null ==> out[..] == Spliced(old(out[..]), o, got))
      ensures data != null && (data == out ==> o <= d) ==> data[d + Chunk(bytes)..] == old(data[d + Chunk(bytes)..])
    {
      hide Exchanged, BytesOf, StoreBytes, Spliced, Valid;
      var n := if bytes > 64 then 64 else bytes;
      var words := (n + 3) / 4;
      var wordsBuf: seq<word> := seq(words, _ => 0);
      if data != null {
        sent := data[d..d + n];
        wordsBuf := StoreBytes(wordsBuf, data[d..d + n]);
      } else {
        sent := Ones(n);
        wordsBuf := StoreBytes(wordsBuf, Ones(n));
      }
      got := ExchangeBytes(wordsBuf, n);
      if out != null {
        wordsBuf := UnloadFifo(words);
        ghost var before := out[..];
        CopyOut(out, o, BytesOf(wordsBuf)[..n]);
        if out == data && o <= d {
          SplicedTail(before, o, got, d + n);
          assert data[d + n..] == data[..][d + n..];
        }
      }
    }

    /** spiTransferBytes.  data and out may be the same buffer. */
    method TransferBytes(data: array?<byte>, out: array?<byte>, size: nat)
      requires Valid() && Started() && !locked
      requires data != null ==> size <= data.Length
      requires out != null ==> size <= out.Length
      modifies this`locked, this`past, this`origin, this`log, this`session
      modifies this`mosiDlen, this`misoDlen, dataBuf, this`wire, out
      ensures Valid() && !locked && Balanced()
      ensures wire == old(wire) + Bits(if data == null then Ones(size) else old(data[..size]), wrBitOrder)
      ensures data == null ==> wire == old(wire) + seq(8 * size, _ => true)
      ensures out != null ==>
                out[..] == Spliced(old(out[..]), 0, Received(peer, wire, |old(wire)|, size, rdBitOrder))
    {
      hide Bits, Received, BytesOf, ByteProgress, Spliced, Ones, Valid;
      OnesAreOnes(size, wrBitOrder);
      Lock();
      var all, got := TransferAllChunks(data, out, size);
      ByteProgressMeans(peer, old(wire), wire, all, got, wrBitOrder, rdBitOrder);
      assert all[..size] == if data == null then Ones(size) else old(data[..size]);
      Unlock();
    }

    /** The loop of spiTransferBytes. */
    method TransferAllChunks(data: array?<byte>, out: array?<byte>, size: nat)
      returns (ghost all: seq<byte>, ghost got: seq<byte>)
      requires Valid() && Started()
      requires data != null ==> size <= data.Length
      requires out != null ==> size <= out.Length
      modifies this`mosiDlen, this`misoDlen, dataBuf, this`wire, this`log, this`session, out
      ensures Valid() && Within()
      ensures all == if data == null then Ones(size) else old(data[..])
      ensures ByteProgress(peer, old(wire), wire, all, got, wrBitOrder, rdBitOrder)
      ensures |got| == size && (out != null ==> out[..] == Spliced(old(out[..]), 0, got))
    {
      hide ByteProgress, Exchanged, Spliced, Ones, Valid;
      var left: nat := size;
      var d: nat, o: nat := 0, 0;
      all := if data == null then Ones(size) else data[..];
      got := [];
      NoByteProgress(peer, wire, all, wrBitOrder, rdBitOrder);
      SplicedNothing(if out == null then [] else out[..]);
      while left != 0
        invariant |got| + left == size
        invariant (data != null ==> d == |got|) && (out != null ==> o == |got|)
        invariant Valid() && Within()
        invariant data != null ==> data[d..] == all[d..]
        invariant ByteProgress(peer, old(wire), wire, all, got, wrBitOrder, rdBitOrder)
        invariant out != null ==> out[..] == Spliced(old(out[..]), 0, got)
      {
        var chunk := if left > 64 then 64 else left;
        ghost var before := wire;
        NextToSend(all, if data == null then all else data[..], |got|, chunk);
        SliceOfOneBytes(size, |got|, chunk);
        var more, answer := TransferChunk(data, d, out, o, chunk);
        MoreByteProgress(peer, old(wire), before, wire, all, got, more, answer, wrBitOrder, rdBitOrder);
        if out != null {
          SplicedConcat(old(out[..]), got, answer);
        }
        got := got + answer;
        left := left - chunk;
        if data != null {
          d := d + chunk;
        }
        if out != null {
          o := o + chunk;
        }
      }
    }

    // ---------- word-chunked transfers inside a session ----------

    /** spiWriteNL. */
    method WriteNL(data: array<word>, len: nat)
      requires Valid() && Started() && data != dataBuf && len <= 4 * data.Length
      modifies this`mosiDlen, this`misoDlen, dataBuf, this`wire, this`log, this`session
      ensures Valid() && Within()
      ensures wire == old(wire) + Bits(Leading(data[..], len), wrBitOrder)
    {
      hide Bits, BytesOf, Valid;
      var longs := len / 4;
      if len % 4 != 0 {
        longs := longs + 1;
      }
      var left: nat, d: nat := len, 0;
      ghost var all := data[..];
      NothingSent(wire, wrBitOrder);
      assert BytesOf(all)[..0] == [];
      while left != 0
        invariant left <= len && longs == WordsFor(left) && d + longs == WordsFor(len)
        invariant left != 0 ==> len - left == 4 * d
        invariant Valid() && Within() && data[..] == all
        invariant wire == old(wire) + Bits(BytesOf(all)[..len - left], wrBitOrder)
      {
        var cLen := if left > 64 then 64 else left;
        var cLongs := if longs > 16 then 16 else longs;
        NextChunk(left, longs, cLen, cLongs);
        SendBytes(data[d..d + cLongs], cLen);
        SentMore(old(wire), all, d, all[d..d + cLongs], cLen, wrBitOrder);
        d := d + cLongs;
        longs := longs - cLongs;
        left := left - cLen;
      }
    }

    /** One command of spiTransferBytesNL: load, run, read back. */
    method ExchangeChunk(data: array?<word>, d: nat, result: array?<word>, r: nat, cLongs: nat, cLen: nat)
      returns (ghost ws: seq<word>, ghost got: seq<byte>, ghost back: seq<word>)
      requires Valid() && Started() && data != dataBuf && result != dataBuf
      requires 1 <= cLen <= 64 && cLongs == WordsFor(cLen)
      requires data != null ==> d + cLongs <= data.Length
      requires result != null ==> r + cLongs <= result.Length
      modifies this`mosiDlen, this`misoDlen, dataBuf, this`wire, this`log, this`session, result
      ensures Valid() && Within()
      ensures ws == if data == null then OnesWords(cLongs) else old(data[d..d + cLongs])
      ensures Exchanged(peer, old(wire), wire, BytesOf(ws)[..cLen], got, wrBitOrder, rdBitOrder)
      ensures |got| == cLen && |back| == cLongs && BytesOf(back) == got + BytesOf(ws)[cLen..]
      ensures result != null ==> result[..] == Spliced(old(result[..]), r, back)
      ensures data != null && (data == result ==> r <= d) ==> data[d + cLongs..] == old(data[d + cLongs..])
    {
      hide BytesOf, Exchanged, Spliced, OnesWords, Valid;
      if data != null {
        ws := data[d..d + cLongs];
        got := ExchangeBytes(data[d..d + cLongs], cLen);
      } else {
        ws := OnesWords(cLongs);
        got := ExchangeBytes(OnesWords(cLongs), cLen);
      }
      back := dataBuf[..cLongs];
      if result != null {
        var words := UnloadFifo(cLongs);
        CopyWordsOut(result, r, words);
      }
    }

    /** spiTransferBytesNL.  data and result may be the same buffer. */
    method TransferBytesNL(data: array?<word>, result: array?<word>, len: nat)
      requires Valid() && Started() && data != dataBuf && result != dataBuf
      requires data != null ==> len <= 4 * data.Length
      requires result != null ==> len <= 4 * result.Length
      modifies this`mosiDlen, this`misoDlen, dataBuf, this`wire, this`log, this`session, result
      ensures Valid() && Within()
      ensures wire == old(wire) + Bits(if data == null then Ones(len) else old(Leading(data[..], len)), wrBitOrder)
      ensures data == null ==> wire == old(wire) + seq(8 * len, _ => true)
      ensures result != null ==>
                && Leading(result[..], len) == Received(peer, wire, |old(wire)|, len, rdBitOrder)
                && result[WordsFor(len)..] == old(result[WordsFor(len)..])
      ensures result != null && data != null ==> Padding(result[..], len) == old(Padding(data[..], len))
    {
      hide Bits, BytesOf, Received, Progress, Exchanged, Spliced, OnesWords, Ones, Leading, Padding, Valid;
      var longs := len / 4;
      if len % 4 != 0 {
        longs := longs + 1;
      }
      ghost var before := if result == null then [] else result[..];
      var all, got, res := ExchangeWords(data, result, len, longs);
      ProgressMeans(peer, old(wire), wire, all, len, got, res, before, wrBitOrder, rdBitOrder);
      LeadingOnes(len);
      OnesAreOnes(len, wrBitOrder);
    }

    /** The same, as one more step of a transfer. */
    method ExchangeNext(data: array?<word>, d: nat, result: array?<word>, r: nat, cLongs: nat, cLen: nat,
                        ghost start: seq<bool>, ghost all: seq<word>, ghost got: seq<byte>, ghost res: seq<word>)
      returns (ghost answer: seq<byte>, ghost back: seq<word>)
      requires Valid() && Started() && data != dataBuf && result != dataBuf
      requires 1 <= cLen <= 64 && cLongs == WordsFor(cLen) && cLen <= 4 * cLongs && |res| + cLongs <= |all|
      requires if data == null then all == OnesWords(|all|)
               else d == |res| && data.Length == |all| && data[d..] == all[d..]
      requires result != null ==> r + cLongs <= result.Length && (data == result ==> r <= d)
      requires Progress(peer, start, wire, all, 4 * |res|, |res|, got, res, wrBitOrder, rdBitOrder)
      modifies this`mosiDlen, this`misoDlen, dataBuf, this`wire, this`log, this`session, result
      ensures Valid() && Within() && |answer| == cLen && |back| == cLongs
      ensures Progress(peer, start, wire, all, 4 * |res| + cLen, |res| + cLongs, got + answer, res + back,
                       wrBitOrder, rdBitOrder)
      ensures result != null ==> result[..] == Spliced(old(result[..]), r, back)
      ensures data != null ==> data[d + cLongs..] == all[d + cLongs..]
    {
      hide BytesOf, Progress, Exchanged, Spliced, OnesWords, WordsFor, Valid;
      ghost var mid, done := wire, |res|;
      NextToSend(all, if data == null then all else data[..], done, cLongs);
      SliceOfOnes(|all|, done, cLongs);
      ghost var ws;
      ws, answer, back := ExchangeChunk(data, d, result, r, cLongs, cLen);
      assert ws == all[done..done + cLongs];
      MoreProgress(peer, start, mid, wire, all, done, got, res, ws, cLen, answer, back, wrBitOrder, rdBitOrder);
    }

    /** The loop of spiTransferBytesNL. */
    method ExchangeWords(data: array?<word>, result: array?<word>, len: nat, words: nat)
      returns (ghost all: seq<word>, ghost got: seq<byte>, ghost res: seq<word>)
      requires Valid() && Started() && data != dataBuf && result != dataBuf && words == WordsFor(len)
      requires data != null ==> words <= data.Length
      requires result != null ==> words <= result.Length
      modifies this`mosiDlen, this`misoDlen, dataBuf, this`wire, this`log, this`session, result
      ensures Valid() && Within()
      ensures all == if data == null then OnesWords(words) else old(data[..])
      ensures Progress(peer, old(wire), wire, all, len, words, got, res, wrBitOrder, rdBitOrder)
      ensures |res| == words && (result != null ==> result[..] == Spliced(old(result[..]), 0, res))
    {
      hide BytesOf, Progress, Exchanged, Spliced, OnesWords, WordsFor, Valid;
      var longs, left: nat := words, len;
      var d: nat, r: nat := 0, 0;
      all := if data == null then OnesWords(words) else data[..];
      got, res := [], [];
      NoWords();
      NoProgress(peer, wire, all, wrBitOrder, rdBitOrder);
      SplicedNothing(if result == null then [] else result[..]);
      while left != 0
        invariant left <= len && longs == WordsFor(left) && |res| + longs == words
        invariant (data != null ==> d == |res|) && (result != null ==> r == |res|)
        invariant left != 0 ==> len - left == 4 * |res|
        invariant Valid() && Within()
        invariant data != null ==> data[d..] == all[d..]
        invariant Progress(peer, old(wire), wire, all, len - left, |res|, got, res, wrBitOrder, rdBitOrder)
        invariant result != null ==> result[..] == Spliced(old(result[..]), 0, res)
      {
        var cLen := if left > 64 then 64 else left;
        var cLongs := if longs > 16 then 16 else longs;
        NextChunk(left, longs, cLen, cLongs);
        var answer, back := ExchangeNext(data, d, result, r, cLongs, cLen, old(wire), all, got, res);
        if result != null {
          SplicedConcat(old(result[..]), res, back);
        }
        got, res := got + answer, res + back;
        if data != null {
          d := d + cLongs;
        }
        if result != null {
          r := r + cLongs;
        }
        longs := longs - cLongs;
        left := left - cLen;
      }
    }

    /** spiWritePixelsNL.  The bit order is read once, before the loop. */
    method WritePixelsNL(data: array<word>, len: nat)
      requires Valid() && Started() && data != dataBuf && len <= 4 * data.Length
      modifies this`mosiDlen, this`misoDlen, dataBuf, this`wire, this`log, this`session
      ensures Valid() && Within()
      ensures wire == old(wire)
                    + Bits(Leading(PixelWords(data[..WordsFor(len)], len, !wrBitOrder), len), wrBitOrder)
    {
      hide Bits, BytesOf, Valid, PixelWords;
      var longs := len / 4;
      if len % 4 != 0 {
        longs := longs + 1;
      }
      var lsb := GetWrOrder();
      var msb := !lsb;
      var left: nat, d: nat := len, 0;
      ghost var mem := data[..WordsFor(len)];
      ghost var all := PixelWords(mem, len, msb);
      NothingSent(wire, wrBitOrder);
      assert BytesOf(all)[..0] == [];
      while left != 0
        invariant left <= len && longs == WordsFor(left) && d + longs == WordsFor(len)
        invariant left != 0 ==> len - left == 4 * d
        invariant Valid() && Within() && data[..WordsFor(len)] == mem
        invariant wire == old(wire) + Bits(BytesOf(all)[..len - left], wrBitOrder)
      {
        var cLen := if left > 64 then 64 else left;
        var cLongs := if longs > 16 then 16 else longs;
        NextChunk(left, longs, cLen, cLongs);
        var ws := PixelWords(data[d..d + cLongs], cLen, msb);
        assert data[d..d + cLongs] == mem[d..d + cLongs];
        PixelChunk(mem, len, d, cLongs, cLen, msb);
        SendBytes(ws, cLen);
        SentMore(old(wire), all, d, ws, cLen, wrBitOrder);
        d := d + cLongs;
        longs := longs - cLongs;
        left := left - cLen;
      }
    }

    // ---------- scalars ----------

    /** Both lengths, and word 0. */
    method LoadOneWord(w: word, mosi: nat, miso: nat)
      requires Valid() && miso <= mosi < 32
      modifies this`mosiDlen, this`misoDlen, dataBuf, this`log, this`session
      ensures Valid() && mosiDlen == mosi && misoDlen == miso && dataBuf[0] == w
      ensures log == old(log) + [SetMosiDlen(mosi), SetMisoDlen(miso), Load(0, w)]
      ensures Ready(session) && session.held == old(session.held) && session.ok == old(session.ok && session.held)
    {
      hide Valid;
      SetMosiBits(mosi);
      SetMisoBits(miso);
      LoadWord(0, w);
    }

    /** Set up and run a command of n bits out of one word, with m bits of answer. */
    method RunWord(w: word, n: nat, m: nat)
      requires Valid() && Started() && 1 <= m <= n <= 32
      modifies this`mosiDlen, this`misoDlen, dataBuf, this`wire, this`log, this`session
      ensures Valid() && Within()
      ensures |wire| == |old(wire)| + n && wire == old(wire) + FifoBits([w], wrBitOrder, n)
      ensures Answered(dataBuf[0], w, Response(peer, wire, |old(wire)|, m), rdBitOrder)
      ensures log == old(log) + [SetMosiDlen(n - 1), SetMisoDlen(m - 1), Load(0, w), Fire]
    {
      hide Response, FifoBits, Answered, Command, CanFire, Valid;
      LoadOneWord(w, n - 1, m - 1);
      OneWordCommand(peer, Dev(), w, n, m);
      RunCommand();
    }

    /** A command of n whole bytes out of one word, and its answer. */
    method ExchangeWord(w: word, n: nat) returns (raw: word)
      requires Valid() && Started() && 1 <= n <= 4
      modifies this`mosiDlen, this`misoDlen, dataBuf, this`wire, this`log, this`session
      ensures Valid() && Within()
      ensures |wire| == |old(wire)| + 8 * n && wire == old(wire) + Bits(Leading([w], n), wrBitOrder)
      ensures Leading([raw], n) == Received(peer, wire, |old(wire)|, n, rdBitOrder)
      ensures log == old(log) + ExchangeOps(w, n, raw)
    {
      hide Bits, Leading, Answered, Unbits, Valid;
      RunWord(w, 8 * n, 8 * n);
      WholeBytesOut(w, wrBitOrder, n);
      AnsweredBytes(dataBuf[0], w, Response(peer, wire, |old(wire)|, 8 * n), rdBitOrder, n);
      raw := ReadWord(0);
    }

    method SendWord(w: word, n: nat)
      requires Valid() && Started() && 1 <= n <= 4
      modifies this`mosiDlen, this`misoDlen, dataBuf, this`wire, this`log, this`session
      ensures Valid() && Within()
      ensures wire == old(wire) + Bits(Leading([w], n), wrBitOrder)
      ensures log == old(log) + SendOps(w, n)
    {
      hide Bits, Leading, Answered, Valid;
      RunWord(w, 8 * n, 1);
      WholeBytesOut(w, wrBitOrder, n);
    }

    method WriteByteNL(data: byte)
      requires Valid() && Started()
      modifies this`mosiDlen, this`misoDlen, dataBuf, this`wire, this`log, this`session
      ensures Valid() && Within()
      ensures wire == old(wire) + Bits([data], wrBitOrder)
    {
      hide Bits, Leading, Valid;
      ScalarBytes(data, 0, 0, wrBitOrder);
      SendWord(data as bv32, 1);
    }

    method TransferByteNL(data: byte) returns (r: byte)
      requires Valid() && Started()
      modifies this`mosiDlen, this`misoDlen, dataBuf, this`wire, this`log, this`session
      ensures Valid() && Within()
      ensures |wire| == |old(wire)| + 8 && wire == old(wire) + Bits([data], wrBitOrder)
      ensures [r] == Received(peer, wire, |old(wire)|, 1, rdBitOrder)
    {
      hide Bits, Leading, Received, Valid;
      ScalarBytes(data, 0, 0, wrBitOrder);
      var raw := ExchangeWord(data as bv32, 1);
      ScalarAnswers(raw, rdBitOrder);
      r := (raw & 0xFF) as bv8;
    }

    method WriteShortNL(data: bv16)
      requires Valid() && Started()
      modifies this`mosiDlen, this`misoDlen, dataBuf, this`wire, this`log, this`session
      ensures Valid() && Within()
      ensures wire == old(wire) + Bits(Bytes16(data, wrBitOrder), wrBitOrder)
    {
      hide Bits, Leading, Bytes16, Valid;
      var lsb := GetWrOrder();
      ScalarBytes(0, data, 0, lsb);
      SendWord(Word16(data, lsb), 2);
    }

    method TransferShortNL(data: bv16) returns (r: bv16)
      requires Valid() && Started()
      modifies this`mosiDlen, this`misoDlen, dataBuf, this`wire, this`log, this`session
      ensures Valid() && Within()
      ensures |wire| == |old(wire)| + 16 && wire == old(wire) + Bits(Bytes16(data, wrBitOrder), wrBitOrder)
      ensures Bytes16(r, rdBitOrder) == Received(peer, wire, |old(wire)|, 2, rdBitOrder)
    {
      hide Bits, Leading, Bytes16, Word16, Received, Valid;
      var lsb := GetWrOrder();
      ScalarBytes(0, data, 0, lsb);
      var raw := ExchangeWord(Word16(data, lsb), 2);
      lsb := GetRdOrder();
      ScalarAnswers(raw, lsb);
      r := Number16(raw, lsb);
    }

    method WriteLongNL(data: word)
      requires Valid() && Started()
      modifies this`mosiDlen, this`misoDlen, dataBuf, this`wire, this`log, this`session
      ensures Valid() && Within()
      ensures wire == old(wire) + Bits(Bytes32(data, wrBitOrder), wrBitOrder)
    {
      hide Bits, Leading, Bytes32, Valid;
      var lsb := GetWrOrder();
      ScalarBytes(0, 0, data, lsb);
      SendWord(Word32(data, lsb), 4);
    }

    method TransferLongNL(data: word) returns (r: word)
      requires Valid() && Started()
      modifies this`mosiDlen, this`misoDlen, dataBuf, this`wire, this`log, this`session
      ensures Valid() && Within()
      ensures |wire| == |old(wire)| + 32 && wire == old(wire) + Bits(Bytes32(data, wrBitOrder), wrBitOrder)
      ensures Bytes32(r, rdBitOrder) == Received(peer, wire, |old(wire)|, 4, rdBitOrder)
    {
      hide Bits, Leading, Bytes32, Word32, Received, Valid;
      var lsb := GetWrOrder();
      ScalarBytes(0, 0, data, lsb);
      var raw := ExchangeWord(Word32(data, lsb), 4);
      lsb := GetRdOrder();
      ScalarAnswers(raw, lsb);
      r := Number32(raw, lsb);
    }

    // ---------- numbers of up to 32 bits ----------

    /** spiTransferBitsNL, for bits >= 1. */
    method TransferBitsNL(data: word, out: array?<word>, bits: nat)
      requires Valid() && Started() && 1 <= bits && out != dataBuf && (out != null ==> 1 <= out.Length)
      modifies this`mosiDlen, this`misoDlen, dataBuf, this`wire, this`log, this`session, out
      ensures Valid() && Within()
      ensures var n := if bits > 32 then 32 else bits;
              && |wire| == |old(wire)| + n
              && wire == old(wire) + FifoBits([BitsWord(data, n, wrBitOrder)], wrBitOrder, n)
              && (out != null ==>
                   BitsOut(out[0], data, Response(peer, wire, |old(wire)|, n), wrBitOrder, rdBitOrder) &&
                   out[1..] == old(out[1..]))
    {
      hide Response, FifoBits, Answered, BitsWord, Decoded, Valid;
      var n := if bits > 32 then 32 else bits;
      var lsb := GetWrOrder();
      RunWord(BitsWord(data, n, lsb), n, n);
      var raw := ReadWord(0);
      if out != null {
        lsb := GetRdOrder();
        out[0] := Decoded(raw, n, lsb);
      }
    }

    /** spiTransferBits: the same between lock and unlock. */
    method TransferBits(data: word, out: array?<word>, bits: nat)
      requires Valid() && Started() && !locked && 1 <= bits && out != dataBuf && (out != null ==> 1 <= out.Length)
      modifies this`locked, this`past, this`origin, this`log, this`session
      modifies this`mosiDlen, this`misoDlen, dataBuf, this`wire, out
      ensures Valid() && !locked && Balanced()
      ensures var n := if bits > 32 then 32 else bits;
              && |wire| == |old(wire)| + n
              && wire == old(wire) + FifoBits([BitsWord(data, n, wrBitOrder)], wrBitOrder, n)
              && (out != null ==>
                   BitsOut(out[0], data, Response(peer, wire, |old(wire)|, n), wrBitOrder, rdBitOrder) &&
                   out[1..] == old(out[1..]))
    {
      hide Response, FifoBits, BitsOut, BitsWord, Valid;
      Lock();
      TransferBitsNL(data, out, bits);
      Unlock();
    }

    // ---------- calls that lock for themselves ----------

    /** spiWrite, for len >= 1: at most 16 words. */
    method Write(data: array<word>, len: nat)
      requires Valid() && Started() && !locked && data != dataBuf
      requires 1 <= len && (len <= data.Length || 16 <= data.Length)
      modifies this`locked, this`past, this`origin, this`log, this`session
      modifies this`mosiDlen, this`misoDlen, dataBuf, this`wire
      ensures Valid() && !locked && Balanced()
      ensures wire == old(wire) + Bits(BytesOf(data[..if len > 16 then 16 else len]), wrBitOrder)
    {
      hide Bits, BytesOf, Valid;
      var n := if len > 16 then 16 else len;
      Lock();
      assert BytesOf(data[..n])[..4 * n] == BytesOf(data[..n]);
      SendBytes(data[..n], 4 * n);
      Unlock();
    }

    /** spiTransfer, for len >= 1: at most 16 words, in place. */
    method Transfer(data: array<word>, len: nat)
      requires Valid() && Started() && !locked && data != dataBuf
      requires 1 <= len && (len <= data.Length || 16 <= data.Length)
      modifies this`locked, this`past, this`origin, this`log, this`session
      modifies this`mosiDlen, this`misoDlen, dataBuf, this`wire, data
      ensures Valid() && !locked && Balanced()
      ensures var n := if len > 16 then 16 else len;
              && |wire| == |old(wire)| + 32 * n
              && wire == old(wire) + Bits(BytesOf(old(data[..n])), wrBitOrder)
              && BytesOf(data[..n]) == Received(peer, wire, |old(wire)|, 4 * n, rdBitOrder)
              && data[n..] == old(data[n..])
    {
      hide Bits, BytesOf, Received, Exchanged, Valid;
      var n := if len > 16 then 16 else len;
      ghost var ws := data[..n];
      Lock();
      assert BytesOf(ws)[..4 * n] == BytesOf(ws);
      ghost var got := ExchangeBytes(data[..n], 4 * n);
      ExchangedMeans(peer, old(wire), wire, BytesOf(ws), got, wrBitOrder, rdBitOrder);
      var words := UnloadFifo(n);
      CopyWordsOut(data, 0, words);
      assert data[..n] == words;
      Unlock();
    }

    /** Between lock and unlock: a command of n bytes out of one word. */
    method SendLocked(w: word, n: nat)
      requires Valid() && Started() && !locked && 1 <= n <= 4
      modifies this`locked, this`past, this`origin, this`log, this`session
      modifies this`mosiDlen, this`misoDlen, dataBuf, this`wire
      ensures Valid() && !locked && Balanced() && log == SendCall(w, n)
      ensures wire == old(wire) + Bits(Leading([w], n), wrBitOrder)
    {
      hide Bits, Leading, Valid, IsCall;
      Lock();
      SendWord(w, n);
      Unlock();
    }

    /** The same, with its answer. */
    method ExchangeLocked(w: word, n: nat) returns (raw: word)
      requires Valid() && Started() && !locked && 1 <= n <= 4
      modifies this`locked, this`past, this`origin, this`log, this`session
      modifies this`mosiDlen, this`misoDlen, dataBuf, this`wire
      ensures Valid() && !locked && Balanced() && log == ExchangeCall(w, n, raw)
      ensures |wire| == |old(wire)| + 8 * n && wire == old(wire) + Bits(Leading([w], n), wrBitOrder)
      ensures Leading([raw], n) == Received(peer, wire, |old(wire)|, n, rdBitOrder)
    {
      hide Bits, Leading, Received, Valid, IsCall;
      Lock();
      raw := ExchangeWord(w, n);
      Unlock();
    }

    method WriteByte(data: byte)
      requires Valid() && Started() && !locked
      modifies this`locked, this`past, this`origin, this`log, this`session
      modifies this`mosiDlen, this`misoDlen, dataBuf, this`wire
      ensures Valid() && !locked && Balanced()
      ensures wire == old(wire) + Bits([data], wrBitOrder)
    {
      hide Bits, Leading, Valid, IsCall, SendCall, ExchangeCall;
      ScalarBytes(data, 0, 0, wrBitOrder);
      SendLocked(data as bv32, 1);
    }

    method TransferByte(data: byte) returns (r: byte)
      requires Valid() && Started() && !locked
      modifies this`locked, this`past, this`origin, this`log, this`session
      modifies this`mosiDlen, this`misoDlen, dataBuf, this`wire
      ensures Valid() && !locked && Balanced()
      ensures |wire| == |old(wire)| + 8 && wire == old(wire) + Bits([data], wrBitOrder)
      ensures [r] == Received(peer, wire, |old(wire)|, 1, rdBitOrder)
    {
      hide Bits, Leading, Received, Valid, IsCall, SendCall, ExchangeCall;
      ScalarBytes(data, 0, 0, wrBitOrder);
      var raw := ExchangeLocked(data as bv32, 1);
      ScalarAnswers(raw, rdBitOrder);
      r := (raw & 0xFF) as bv8;
    }

    /** spiWriteWord.  The bit order is read before the lock is taken, which is why this call, and the
        three after it, do not follow the lock discipline. */
    method WriteWord(data: bv16)
      requires Valid() && Started() && !locked
      modifies this`locked, this`past, this`origin, this`log, this`session
      modifies this`mosiDlen, this`misoDlen, dataBuf, this`wire
      ensures Valid() && !locked
      ensures wire == old(wire) + Bits(Bytes16(data, wrBitOrder), wrBitOrder)
      ensures past == old(past + log) + [ReadWrOrder(wrBitOrder)] && log == SendCall(Word16(data, wrBitOrder), 2)
    {
      hide Bits, Leading, Bytes16, Word16, Valid, IsCall, SendCall, ExchangeCall;
      var lsb := GetWrOrder();
      ScalarBytes(0, data, 0, lsb);
      SendLocked(Word16(data, lsb), 2);
    }

    method TransferWord(data: bv16) returns (r: bv16)
      requires Valid() && Started() && !locked
      modifies this`locked, this`past, this`origin, this`log, this`session
      modifies this`mosiDlen, this`misoDlen, dataBuf, this`wire
      ensures Valid() && !locked
      ensures |wire| == |old(wire)| + 16 && wire == old(wire) + Bits(Bytes16(data, wrBitOrder), wrBitOrder)
      ensures past == old(past + log) + [ReadWrOrder(wrBitOrder)]
      ensures exists raw :: r == Number16(raw, rdBitOrder) &&
                log == ExchangeCall(Word16(data, wrBitOrder), 2, raw) + [ReadRdOrder(rdBitOrder)]
      ensures Bytes16(r, rdBitOrder) == Received(peer, wire, |old(wire)|, 2, rdBitOrder)
    {
      hide Bits, Leading, Bytes16, Word16, Received, Valid, IsCall, SendCall, ExchangeCall;
      var lsb := GetWrOrder();
      ScalarBytes(0, data, 0, lsb);
      var raw := ExchangeLocked(Word16(data, lsb), 2);
      lsb := GetRdOrder();
      ScalarAnswers(raw, lsb);
      r := Number16(raw, lsb);
    }

    method WriteLong(data: word)
      requires Valid() && Started() && !locked
      modifies this`locked, this`past, this`origin, this`log, this`session
      modifies this`mosiDlen, this`misoDlen, dataBuf, this`wire
      ensures Valid() && !locked
      ensures wire == old(wire) + Bits(Bytes32(data, wrBitOrder), wrBitOrder)
      ensures past == old(past + log) + [ReadWrOrder(wrBitOrder)] && log == SendCall(Word32(data, wrBitOrder), 4)
    {
      hide Bits, Leading, Bytes32, Word32, Valid, IsCall, SendCall, ExchangeCall;
      var lsb := GetWrOrder();
      ScalarBytes(0, 0, data, lsb);
      SendLocked(Word32(data, lsb), 4);
    }

    method TransferLong(data: word) returns (r: word)
      requires Valid() && Started() && !locked
      modifies this`locked, this`past, this`origin, this`log, this`session
      modifies this`mosiDlen, this`misoDlen, dataBuf, this`wire
      ensures Valid() && !locked
      ensures |wire| == |old(wire)| + 32 && wire == old(wire) + Bits(Bytes32(data, wrBitOrder), wrBitOrder)
      ensures past == old(past + log) + [ReadWrOrder(wrBitOrder)]
      ensures exists raw :: r == Number32(raw, rdBitOrder) &&
                log == ExchangeCall(Word32(data, wrBitOrder), 4, raw) + [ReadRdOrder(rdBitOrder)]
      ensures Bytes32(r, rdBitOrder) == Received(peer, wire, |old(wire)|, 4, rdBitOrder)
    {
      hide Bits, Leading, Bytes32, Word32, Received, Valid, IsCall, SendCall, ExchangeCall;
      var lsb := GetWrOrder();
      ScalarBytes(0, 0, data, lsb);
      var raw := ExchangeLocked(Word32(data, lsb), 4);
      lsb := GetRdOrder();
      ScalarAnswers(raw, lsb);
      r := Number32(raw, lsb);
    }

    // ---------- configuration ----------

    method GetClockDiv() returns (r: uint32)
      ensures r == clock
    {
      r := clock;
    }

    method GetDataMode() returns (r: bv8)
      ensures r == DataMode(Cfg())
      ensures r == if idleEdge then (if outEdge then 2 else 3) else if outEdge then 1 else 0
    {
      if idleEdge {
        if outEdge {
          return SPI_MODE2;
        }
        return SPI_MODE3;
      }
      if outEdge {
        return SPI_MODE1;
      }
      return SPI_MODE0;
    }

    method GetBitOrder() returns (r: bv8)
      ensures r == BitOrder(Cfg())
      ensures r == if wrBitOrder || rdBitOrder then 0 else 1
    {
      r := if wrBitOrder || rdBitOrder then 0 else 1;
    }

    /** The mode switch shared by spiSetDataMode and spiTransaction. */
    method WriteMode(dataMode: bv8)
      requires Valid()
      modifies this`idleEdge, this`outEdge, this`log, this`session
      ensures Valid() && Within()
      ensures Cfg() == WithMode(old(Cfg()), dataMode)
    {
      hide Valid;
      if dataMode == SPI_MODE1 {
        WriteIdleEdge(false);
        WriteOutEdge(true);
      } else if dataMode == SPI_MODE2 {
        WriteIdleEdge(true);
        WriteOutEdge(true);
      } else if dataMode == SPI_MODE3 {
        WriteIdleEdge(true);
        WriteOutEdge(false);
      } else {
        WriteIdleEdge(false);
        WriteOutEdge(false);
      }
    }

    /** The order switch shared by spiSetBitOrder and spiTransaction. */
    method WriteOrder(bitOrder: bv8)
      requires Valid()
      modifies this`wrBitOrder, this`rdBitOrder, this`log, this`session
      ensures Valid() && Within()
      ensures Cfg() == WithOrder(old(Cfg()), bitOrder) && log == old(log) + OrderOps(bitOrder)
    {
      hide Valid;
      if SPI_MSBFIRST == bitOrder {
        WriteWrOrder(false);
        WriteRdOrder(false);
      } else if SPI_LSBFIRST == bitOrder {
        WriteWrOrder(true);
        WriteRdOrder(true);
      }
    }

    method SetClockDiv(clockDiv: uint32)
      requires Valid() && !locked
      modifies this`clock, this`locked, this`past, this`origin, this`log, this`session
      ensures Valid() && !locked && Balanced()
      ensures Cfg() == old(Cfg()).(clock := clockDiv)
    {
      hide Valid;
      Lock();
      WriteClock(clockDiv);
      Unlock();
    }

    method SetDataMode(dataMode: bv8)
      requires Valid() && !locked
      modifies this`idleEdge, this`outEdge, this`locked, this`past, this`origin, this`log, this`session
      ensures Valid() && !locked && Balanced()
      ensures Cfg() == WithMode(old(Cfg()), dataMode)
      ensures idleEdge == (dataMode == 2 || dataMode == 3) && outEdge == (dataMode == 1 || dataMode == 2)
    {
      hide Valid, WithMode;
      ModeRegisters(Cfg(), dataMode);
      Lock();
      WriteMode(dataMode);
      Unlock();
    }

    method SetBitOrder(bitOrder: bv8)
      requires Valid() && !locked
      modifies this`wrBitOrder, this`rdBitOrder, this`locked, this`past, this`origin, this`log, this`session
      ensures Valid() && !locked && Balanced()
      ensures wrBitOrder == (if bitOrder == 0 then true else if bitOrder == 1 then false else old(wrBitOrder))
      ensures rdBitOrder == (if bitOrder == 0 then true else if bitOrder == 1 then false else old(rdBitOrder))
      ensures Cfg() == WithOrder(old(Cfg()), bitOrder) && log == [Take] + OrderOps(bitOrder) + [Give]
    {
      hide Valid, WithOrder;
      OrderRegisters(Cfg(), bitOrder);
      Lock();
      WriteOrder(bitOrder);
      Unlock();
    }

    /** spiTransaction: the registers of spiSetClockDiv, spiSetDataMode and spiSetBitOrder, with the lock
        kept. */
    method Transaction(clockDiv: uint32, dataMode: bv8, bitOrder: bv8)
      requires Valid() && !locked
      modifies this`clock, this`idleEdge, this`outEdge, this`wrBitOrder, this`rdBitOrder
      modifies this`locked, this`past, this`origin, this`log, this`session
      ensures Valid() && locked && session.ok && past == old(past + log) && origin == old(Dev())
      ensures clock == clockDiv
      ensures idleEdge == (dataMode == 2 || dataMode == 3) && outEdge == (dataMode == 1 || dataMode == 2)
      ensures wrBitOrder == (if bitOrder == 0 then true else if bitOrder == 1 then false else old(wrBitOrder))
      ensures rdBitOrder == (if bitOrder == 0 then true else if bitOrder == 1 then false else old(rdBitOrder))
      ensures Cfg() == WithOrder(WithMode(old(Cfg()).(clock := clockDiv), dataMode), bitOrder)
    {
      hide Valid, WithMode, WithOrder;
      ModeRegisters(Cfg().(clock := clockDiv), dataMode);
      OrderRegisters(WithMode(Cfg().(clock := clockDiv), dataMode), bitOrder);
      Lock();
      WriteClock(clockDiv);
      WriteMode(dataMode);
      WriteOrder(bitOrder);
    }

    method SimpleTransaction()
      requires Valid() && !locked
      modifies this`locked, this`past, this`origin, this`log, this`session
      ensures Valid() && locked && session.ok && past == old(past + log) && origin == old(Dev())
    {
      hide Valid;
      Lock();
    }

    method EndTransaction()
      requires Valid() && locked
      modifies this`locked, this`log, this`session
      ensures Valid() && !locked && (old(session.ok) ==> IsCall(log))
    {
      hide Valid;
      Unlock();
    }

    // ---------- start and stop ----------

    /** An entry of the bus array before its first start. */
    constructor (peer: Peer, dataBuf: array<word>)
      requires dataBuf.Length == FIFO_WORDS
      ensures this.peer == peer && this.dataBuf == dataBuf && !lockCreated && !locked && wire == []
    {
      this.peer, this.dataBuf := peer, dataBuf;
      lockCreated, locked := false, false;
      clock, idleEdge, outEdge, wrBitOrder, rdBitOrder := 0, false, false, false, false;
      usrMosi, usrMiso, doutdin := false, false, false;
      slaveTransDone, slaveMode, user1, ctrl1, ctrl2 := false, false, 0, 0, 0;
      mosiDlen, misoDlen, wire := 0, 0, [];
      log, session, past := [], IDLE, [];
      origin := Device(ZERO_CONFIG, 0, 0, dataBuf[..], []);
    }

    /** A bus with a fresh log: what is here now is where the log starts. */
    method RestartLog()
      requires dataBuf.Length == FIFO_WORDS && lockCreated && !locked
      modifies this`log, this`session, this`origin
      ensures Valid() && log == [] && session == IDLE && origin == Dev()
    {
      hide Summary, Replay;
      log, session, origin := [], IDLE, Dev();
      EmptyLog(peer, Dev());
    }

    /** The register writes of spiStopBus. */
    method ClearRegisters()
      modifies this`idleEdge, this`outEdge, this`usrMosi, this`usrMiso, this`doutdin, this`wrBitOrder, this`rdBitOrder
      modifies this`clock, this`slaveTransDone, this`slaveMode, this`user1, this`ctrl1, this`ctrl2
      ensures Cfg() == ZERO_CONFIG && !usrMosi && !usrMiso && !doutdin
      ensures !slaveTransDone && !slaveMode && user1 == ctrl1 == ctrl2 == 0
    {
      slaveTransDone, slaveMode, idleEdge, outEdge := false, false, false, false;
      usrMosi, usrMiso, doutdin, user1 := false, false, false, 0;
      wrBitOrder, rdBitOrder, ctrl1, ctrl2, clock := false, false, 0, 0, 0;
    }

    /** spiStopBus: every configuration register to zero.  The log restarts. */
    method StopBus()
      requires dataBuf.Length == FIFO_WORDS && lockCreated && !locked
      modifies this`idleEdge, this`outEdge, this`usrMosi, this`usrMiso, this`doutdin, this`wrBitOrder, this`rdBitOrder
      modifies this`clock, this`slaveTransDone, this`slaveMode, this`user1, this`ctrl1, this`ctrl2
      modifies this`locked, this`log, this`session, this`origin
      ensures Valid() && !locked && !Started() && log == [] && session == IDLE
      ensures Cfg() == ZERO_CONFIG && !slaveTransDone && !slaveMode && user1 == ctrl1 == ctrl2 == 0
      ensures clock == 0 && !idleEdge && !outEdge && !wrBitOrder && !rdBitOrder && !usrMosi && !usrMiso && !doutdin
    {
      hide Valid;
      locked := true;
      ClearRegisters();
      locked := false;
      RestartLog();
    }

    method EnableFullDuplex()
      requires Valid()
      modifies this`usrMosi, this`usrMiso, this`doutdin
      ensures Valid() && Started()
    {
      usrMosi, usrMiso, doutdin := true, true, true;
    }

    /** The last part of spiStartBus. */
    method ClearAndEnable()
      requires Valid() && !locked
      modifies this`locked, this`past, this`origin, this`log, this`session
      modifies this`usrMosi, this`usrMiso, this`doutdin, dataBuf
      ensures Valid() && !locked && Started() && Balanced()
      ensures dataBuf[..] == seq(FIFO_WORDS, _ => 0)
    {
      hide Next, Valid;
      Lock();
      EnableFullDuplex();
      LoadFifo(seq(FIFO_WORDS, _ => 0));
      assert dataBuf[..FIFO_WORDS] == dataBuf[..];
      Unlock();
    }

    /** The middle part of spiStartBus. */
    method Configure(clockDiv: uint32, dataMode: bv8, bitOrder: bv8)
      requires dataBuf.Length == FIFO_WORDS && lockCreated && !locked
      modifies this`locked, this`clock, this`idleEdge, this`outEdge, this`usrMosi, this`usrMiso,
               this`doutdin, this`wrBitOrder, this`rdBitOrder, this`log, this`session, this`origin, this`past
      modifies this`slaveTransDone, this`slaveMode, this`user1, this`ctrl1, this`ctrl2
      ensures Valid() && !locked
      ensures Cfg() == WithOrder(WithMode(ZERO_CONFIG, dataMode), bitOrder).(clock := clockDiv)
    {
      hide WithMode, WithOrder, Next, Valid, IsCall;
      StopBus();
      SetDataMode(dataMode);
      SetBitOrder(bitOrder);
      SetClockDiv(clockDiv);
    }

    /** spiStartBus on this entry of the bus array; mutexCreated is what creating a mutex would give. */
    method StartBus(clockDiv: uint32, dataMode: bv8, bitOrder: bv8, mutexCreated: bool) returns (ok: bool)
      requires dataBuf.Length == FIFO_WORDS && !locked
      modifies this`lockCreated, this`locked, this`clock, this`idleEdge, this`outEdge, this`usrMosi, this`usrMiso,
               this`doutdin, this`wrBitOrder, this`rdBitOrder, this`log, this`session, this`origin, this`past, dataBuf
      modifies this`slaveTransDone, this`slaveMode, this`user1, this`ctrl1, this`ctrl2
      ensures ok == (old(lockCreated) || mutexCreated)
      ensures ok ==> Valid() && Started() && !locked
      ensures ok ==> Cfg() == WithOrder(WithMode(ZERO_CONFIG, dataMode), bitOrder).(clock := clockDiv)
      ensures ok ==> usrMosi && usrMiso && doutdin && clock == clockDiv && wrBitOrder == rdBitOrder == (bitOrder == 0)
      ensures ok ==> idleEdge == (dataMode == 2 || dataMode == 3) && outEdge == (dataMode == 1 || dataMode == 2)
      ensures ok ==> dataBuf[..] == seq(FIFO_WORDS, _ => 0)
      ensures !ok ==> Dev() == old(Dev()) && !lockCreated && !locked && log == old(log)
    {
      hide WithMode, WithOrder, Next, Valid, IsCall;
      ModeRegisters(ZERO_CONFIG, dataMode);
      OrderRegisters(WithMode(ZERO_CONFIG, dataMode), bitOrder);
      if !lockCreated {
        lockCreated := mutexCreated;
        if !lockCreated {
          return false;
        }
      }
      Configure(clockDiv, dataMode, bitOrder);
      ClearAndEnable();
      return true;
    }
  }
}
