/** Transfers that must put the same bits on the wire: two equal buses, two ways to do the same thing
    (esp32/esp32spi.c, lines 520-1030). */
module SpiAgreement {
  import opened Wire
  import opened SpiWords
  import opened SpiDevice
  import opened SpiDriver
  import opened SpiNumbers

  /** Two started buses in the same configuration, with the same peer and the same history. */
  ghost predicate Twins(a: Spi, b: Spi)
    reads a, a.dataBuf, b, b.dataBuf
  {
    && a != b && a.dataBuf != b.dataBuf
    && a.Valid() && a.Started() && !a.locked && b.Valid() && b.Started()
    && a.peer == b.peer && a.Cfg() == b.Cfg() && a.wire == b.wire
  }

  /** spiTransferBytesNL does what spiTransferBytes does, for every length and with or without data and
      output: the same bits on the wire, the same bytes back. */
  method WordChunksRefineByteChunks(a: Spi, b: Spi, data: array?<byte>, words: array?<word>,
                                    out: array?<byte>, result: array?<word>, len: nat)
    requires Twins(a, b)
    requires words != a.dataBuf && words != b.dataBuf && result != a.dataBuf && result != b.dataBuf
    requires data == null <==> words == null
    requires data != null ==> len <= data.Length && len <= 4 * words.Length && data[..len] == Leading(words[..], len)
    requires out != null ==> len <= out.Length
    requires result != null ==> len <= 4 * result.Length
    modifies a, a.dataBuf, b, b.dataBuf, out, result
    ensures a.Valid() && b.Valid() && a.wire == b.wire && a.Cfg() == b.Cfg()
    ensures out != null && result != null ==> out[..len] == Leading(result[..], len)
  {
    hide Bits, Received, Leading, Padding, Ones, Spliced, Spi.Valid;
    a.TransferBytes(data, out, len);
    assert out != null ==> out[..len] == out[..][0..0 + len];
    b.TransferBytesNL(words, result, len);
  }

  /** In least-significant-bit-first order, spiWritePixelsNL is spiWriteNL. */
  method PixelsAreWordsLsbFirst(a: Spi, b: Spi, data: array<word>, len: nat)
    requires Twins(a, b) && a.wrBitOrder && data != a.dataBuf && data != b.dataBuf && len <= 4 * data.Length
    modifies a, a.dataBuf, b, b.dataBuf
    ensures a.wire == b.wire
  {
    hide Bits, BytesOf, PixelWords, Spi.Valid;
    a.WritePixelsNL(data, len);
    b.WriteNL(data, len);
    PixelsUnswapped(data[..WordsFor(len)], len);
    BytesOfPrefix(data[..], WordsFor(len));
    assert Leading(data[..WordsFor(len)], len) == Leading(data[..], len);
  }

  /** In most-significant-bit-first order, an even number of bytes goes out a pixel at a time, high byte
      first. */
  method PixelsHighByteFirstOnWire(a: Spi, data: array<word>, len: nat)
    requires a.Valid() && a.Started() && !a.wrBitOrder && data != a.dataBuf && len <= 4 * data.Length && len % 2 == 0
    modifies a, a.dataBuf
    ensures a.wire == old(a.wire) + Bits(HighByteFirst(Leading(data[..], len)), false)
  {
    hide Bits, BytesOf, PixelWords, HighByteFirst, Spi.Valid;
    a.WritePixelsNL(data, len);
    PixelsHighByteFirst(data[..WordsFor(len)], len);
    BytesOfPrefix(data[..], WordsFor(len));
    assert Leading(data[..WordsFor(len)], len) == Leading(data[..], len);
  }

  /** A number through spiTransferBits: sent and read back bit by bit, where the width is one the driver
      handles. */
  method NumbersOnWire(a: Spi, data: word, out: array<word>, bits: nat)
    requires a.Valid() && a.Started() && !a.locked && a.wrBitOrder == a.rdBitOrder
    requires out != a.dataBuf && 1 <= out.Length && 1 <= bits <= 32
    requires a.wrBitOrder || bits == 16 || bits == 24 || bits == 32
    modifies a, a.dataBuf, out
    ensures |a.wire| == |old(a.wire)| + bits && a.wire == old(a.wire) + NumberBits(data, bits, a.wrBitOrder)
    ensures NumberBits(out[0], bits, a.rdBitOrder) == Response(a.peer, a.wire, |old(a.wire)|, bits)
    ensures forall j :: bits <= j < 32 ==> !NumberBit(out[0], j)
  {
    hide FifoBits, NumberBits, NumberBit, BitsWord, BitsOut, Response, Spi.Valid;
    a.TransferBits(data, out, bits);
    if a.wrBitOrder {
      BitsSentLsbFirst(data, bits);
    } else {
      BitsSentMsbFirst(data, bits);
    }
    BitsOutMeans(out[0], data, Response(a.peer, a.wire, |old(a.wire)|, bits), a.wrBitOrder);
  }

  /** A number of any width through spiTransferBits, whether or not the driver handles the width: which of its
      bits go out, and what comes back of the answer. */
  method AnyWidthOnWire(a: Spi, data: word, out: array?<word>, bits: nat)
    requires a.Valid() && a.Started() && !a.locked && 1 <= bits
    requires out != a.dataBuf && (out != null ==> 1 <= out.Length)
    modifies a, a.dataBuf, out
    ensures var n := if bits > 32 then 32 else bits;
            && |a.wire| == |old(a.wire)| + n && a.wire == old(a.wire) + SentBits(data, n, a.wrBitOrder)
            && (out != null ==> forall j :: 0 <= j < 32 ==>
                  NumberBit(out[0], j)
                  == ReturnedBit(data, Response(a.peer, a.wire, |old(a.wire)|, n), a.wrBitOrder, a.rdBitOrder, j))
  {
    hide FifoBits, NumberBit, BitsWord, BitsOut, Response, ReturnedBit, SentBits, Spi.Valid, IsCall;
    var n := if bits > 32 then 32 else bits;
    a.TransferBits(data, out, bits);
    BitsSentAre(data, n, a.wrBitOrder);
    if out != null {
      forall j | 0 <= j < 32
        ensures NumberBit(out[0], j)
             == ReturnedBit(data, Response(a.peer, a.wire, |old(a.wire)|, n), a.wrBitOrder, a.rdBitOrder, j)
      {
        BitsReturnedAre(out[0], data, Response(a.peer, a.wire, |old(a.wire)|, n), a.wrBitOrder, a.rdBitOrder, j);
      }
    }
  }

  /** What spiWritePixelsNL sends, for every length and in either order. */
  method PixelsOnWire(a: Spi, data: array<word>, len: nat)
    requires a.Valid() && a.Started() && data != a.dataBuf && len <= 4 * data.Length
    modifies a, a.dataBuf
    ensures a.Valid() && a.Within()
    ensures a.wire == old(a.wire)
                    + if a.wrBitOrder then Bits(Leading(data[..], len), true)
                      else Bits(SentPixels(Leading(data[..], len)), false)
  {
    hide Bits, BytesOf, PixelWords, SentPixels, Spi.Valid;
    PixelsSentOf(data[..], len);
    assert data[..][..WordsFor(len)] == data[..WordsFor(len)];
    a.WritePixelsNL(data, len);
  }

  // ---------- locked calls and the calls inside a transaction ----------

  /** Each scalar call that locks for itself does what its counterpart does inside a transaction: the same bits
      on the wire and the same number back. */
  method WriteByteIsLocked(a: Spi, b: Spi, data: byte)
    requires Twins(a, b) && !b.locked
    modifies a, a.dataBuf, b, b.dataBuf
    ensures Twins(a, b) && !b.locked
  {
    hide Bits, Bytes16, Bytes32, IsCall, SendCall, ExchangeCall, Spi.Valid;
    a.WriteByte(data);
    b.SimpleTransaction();
    b.WriteByteNL(data);
    b.EndTransaction();
  }

  method TransferByteIsLocked(a: Spi, b: Spi, data: byte) returns (r: byte, r': byte)
    requires Twins(a, b) && !b.locked
    modifies a, a.dataBuf, b, b.dataBuf
    ensures Twins(a, b) && !b.locked && r == r'
  {
    hide Bits, Bytes16, Bytes32, Received, IsCall, SendCall, ExchangeCall, Spi.Valid;
    r := a.TransferByte(data);
    b.SimpleTransaction();
    r' := b.TransferByteNL(data);
    b.EndTransaction();
    assert r == [r][0] && r' == [r'][0];
  }

  method WriteWordIsLocked(a: Spi, b: Spi, data: bv16)
    requires Twins(a, b) && !b.locked
    modifies a, a.dataBuf, b, b.dataBuf
    ensures Twins(a, b) && !b.locked
  {
    hide Bits, Bytes16, Bytes32, IsCall, SendCall, ExchangeCall, Spi.Valid;
    a.WriteWord(data);
    b.SimpleTransaction();
    b.WriteShortNL(data);
    b.EndTransaction();
  }

  method TransferWordIsLocked(a: Spi, b: Spi, data: bv16) returns (r: bv16, r': bv16)
    requires Twins(a, b) && !b.locked
    modifies a, a.dataBuf, b, b.dataBuf
    ensures Twins(a, b) && !b.locked && r == r'
  {
    hide Bits, Bytes16, Bytes32, Received, IsCall, SendCall, ExchangeCall, Spi.Valid;
    r := a.TransferWord(data);
    b.SimpleTransaction();
    r' := b.TransferShortNL(data);
    b.EndTransaction();
    NumbersFromBytes(r, r', 0, 0, a.rdBitOrder);
  }

  method WriteLongIsLocked(a: Spi, b: Spi, data: word)
    requires Twins(a, b) && !b.locked
    modifies a, a.dataBuf, b, b.dataBuf
    ensures Twins(a, b) && !b.locked
  {
    hide Bits, Bytes16, Bytes32, IsCall, SendCall, ExchangeCall, Spi.Valid;
    a.WriteLong(data);
    b.SimpleTransaction();
    b.WriteLongNL(data);
    b.EndTransaction();
  }

  method TransferLongIsLocked(a: Spi, b: Spi, data: word) returns (r: word, r': word)
    requires Twins(a, b) && !b.locked
    modifies a, a.dataBuf, b, b.dataBuf
    ensures Twins(a, b) && !b.locked && r == r'
  {
    hide Bits, Bytes16, Bytes32, Received, IsCall, SendCall, ExchangeCall, Spi.Valid;
    r := a.TransferLong(data);
    b.SimpleTransaction();
    r' := b.TransferLongNL(data);
    b.EndTransaction();
    NumbersFromBytes(0, 0, r, r', a.rdBitOrder);
  }

  /** spiTransferBits at 16 and 32 bits, in the terms of the Short and Long calls. */
  method SixteenBits(a: Spi, data: bv16, out: array<word>) returns (ghost r: bv16)
    requires a.Valid() && a.Started() && !a.locked && out != a.dataBuf && 1 <= out.Length
    modifies a, a.dataBuf, out
    ensures a.Valid() && a.Started() && !a.locked && a.Cfg() == old(a.Cfg())
    ensures |a.wire| == |old(a.wire)| + 16 && a.wire == old(a.wire) + Bits(Bytes16(data, a.wrBitOrder), a.wrBitOrder)
    ensures out[0] == Wide(r)
    ensures Bytes16(r, a.rdBitOrder) == Received(a.peer, a.wire, |old(a.wire)|, 2, a.rdBitOrder)
  {
    hide Bits, FifoBits, Bytes16, BitsWord, BitsOut, Response, Unbits, IsCall, Spi.Valid, Low16, Wide;
    BitsOnWire(data, 0, a.wrBitOrder);
    a.TransferBits(data as bv32, out, 16);
    BitsOutIsScalar(out[0], data, 0, Response(a.peer, a.wire, |old(a.wire)|, 16), a.wrBitOrder, a.rdBitOrder);
    r := Low16(out[0]);
    WideOfLow(out[0]);
  }

  function Wide(h: bv16): word {
    h as bv32
  }

  method ThirtyTwoBits(a: Spi, data: word, out: array<word>)
    requires a.Valid() && a.Started() && !a.locked && out != a.dataBuf && 1 <= out.Length
    modifies a, a.dataBuf, out
    ensures a.Valid() && a.Started() && !a.locked && a.Cfg() == old(a.Cfg())
    ensures |a.wire| == |old(a.wire)| + 32 && a.wire == old(a.wire) + Bits(Bytes32(data, a.wrBitOrder), a.wrBitOrder)
    ensures Bytes32(out[0], a.rdBitOrder) == Received(a.peer, a.wire, |old(a.wire)|, 4, a.rdBitOrder)
  {
    hide Bits, FifoBits, Bytes32, BitsWord, BitsOut, Response, Unbits, IsCall, Spi.Valid;
    BitsOnWire(0, data, a.wrBitOrder);
    a.TransferBits(data, out, 32);
    BitsOutIsScalar(out[0], 0, data, Response(a.peer, a.wire, |old(a.wire)|, 32), a.wrBitOrder, a.rdBitOrder);
  }

  /** They send and return what spiTransferShortNL and spiTransferLongNL do, in either bit order. */
  method SixteenBitsAreShort(a: Spi, b: Spi, data: bv16, out: array<word>) returns (r: bv16)
    requires Twins(a, b) && !b.locked && out != a.dataBuf && out != b.dataBuf && 1 <= out.Length
    modifies a, a.dataBuf, b, b.dataBuf, out
    ensures Twins(a, b) && !b.locked && out[0] == Wide(r)
  {
    hide Bits, Bytes16, Received, Wide, IsCall, Spi.Valid;
    ghost var s := SixteenBits(a, data, out);
    b.SimpleTransaction();
    r := b.TransferShortNL(data);
    b.EndTransaction();
    NumbersFromBytes(s, r, 0, 0, a.rdBitOrder);
  }

  method ThirtyTwoBitsAreLong(a: Spi, b: Spi, data: word, out: array<word>) returns (r: word)
    requires Twins(a, b) && !b.locked && out != a.dataBuf && out != b.dataBuf && 1 <= out.Length
    modifies a, a.dataBuf, b, b.dataBuf, out
    ensures Twins(a, b) && !b.locked && out[0] == r
  {
    hide Bits, Bytes32, Received, IsCall, Spi.Valid;
    ThirtyTwoBits(a, data, out);
    b.SimpleTransaction();
    r := b.TransferLongNL(data);
    b.EndTransaction();
    NumbersFromBytes(0, 0, out[0], r, a.rdBitOrder);
  }

  lemma BitsOnWire(h: bv16, w: word, lsbFirst: bool)
    ensures FifoBits([BitsWord(h as bv32, 16, lsbFirst)], lsbFirst, 16) == Bits(Bytes16(h, lsbFirst), lsbFirst)
    ensures FifoBits([BitsWord(w, 32, lsbFirst)], lsbFirst, 32) == Bits(Bytes32(w, lsbFirst), lsbFirst)
  {
    hide Bits, FifoBits, Bytes16, Bytes32, Word16, Word32, Leading, BitsWord;
    BitsAgreeWithScalars(h, w, lsbFirst);
    WholeBytesOut(Word16(h, lsbFirst), lsbFirst, 2);
    WholeBytesOut(Word32(w, lsbFirst), lsbFirst, 4);
    ScalarBytes(0, h, w, lsbFirst);
  }

  lemma WideOfLow(w: word)
    requires w < 0x1_0000
    ensures w == Wide(Low16(w))
  {
  }
}
