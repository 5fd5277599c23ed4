/** What the arrangements of the driver mean bit by bit, in terms of shifts alone
    (esp32/esp32spi.c, lines 520-646, 783-1030). */
module SpiNumbers {
  import opened Wire
  import opened SpiWords
  import opened SpiDevice

  // ---------- bits and bytes by position ----------

  predicate ShiftsToOne(v: word, j: nat)
    requires j < 32
  {
    (v >> j) & 1 == 1
  }

  /** Byte i of a word is its bits 8*i to 8*i + 7. */
  lemma BytesAre(w: word)
    ensures ByteAt(w, 0) as bv32 == w & 0xFF && ByteAt(w, 1) as bv32 == (w >> 8) & 0xFF
    ensures ByteAt(w, 2) as bv32 == (w >> 16) & 0xFF && ByteAt(w, 3) as bv32 == (w >> 24) & 0xFF
  {
  }

  lemma FirstBits(v: word)
    ensures (NumberBit(v, 0) <==> ShiftsToOne(v, 0)) && (NumberBit(v, 1) <==> ShiftsToOne(v, 1))
    ensures (NumberBit(v, 2) <==> ShiftsToOne(v, 2)) && (NumberBit(v, 3) <==> ShiftsToOne(v, 3))
    ensures (NumberBit(v, 4) <==> ShiftsToOne(v, 4)) && (NumberBit(v, 5) <==> ShiftsToOne(v, 5))
    ensures (NumberBit(v, 6) <==> ShiftsToOne(v, 6)) && (NumberBit(v, 7) <==> ShiftsToOne(v, 7))
  {
  }

  lemma SecondBits(v: word)
    ensures (NumberBit(v, 8) <==> ShiftsToOne(v, 8)) && (NumberBit(v, 9) <==> ShiftsToOne(v, 9))
    ensures (NumberBit(v, 10) <==> ShiftsToOne(v, 10)) && (NumberBit(v, 11) <==> ShiftsToOne(v, 11))
    ensures (NumberBit(v, 12) <==> ShiftsToOne(v, 12)) && (NumberBit(v, 13) <==> ShiftsToOne(v, 13))
    ensures (NumberBit(v, 14) <==> ShiftsToOne(v, 14)) && (NumberBit(v, 15) <==> ShiftsToOne(v, 15))
  {
  }

  lemma ThirdBits(v: word)
    ensures (NumberBit(v, 16) <==> ShiftsToOne(v, 16)) && (NumberBit(v, 17) <==> ShiftsToOne(v, 17))
    ensures (NumberBit(v, 18) <==> ShiftsToOne(v, 18)) && (NumberBit(v, 19) <==> ShiftsToOne(v, 19))
    ensures (NumberBit(v, 20) <==> ShiftsToOne(v, 20)) && (NumberBit(v, 21) <==> ShiftsToOne(v, 21))
    ensures (NumberBit(v, 22) <==> ShiftsToOne(v, 22)) && (NumberBit(v, 23) <==> ShiftsToOne(v, 23))
  {
  }

  lemma LastBits(v: word)
    ensures (NumberBit(v, 24) <==> ShiftsToOne(v, 24)) && (NumberBit(v, 25) <==> ShiftsToOne(v, 25))
    ensures (NumberBit(v, 26) <==> ShiftsToOne(v, 26)) && (NumberBit(v, 27) <==> ShiftsToOne(v, 27))
    ensures (NumberBit(v, 28) <==> ShiftsToOne(v, 28)) && (NumberBit(v, 29) <==> ShiftsToOne(v, 29))
    ensures (NumberBit(v, 30) <==> ShiftsToOne(v, 30)) && (NumberBit(v, 31) <==> ShiftsToOne(v, 31))
  {
  }

  /** Bit j of a number is what shifting it right by j leaves at the low end. */
  lemma NumberBitIs(v: word, j: nat)
    requires j < 32
    ensures NumberBit(v, j) <==> (v >> j) & 1 == 1
  {
    hide NumberBit;
    NumberBitShifts(v, j);
  }

  lemma BitIn0(v: word, k: nat)
    requires 0 <= k < 8
    ensures NumberBit(v, k) <==> ShiftsToOne(v, k)
  {
    hide NumberBit, ShiftsToOne;
    FirstBits(v);
    assert k == 0 || k == 1 || k == 2 || k == 3 ||
           k == 4 || k == 5 || k == 6 || k == 7;
  }

  lemma BitIn1(v: word, k: nat)
    requires 8 <= k < 16
    ensures NumberBit(v, k) <==> ShiftsToOne(v, k)
  {
    hide NumberBit, ShiftsToOne;
    SecondBits(v);
    assert k == 8 || k == 9 || k == 10 || k == 11 ||
           k == 12 || k == 13 || k == 14 || k == 15;
  }

  lemma BitIn2(v: word, k: nat)
    requires 16 <= k < 24
    ensures NumberBit(v, k) <==> ShiftsToOne(v, k)
  {
    hide NumberBit, ShiftsToOne;
    ThirdBits(v);
    assert k == 16 || k == 17 || k == 18 || k == 19 ||
           k == 20 || k == 21 || k == 22 || k == 23;
  }

  lemma BitIn3(v: word, k: nat)
    requires 24 <= k < 32
    ensures NumberBit(v, k) <==> ShiftsToOne(v, k)
  {
    hide NumberBit, ShiftsToOne;
    LastBits(v);
    assert k == 24 || k == 25 || k == 26 || k == 27 ||
           k == 28 || k == 29 || k == 30 || k == 31;
  }

  lemma NumberBitShifts(v: word, k: nat)
    requires k < 32
    ensures NumberBit(v, k) <==> ShiftsToOne(v, k)
  {
    hide NumberBit, ShiftsToOne;
    if k < 8 {
      BitIn0(v, k);
    } else if k < 16 {
      BitIn1(v, k);
    } else if k < 24 {
      BitIn2(v, k);
    } else {
      BitIn3(v, k);
    }
  }

  // ---------- the scalar calls ----------

  /** Bytes, 16-bit and 32-bit numbers go out bit by bit: from bit 0 up when the least significant bit is
      first, from the top bit down otherwise. */
  lemma ScalarsAreNumbers(b: byte, h: bv16, w: word, lsbFirst: bool)
    ensures Bits([b], lsbFirst) == NumberBits(b as bv32, 8, lsbFirst)
    ensures Bits(Bytes16(h, lsbFirst), lsbFirst) == NumberBits(h as bv32, 16, lsbFirst)
    ensures Bits(Bytes32(w, lsbFirst), lsbFirst) == NumberBits(w, 32, lsbFirst)
  {
    hide ByteAt, Bit, NumberBit, Bytes16, Bytes32, Bits;
    ByteInWord(b);
    HalfWordBytes(h);
    forall k | 0 <= k < 8
      ensures Bits([b], lsbFirst)[k] == NumberBits(b as bv32, 8, lsbFirst)[k]
    {
      SentBitOf([b], b as bv32, lsbFirst, k);
    }
    Bytes16Are(h);
    forall k | 0 <= k < 16
      ensures Bits(Bytes16(h, lsbFirst), lsbFirst)[k] == NumberBits(h as bv32, 16, lsbFirst)[k]
    {
      SentBitOf(Bytes16(h, lsbFirst), h as bv32, lsbFirst, k);
    }
    Bytes32Are(w);
    forall k | 0 <= k < 32
      ensures Bits(Bytes32(w, lsbFirst), lsbFirst)[k] == NumberBits(w, 32, lsbFirst)[k]
    {
      SentBitOf(Bytes32(w, lsbFirst), w, lsbFirst, k);
    }
  }

  /** The bytes of v, in the order that goes with the bit order. */
  predicate AreBytesOf(bs: seq<byte>, v: word, lsbFirst: bool) {
    |bs| <= 4 && forall i :: 0 <= i < |bs| ==> bs[i] == ByteAt(v, if lsbFirst then i else |bs| - 1 - i)
  }

  lemma Bytes16Are(h: bv16)
    ensures AreBytesOf(Bytes16(h, true), h as bv32, true) && AreBytesOf(Bytes16(h, false), h as bv32, false)
  {
    hide ByteAt, Swap16;
    HalfWordBytes(h);
  }

  lemma Bytes32Are(w: word)
    ensures AreBytesOf(Bytes32(w, true), w, true) && AreBytesOf(Bytes32(w, false), w, false)
  {
    hide ByteAt;
  }

  lemma SentBitOf(bs: seq<byte>, v: word, lsbFirst: bool, k: nat)
    requires AreBytesOf(bs, v, lsbFirst) && k < 8 * |bs|
    ensures Bits(bs, lsbFirst)[k] == NumberBit(v, if lsbFirst then k else 8 * |bs| - 1 - k)
  {
    hide ByteAt, Bit, Bits;
    var i, p := k / 8, k % 8;
    BitOfStream(bs, lsbFirst, i, p);
    if !lsbFirst {
      var j := 8 * |bs| - 1 - k;
      assert j / 8 == |bs| - 1 - i && j % 8 == 7 - p;
    }
  }

  // ---------- numbers of any width ----------

  /** The width that the byte swap of spiTransferBits works on: the whole bytes of the number, but all four
      for a number of one byte. */
  function Swapped(bits: nat): nat {
    if bits <= 8 then 32 else (bits + 7) / 8 * 8
  }

  /** Bit b of a word is bit Mirror(total, b) of the word whose first total/8 bytes are exchanged end for end. */
  function Mirror(total: nat, b: nat): int {
    total - 8 - b / 8 * 8 + b % 8
  }

  /** The bits sent for a number of this width: the number itself when the least significant bit is first;
      otherwise the swapped width from its top bit down, as far as bits go. */
  function SentBits(data: word, bits: nat, lsbFirst: bool): (s: seq<bool>)
    requires bits <= 32
    ensures |s| == bits
  {
    seq(bits, k requires 0 <= k < bits =>
      if lsbFirst then NumberBit(data, k)
      else
        var j := Swapped(bits) - 1 - k;
        0 <= j < bits && NumberBit(data, j))
  }

  /** Bit b of the word loaded for it. */
  predicate LoadedBit(data: word, bits: nat, lsbFirst: bool, b: nat)
    requires bits <= 32 && b < 32
  {
    var j := if lsbFirst then b else Mirror(Swapped(bits), b);
    0 <= j < bits && NumberBit(data, j)
  }

  /** Bit j of the number read back from an answer: the bits answered, in the order of the read, and where the
      swapped width is more than what was answered, what was loaded. */
  predicate ReturnedBit(data: word, resp: seq<bool>, wrLsb: bool, rdLsb: bool, j: nat)
    requires |resp| <= 32 && j < 32
  {
    var total := Swapped(|resp|);
    if rdLsb then
      if j < |resp| then resp[j] else LoadedBit(data, |resp|, wrLsb, j)
    else
      j < total && if total - 1 - j < |resp| then resp[total - 1 - j]
                   else LoadedBit(data, |resp|, wrLsb, Mirror(total, j))
  }

  lemma DecodedBit(v: word, bits: nat, lsbFirst: bool, b: nat)
    requires 1 <= bits <= 32 && b < 32
    ensures var total := Swapped(bits);
            NumberBit(Decoded(v, bits, lsbFirst), b) ==
            if lsbFirst then NumberBit(v, b) else b < total && NumberBit(v, Mirror(total, b))
  {
    hide ByteAt, Bit, Decoded, Swapped, Mirror;
    SwappedFits(bits);
    if lsbFirst {
      assert Decoded(v, bits, true) == v by { NotSwapped(v, bits); }
    } else {
      DecodedByte(v, bits, b / 8);
      AllZero(b % 8);
      if b < Swapped(bits) {
        MirrorParts(Swapped(bits), b);
      }
    }
  }

  lemma NotSwapped(v: word, bits: nat)
    requires 1 <= bits <= 32
    ensures Decoded(v, bits, true) == v
  {
  }

  lemma DecodedByte(v: word, bits: nat, i: nat)
    requires 1 <= bits <= 32 && i < 4
    ensures Swapped(bits) / 8 <= 4
    ensures ByteAt(Decoded(v, bits, false), i) ==
            if i < Swapped(bits) / 8 then ByteAt(v, Swapped(bits) / 8 - 1 - i) else 0
  {
    hide ByteAt, Msb16, Msb24, Msb32, Decoded, Swapped;
    SwapChosen(v, bits);
    SwapBytes(v);
    assert i == 0 || i == 1 || i == 2 || i == 3;
  }

  lemma SwapChosen(v: word, bits: nat)
    requires 1 <= bits <= 32
    ensures || (Swapped(bits) == 16 && Decoded(v, bits, false) == Msb16(v))
            || (Swapped(bits) == 24 && Decoded(v, bits, false) == Msb24(v))
            || (Swapped(bits) == 32 && Decoded(v, bits, false) == Msb32(v))
  {
    hide ByteAt, Msb16, Msb24, Msb32, Swapped;
    SwapsOf(bits);
  }

  lemma SwapsOf(bits: nat)
    requires 1 <= bits <= 32
    ensures Swapped(bits) == if (bits + 7) / 8 == 2 then 16 else if (bits + 7) / 8 == 3 then 24 else 32
  {
  }

  lemma MirrorParts(total: nat, b: nat)
    requires b < total <= 32 && total % 8 == 0
    ensures 0 <= Mirror(total, b) < total
    ensures Mirror(total, b) / 8 == total / 8 - 1 - b / 8 && Mirror(total, b) % 8 == b % 8
  {
  }

  lemma LoadedIs(data: word, bits: nat, lsbFirst: bool, b: nat)
    requires 1 <= bits <= 32 && b < 32
    ensures NumberBit(BitsWord(data, bits, lsbFirst), b) == LoadedBit(data, bits, lsbFirst, b)
  {
    hide NumberBit, Decoded, Masked, Mirror;
    DecodedBit(Masked(data, bits), bits, lsbFirst, b);
    var j := if lsbFirst then b else Mirror(Swapped(bits), b);
    SwappedFits(bits);
    if !lsbFirst && b >= Swapped(bits) {
      MirrorOutside(Swapped(bits), b);
    } else {
      if !lsbFirst {
        MirrorParts(Swapped(bits), b);
      }
      MaskedBit(data, bits, j);
    }
  }

  lemma SwappedFits(bits: nat)
    requires 1 <= bits <= 32
    ensures bits <= Swapped(bits) <= 32 && Swapped(bits) % 8 == 0
  {
    SwapsOf(bits);
  }

  lemma MirrorOutside(total: nat, b: nat)
    requires total <= b && total % 8 == 0
    ensures Mirror(total, b) < 0
  {
  }

  /** What goes out for a number of any width. */
  lemma BitsSentAre(data: word, bits: nat, lsbFirst: bool)
    requires 1 <= bits <= 32
    ensures FifoBits([BitsWord(data, bits, lsbFirst)], lsbFirst, bits) == SentBits(data, bits, lsbFirst)
  {
    hide FifoBits, BitsWord, NumberBit, Swapped;
    forall k | 0 <= k < bits
      ensures FifoBits([BitsWord(data, bits, lsbFirst)], lsbFirst, bits)[k] == SentBits(data, bits, lsbFirst)[k]
    {
      SentBit(data, bits, lsbFirst, k);
    }
  }

  lemma SentBit(data: word, bits: nat, lsbFirst: bool, k: nat)
    requires 1 <= bits <= 32 && k < bits
    ensures FifoBits([BitsWord(data, bits, lsbFirst)], lsbFirst, bits)[k] == SentBits(data, bits, lsbFirst)[k]
  {
    hide BitsWord, NumberBit, BytesOf, Bits, Swapped, Mirror;
    var b := StreamBit(lsbFirst, k);
    StreamBitOf(BitsWord(data, bits, lsbFirst), lsbFirst, k);
    LoadedIs(data, bits, lsbFirst, b);
    SwappedFits(bits);
    if !lsbFirst {
      MirrorOfStream(Swapped(bits), k);
    }
  }

  /** The bit of a word that travels as number k. */
  function StreamBit(lsbFirst: bool, k: nat): nat {
    k / 8 * 8 + if lsbFirst then k % 8 else 7 - k % 8
  }

  lemma StreamBitOf(w: word, lsbFirst: bool, k: nat)
    requires k < 32
    ensures StreamBit(lsbFirst, k) < 32
    ensures Bits(BytesOf([w]), lsbFirst)[k] == NumberBit(w, StreamBit(lsbFirst, k))
  {
    hide ByteAt, Bit, BytesOf, Bits;
    WordBit(w, lsbFirst, k);
    assert StreamBit(lsbFirst, k) / 8 == k / 8;
  }

  lemma MirrorOfStream(total: nat, k: nat)
    ensures Mirror(total, StreamBit(false, k)) == total - 1 - k
  {
    assert StreamBit(false, k) / 8 == k / 8;
  }

  /** What is read back, for any width, in any combination of orders. */
  lemma BitsReturnedAre(o: word, data: word, resp: seq<bool>, wrLsb: bool, rdLsb: bool, j: nat)
    requires BitsOut(o, data, resp, wrLsb, rdLsb) && j < 32
    ensures NumberBit(o, j) == ReturnedBit(data, resp, wrLsb, rdLsb, j)
  {
    hide Answered, BitsWord, Decoded, NumberBit, Swapped, Mirror, LoadedBit;
    var n := |resp|;
    var raw :| Answered(raw, BitsWord(data, n, wrLsb), resp, rdLsb) && o == Decoded(raw, n, rdLsb);
    var total := Swapped(n);
    SwappedFits(n);
    DecodedBit(raw, n, rdLsb, j);
    if rdLsb {
      RawBit(raw, data, resp, wrLsb, rdLsb, j);
      StreamOfLow(j);
    } else if j < total {
      MirrorParts(total, j);
      RawBit(raw, data, resp, wrLsb, rdLsb, total - 1 - j);
      StreamOfMirror(total, j);
    }
  }

  lemma StreamOfLow(j: nat)
    ensures StreamBit(true, j) == j
  {
  }

  lemma StreamOfMirror(total: nat, j: nat)
    requires j < total && total % 8 == 0
    ensures StreamBit(false, total - 1 - j) == Mirror(total, j)
  {
    var k := total - 1 - j;
    assert k / 8 == total / 8 - 1 - j / 8 && k % 8 == 7 - j % 8;
  }

  /** One bit of the word an answer leaves, by its place in the stream. */
  lemma RawBit(raw: word, data: word, resp: seq<bool>, wrLsb: bool, rdLsb: bool, k: nat)
    requires 1 <= |resp| <= 32 && Answered(raw, BitsWord(data, |resp|, wrLsb), resp, rdLsb) && k < 32
    ensures StreamBit(rdLsb, k) < 32
    ensures NumberBit(raw, StreamBit(rdLsb, k)) ==
            if k < |resp| then resp[k] else LoadedBit(data, |resp|, wrLsb, StreamBit(rdLsb, k))
  {
    hide NumberBit, BitsWord, LoadedBit, BytesOf, Bits, StreamBit;
    var sent := BitsWord(data, |resp|, wrLsb);
    StreamBitOf(raw, rdLsb, k);
    StreamBitOf(sent, rdLsb, k);
    LoadedIs(data, |resp|, wrLsb, StreamBit(rdLsb, k));
  }

  // ---------- pixels ----------

  /** Most significant bit first, what goes out of a pixel buffer of any length: every pixel high byte first;
      but three bytes over at the end are the first of them and two zeros. */
  function SentPixels(bs: seq<byte>): (s: seq<byte>)
    ensures |s| == |bs|
  {
    if |bs| % 4 == 3 then HighByteFirst(bs[..|bs| - 3]) + [bs[|bs| - 3], 0, 0] else HighByteFirst(bs)
  }

  lemma PixelsSentAre(ws: seq<word>, len: nat)
    requires |ws| == WordsFor(len)
    ensures Leading(PixelWords(ws, len, true), len) == SentPixels(Leading(ws, len))
  {
    hide PixelWords, HighByteFirst, Leading, PixelByte, BytesOf;
    var bs, sent := Leading(ws, len), Leading(PixelWords(ws, len, true), len);
    WholeIsEven(len);
    forall k | 0 <= k < len
      ensures (len % 4 == 3 ==> k < Whole(len)) ==> sent[k] == HighByteFirst(bs)[k]
    {
      PixelsCompared(ws, len, k);
    }
    if len % 4 == 3 {
      LastThreeSent(ws, len);
      ThreeOverPixels(sent, bs);
    }
  }

  /** The same for the first bytes of a longer buffer, in either order. */
  lemma PixelsSentOf(ws: seq<word>, len: nat)
    requires len <= 4 * |ws|
    ensures WordsFor(len) <= |ws|
    ensures Leading(PixelWords(ws[..WordsFor(len)], len, true), len) == SentPixels(Leading(ws, len))
    ensures Leading(PixelWords(ws[..WordsFor(len)], len, false), len) == Leading(ws, len)
  {
    hide PixelWords, SentPixels, BytesOf;
    var first := ws[..WordsFor(len)];
    PixelsSentAre(first, len);
    PixelsUnswapped(first, len);
    BytesOfPrefix(ws, WordsFor(len));
    assert Leading(first, len) == Leading(ws, len);
  }

  lemma ThreeOverPixels(sent: seq<byte>, bs: seq<byte>)
    requires |sent| == |bs| && |bs| % 4 == 3
    requires forall k :: 0 <= k < |bs| - 3 ==> sent[k] == HighByteFirst(bs)[k]
    requires sent[|bs| - 3] == bs[|bs| - 3] && sent[|bs| - 2] == 0 && sent[|bs| - 1] == 0
    ensures sent == SentPixels(bs)
  {
    hide HighByteFirst;
    forall k | 0 <= k < |bs| - 3
      ensures HighByteFirst(bs)[k] == HighByteFirst(bs[..|bs| - 3])[k]
    {
      HighByteAt(bs, k);
      HighByteAt(bs[..|bs| - 3], k);
      NextInPair(|bs| - 3, k);
    }
  }
}
