/** How the driver arranges numbers and pixels in FIFO words (esp32/esp32spi.c, lines 550-568, 723-730,
    950-1030), and what the arrangement means on the wire. */
module SpiWords {
  import opened Wire

  // ---------- the swaps of the source ----------

  /** (data >> 8) | (data << 8) on a uint16_t. */
  function Swap16(data: bv16): bv16 {
    (data >> 8) | (data << 8)
  }

  /** MSB_16_SET. */
  function Msb16(val: word): word {
    ((val & 0xFF00) >> 8) | ((val & 0xFF) << 8)
  }

  /** __spiTranslate24 and MSB_24_SET. */
  function Msb24(val: word): word {
    (ByteAt(val, 2) as bv32) | ((ByteAt(val, 1) as bv32) << 8) | ((ByteAt(val, 0) as bv32) << 16)
  }

  /** __spiTranslate32 and MSB_32_SET. */
  function Msb32(val: word): word {
    (ByteAt(val, 3) as bv32) | ((ByteAt(val, 2) as bv32) << 8) | ((ByteAt(val, 1) as bv32) << 16)
    | ((ByteAt(val, 0) as bv32) << 24)
  }

  /** MSB_PIX_SET: swap the bytes of both 16-bit halves. */
  function MsbPix(val: word): word {
    (ByteAt(val, 1) as bv32) | ((ByteAt(val, 0) as bv32) << 8) | ((ByteAt(val, 3) as bv32) << 16)
    | ((ByteAt(val, 2) as bv32) << 24)
  }

  lemma SwapBytes(v: word)
    ensures ByteAt(Msb16(v), 0) == ByteAt(v, 1) && ByteAt(Msb16(v), 1) == ByteAt(v, 0)
    ensures ByteAt(Msb16(v), 2) == 0 && ByteAt(Msb16(v), 3) == 0
    ensures ByteAt(Msb24(v), 0) == ByteAt(v, 2) && ByteAt(Msb24(v), 1) == ByteAt(v, 1)
    ensures ByteAt(Msb24(v), 2) == ByteAt(v, 0) && ByteAt(Msb24(v), 3) == 0
    ensures ByteAt(Msb32(v), 0) == ByteAt(v, 3) && ByteAt(Msb32(v), 1) == ByteAt(v, 2)
    ensures ByteAt(Msb32(v), 2) == ByteAt(v, 1) && ByteAt(Msb32(v), 3) == ByteAt(v, 0)
    ensures ByteAt(MsbPix(v), 0) == ByteAt(v, 1) && ByteAt(MsbPix(v), 1) == ByteAt(v, 0)
    ensures ByteAt(MsbPix(v), 2) == ByteAt(v, 3) && ByteAt(MsbPix(v), 3) == ByteAt(v, 2)
    ensures ByteAt(v & 0xFF, 0) == ByteAt(v, 0)
    ensures ByteAt(v & 0xFF, 1) == 0 && ByteAt(v & 0xFF, 2) == 0 && ByteAt(v & 0xFF, 3) == 0
  {
  }

  // ---------- scalars ----------

  /** The FIFO word for a 16-bit number: swapped unless least significant bit first. */
  function Word16(data: bv16, lsbFirst: bool): word {
    (if lsbFirst then data else Swap16(data)) as bv32
  }

  function Word32(data: word, lsbFirst: bool): word {
    if lsbFirst then data else Msb32(data)
  }

  /** The number a 16-bit answer stands for, read back from a FIFO word. */
  function Number16(w: word, lsbFirst: bool): bv16 {
    var data := (w & 0xFFFF) as bv16;
    if lsbFirst then data else Swap16(data)
  }

  function Number32(w: word, lsbFirst: bool): word {
    if lsbFirst then w else Msb32(w)
  }

  lemma BytesOfOne(w: word)
    ensures BytesOf([w]) == [ByteAt(w, 0), ByteAt(w, 1), ByteAt(w, 2), ByteAt(w, 3)]
  {
    hide ByteAt;
    ByteOfBuffer([w], 0, 0);
    ByteOfBuffer([w], 0, 1);
    ByteOfBuffer([w], 0, 2);
    ByteOfBuffer([w], 0, 3);
  }

  lemma HalfWordBytes(h: bv16)
    ensures ByteAt(h as bv32, 0) == (h & 0xFF) as bv8 && ByteAt(h as bv32, 1) == (h >> 8) as bv8
    ensures ByteAt(Swap16(h) as bv32, 0) == (h >> 8) as bv8 && ByteAt(Swap16(h) as bv32, 1) == (h & 0xFF) as bv8
  {
  }

  lemma HalfOfWord(w: word)
    ensures ((w & 0xFFFF) as bv16 & 0xFF) as bv8 == ByteAt(w, 0) && ((w & 0xFFFF) as bv16 >> 8) as bv8 == ByteAt(w, 1)
    ensures (Swap16((w & 0xFFFF) as bv16) & 0xFF) as bv8 == ByteAt(w, 1)
    ensures (Swap16((w & 0xFFFF) as bv16) >> 8) as bv8 == ByteAt(w, 0)
  {
  }

  lemma ByteInWord(x: byte)
    ensures ByteAt(x as bv32, 0) == x
  {
  }

  /** Scalars go out in the byte order that matches the bit order. */
  lemma ScalarBytes(x: byte, h: bv16, w: word, lsbFirst: bool)
    ensures Leading([x as bv32], 1) == [x]
    ensures Leading([Word16(h, lsbFirst)], 2) == Bytes16(h, lsbFirst)
    ensures Leading([Word32(w, lsbFirst)], 4) == Bytes32(w, lsbFirst)
  {
    hide ByteAt, Swap16, Msb32, BytesOf;
    ByteInWord(x);
    BytesOfOne(x as bv32);
    HalfWordBytes(h);
    BytesOfOne(Word16(h, lsbFirst));
    SwapBytes(w);
    BytesOfOne(Word32(w, lsbFirst));
  }

  /** And what comes back is decoded in the same order. */
  lemma ScalarAnswers(w: word, lsbFirst: bool)
    ensures Leading([w], 1) == [(w & 0xFF) as bv8]
    ensures Leading([w], 2) == Bytes16(Number16(w, lsbFirst), lsbFirst)
    ensures Leading([w], 4) == Bytes32(Number32(w, lsbFirst), lsbFirst)
  {
    hide ByteAt, Swap16, Msb32, BytesOf;
    BytesOfOne(w);
    HalfOfWord(w);
    SwapBytes(w);
    LowByte(w);
  }

  lemma LowByte(w: word)
    ensures ByteAt(w, 0) == (w & 0xFF) as bv8
  {
  }

  // ---------- numbers of 1 to 32 bits ----------

  /** (((uint64_t)1 << bits) - 1) & 0xFFFFFFFF. */
  function Mask(bits: nat): word
    requires bits <= 32
  {
    ((((1 as bv64) << bits) - 1) & 0xFFFF_FFFF) as bv32
  }

  /** The FIFO word spiTransferBitsNL loads. */
  function BitsWord(data: word, bits: nat, lsbFirst: bool): word
    requires 1 <= bits <= 32
  {
    Decoded(Masked(data, bits), bits, lsbFirst)
  }

  /** Its byte swap, applied to what is sent and to what comes back. */
  function Decoded(data: word, bits: nat, lsbFirst: bool): word
    requires 1 <= bits <= 32
  {
    var bytes := (bits + 7) / 8;
    if lsbFirst then data else if bytes == 2 then Msb16(data) else if bytes == 3 then Msb24(data) else Msb32(data)
  }

  lemma MaskByte(bits: nat, i: nat)
    requires bits <= 32 && i < 4
    ensures ByteAt(Mask(bits), i) == MaskOfByte(bits, i)
  {
    hide ByteAt, Mask, MaskOfByte;
    MaskByte0(bits);
    MaskByte1(bits);
    MaskByte2(bits);
    MaskByte3(bits);
    assert i == 0 || i == 1 || i == 2 || i == 3;
  }

  lemma MaskByte0(bits: nat)
    requires bits <= 32
    ensures ByteAt(Mask(bits), 0) == MaskOfByte(bits, 0)
  {
  }

  lemma MaskByte1(bits: nat)
    requires bits <= 32
    ensures ByteAt(Mask(bits), 1) == MaskOfByte(bits, 1)
  {
  }

  lemma MaskByte2(bits: nat)
    requires bits <= 32
    ensures ByteAt(Mask(bits), 2) == MaskOfByte(bits, 2)
  {
  }

  lemma MaskByte3(bits: nat)
    requires bits <= 32
    ensures ByteAt(Mask(bits), 3) == MaskOfByte(bits, 3)
  {
  }

  function MaskOfByte(bits: nat, i: nat): byte {
    if 8 * i + 8 <= bits then 0xFF else if bits <= 8 * i then 0 else LowOnes(bits - 8 * i)
  }

  function LowOnes(n: nat): byte
    requires n < 8
  {
    if n == 0 then 0 else if n == 1 then 0x01 else if n == 2 then 0x03 else if n == 3 then 0x07
    else if n == 4 then 0x0F else if n == 5 then 0x1F else if n == 6 then 0x3F else 0x7F
  }

  lemma AndByte0(a: word, b: word)
    ensures ByteAt(a & b, 0) == ByteAt(a, 0) & ByteAt(b, 0)
  {
  }

  lemma AndByte1(a: word, b: word)
    ensures ByteAt(a & b, 1) == ByteAt(a, 1) & ByteAt(b, 1)
  {
  }

  lemma AndByte2(a: word, b: word)
    ensures ByteAt(a & b, 2) == ByteAt(a, 2) & ByteAt(b, 2)
  {
  }

  lemma AndByte3(a: word, b: word)
    ensures ByteAt(a & b, 3) == ByteAt(a, 3) & ByteAt(b, 3)
  {
  }

  lemma AndByte(a: word, b: word, i: nat)
    requires i < 4
    ensures ByteAt(a & b, i) == ByteAt(a, i) & ByteAt(b, i)
  {
    hide ByteAt;
    AndByte0(a, b);
    AndByte1(a, b);
    AndByte2(a, b);
    AndByte3(a, b);
  }

  lemma AndBit(a: byte, n: nat, j: nat)
    requires n < 8 && j < 8
    ensures Bit(a & LowOnes(n), j) == (j < n && Bit(a, j))
  {
  }

  lemma AndAll(a: byte, j: nat)
    requires j < 8
    ensures Bit(a & 0xFF, j) == Bit(a, j) && !Bit(a & 0, j)
  {
  }

  function Masked(v: word, bits: nat): word
    requires bits <= 32
  {
    v & Mask(bits)
  }

  function MaskedByteValue(v: word, bits: nat, i: nat): byte
    requires i < 4
  {
    ByteAt(v, i) & MaskOfByte(bits, i)
  }

  lemma MaskedByte(v: word, bits: nat, i: nat)
    requires bits <= 32 && i < 4
    ensures ByteAt(Masked(v, bits), i) == MaskedByteValue(v, bits, i)
  {
    hide ByteAt, Mask, MaskOfByte;
    AndByte(v, Mask(bits), i);
    MaskByte(bits, i);
  }

  lemma MaskedByteBit(v: word, bits: nat, i: nat, j: nat)
    requires bits <= 32 && i < 4 && j < 8
    ensures Bit(MaskedByteValue(v, bits, i), j) == (8 * i + j < bits && Bit(ByteAt(v, i), j))
  {
    hide ByteAt, Bit, LowOnes;
    AndAll(ByteAt(v, i), j);
    if 8 * i < bits < 8 * i + 8 {
      AndBit(ByteAt(v, i), bits - 8 * i, j);
    }
  }

  /** Masking keeps the low bits and clears the others. */
  lemma MaskedBit(v: word, bits: nat, j: nat)
    requires bits <= 32 && j < 32
    ensures NumberBit(Masked(v, bits), j) == (j < bits && NumberBit(v, j))
  {
    hide ByteAt, Bit, Masked, MaskedByteValue;
    MaskedByte(v, bits, j / 8);
    MaskedByteBit(v, bits, j / 8, j % 8);
  }

  /** The first n bits of a FIFO holding one word, bit by bit. */
  lemma WordBit(w: word, lsbFirst: bool, k: nat)
    requires k < 32
    ensures Bits(BytesOf([w]), lsbFirst)[k] == Bit(ByteAt(w, k / 8), Position(lsbFirst, k % 8))
  {
    hide ByteAt, Bit;
    BytesOfOne(w);
  }

  /** Least significant bit first, any width works: the wire carries the number from bit 0 up. */
  lemma BitsSentLsbFirst(data: word, bits: nat)
    requires 1 <= bits <= 32
    ensures FifoBits([BitsWord(data, bits, true)], true, bits) == NumberBits(data, bits, true)
  {
    hide ByteAt, Masked, Bit;
    var w := BitsWord(data, bits, true);
    forall k | 0 <= k < bits
      ensures FifoBits([w], true, bits)[k] == NumberBits(data, bits, true)[k]
    {
      WordBit(w, true, k);
      MaskedBit(data, bits, k);
    }
  }

  /** Bit k on the wire, most significant bit first, is bit bits-1-k of the masked number. */
  lemma MsbBit(data: word, bits: nat, k: nat)
    requires (bits == 16 || bits == 24 || bits == 32) && k < bits
    ensures Bit(ByteAt(BitsWord(data, bits, false), k / 8), 7 - k % 8) == NumberBit(Masked(data, bits), bits - 1 - k)
  {
    hide ByteAt, Masked, Bit, Msb16, Msb24, Msb32;
    SwapBytes(Masked(data, bits));
    assert (bits - 1 - k) / 8 == bits / 8 - 1 - k / 8 && (bits - 1 - k) % 8 == 7 - k % 8;
  }

  lemma MsbBitSent(data: word, bits: nat, k: nat)
    requires (bits == 16 || bits == 24 || bits == 32) && k < bits
    ensures FifoBits([BitsWord(data, bits, false)], false, bits)[k] == NumberBits(data, bits, false)[k]
  {
    hide ByteAt, Masked, Bit, BitsWord, BytesOf;
    WordBit(BitsWord(data, bits, false), false, k);
    MsbBit(data, bits, k);
    MaskedBit(data, bits, bits - 1 - k);
  }

  /** Most significant bit first, whole bytes from 16 bits on work: the wire carries the number from its
      top bit down. */
  lemma BitsSentMsbFirst(data: word, bits: nat)
    requires bits == 16 || bits == 24 || bits == 32
    ensures FifoBits([BitsWord(data, bits, false)], false, bits) == NumberBits(data, bits, false)
  {
    hide FifoBits, NumberBits, BitsWord;
    forall k | 0 <= k < bits
      ensures FifoBits([BitsWord(data, bits, false)], false, bits)[k] == NumberBits(data, bits, false)[k]
    {
      MsbBitSent(data, bits, k);
    }
  }

  lemma OneBit(j: nat)
    requires j < 32
    ensures NumberBit(1, j) == (j == 0)
  {
  }

  /** Other widths fail, most significant bit first: the number 1 already comes out wrong. */
  lemma BitsSentWrongly(bits: nat)
    requires 1 <= bits <= 32 && bits != 16 && bits != 24 && bits != 32
    ensures !FifoBits([BitsWord(1, bits, false)], false, bits)[bits - 1] && NumberBits(1, bits, false)[bits - 1]
  {
    hide ByteAt, Masked, Bit, Msb16, Msb24, Msb32;
    var k := bits - 1;
    var v := Masked(1, bits);
    var w := BitsWord(1, bits, false);
    WordBit(w, false, k);
    SwapBytes(v);
    OneBit(0);
    var bytes := (bits + 7) / 8;
    var total := if bytes == 2 then 16 else if bytes == 3 then 24 else 32;
    var j := total - 1 - k;
    assert j / 8 == total / 8 - 1 - k / 8 && j % 8 == 7 - k % 8;
    MaskedBit(1, bits, j);
    OneBit(j);
  }

  /** So spiTransferBits puts every number on the wire as it should exactly when the bus is least
      significant bit first or the width is 16, 24 or 32. */
  lemma BitsSentExactly(bits: nat, lsbFirst: bool)
    requires 1 <= bits <= 32
    ensures (forall data: word ::
                FifoBits([BitsWord(data, bits, lsbFirst)], lsbFirst, bits) == NumberBits(data, bits, lsbFirst))
       <==> lsbFirst || bits == 16 || bits == 24 || bits == 32
  {
    hide BitsWord, FifoBits, NumberBits;
    if lsbFirst {
      forall data: word { BitsSentLsbFirst(data, bits); }
    } else if bits == 16 || bits == 24 || bits == 32 {
      forall data: word { BitsSentMsbFirst(data, bits); }
    } else {
      BitsSentWrongly(bits);
    }
  }

  /** Up to 8 bits, most significant bit first, nothing of the number goes out at all. */
  lemma ShortNumbersAreLost(data: word, bits: nat)
    requires 1 <= bits <= 8
    ensures FifoBits([BitsWord(data, bits, false)], false, bits) == seq(bits, _ => false)
  {
    hide BitsWord;
    forall k | 0 <= k < bits
      ensures !FifoBits([BitsWord(data, bits, false)], false, bits)[k]
    {
      LostBit(data, bits, k);
    }
  }

  lemma LostBit(data: word, bits: nat, k: nat)
    requires k < bits <= 8
    ensures !FifoBits([BitsWord(data, bits, false)], false, bits)[k]
  {
    hide ByteAt, Masked, Bit, Msb32, BytesOf;
    WordBit(BitsWord(data, bits, false), false, k);
    SwapBytes(Masked(data, bits));
    MaskedBit(data, bits, 31 - k);
  }

  // ---------- answers of 1 to 32 bits ----------

  /** The FIFO word raw, of which the first |resp| bits were overwritten by the answer. */
  ghost predicate Answered(raw: word, sent: word, resp: seq<bool>, lsbFirst: bool) {
    |resp| <= 32 && Bits(BytesOf([raw]), lsbFirst) == resp + Bits(BytesOf([sent]), lsbFirst)[|resp|..]
  }

  lemma AnsweredBit(raw: word, sent: word, resp: seq<bool>, lsbFirst: bool, k: nat)
    requires Answered(raw, sent, resp, lsbFirst) && k < 32
    ensures Bit(ByteAt(raw, k / 8), Position(lsbFirst, k % 8)) ==
            if k < |resp| then resp[k] else Bit(ByteAt(sent, k / 8), Position(lsbFirst, k % 8))
  {
    hide ByteAt, Bit, Position, Bits, BytesOf;
    WordBit(raw, lsbFirst, k);
    WordBit(sent, lsbFirst, k);
  }

  /** Where numbers go out right, answers come back right: the value returned is the n-bit number
      received, and has no other bits. */
  lemma BitsAnswered(raw: word, data: word, resp: seq<bool>, lsbFirst: bool)
    requires 1 <= |resp| <= 32 && (lsbFirst || |resp| == 16 || |resp| == 24 || |resp| == 32)
    requires Answered(raw, BitsWord(data, |resp|, lsbFirst), resp, lsbFirst)
    ensures NumberBits(Decoded(raw, |resp|, lsbFirst), |resp|, lsbFirst) == resp
    ensures forall j :: |resp| <= j < 32 ==> !NumberBit(Decoded(raw, |resp|, lsbFirst), j)
  {
    hide NumberBit, Decoded, Answered, BitsWord;
    var n := |resp|;
    forall k | 0 <= k < n
      ensures NumberBits(Decoded(raw, n, lsbFirst), n, lsbFirst)[k] == resp[k]
    {
      AnswerBit(raw, data, resp, lsbFirst, k);
    }
    forall j | n <= j < 32
      ensures !NumberBit(Decoded(raw, n, lsbFirst), j)
    {
      NoOtherBit(raw, data, resp, lsbFirst, j);
    }
  }

  /** Some word answers as wanted, whatever was sent. */
  lemma AnswerExists(sent: word, resp: seq<bool>, lsbFirst: bool) returns (raw: word)
    requires |resp| <= 32
    ensures Answered(raw, sent, resp, lsbFirst)
  {
    hide BytesOf, Bits, Unbits, WordsOf;
    var ws := Overwrite([sent], lsbFirst, resp);
    OverwriteBits([sent], lsbFirst, resp);
    raw := ws[0];
    assert ws == [raw];
  }

  lemma ZeroBits(bits: nat, lsbFirst: bool, i: nat, j: nat)
    requires 1 <= bits <= 32 && i < 4 && j < 8
    ensures !Bit(ByteAt(BitsWord(0, bits, lsbFirst), i), j)
  {
    hide BitsWord;
    ZeroWord(bits, lsbFirst);
  }

  lemma ZeroWord(bits: nat, lsbFirst: bool)
    requires 1 <= bits <= 32
    ensures BitsWord(0, bits, lsbFirst) == 0
  {
    hide Mask;
    AndZero(Mask(bits));
  }

  lemma AndZero(w: word)
    ensures 0 & w == 0
  {
  }

  /** The other widths fail here too, most significant bit first: an answer of all ones to the number 0 is
      read back with a 0 at the low end. */
  lemma BitsAnsweredWrongly(bits: nat) returns (raw: word, resp: seq<bool>)
    requires 1 <= bits <= 32 && bits != 16 && bits != 24 && bits != 32
    ensures |resp| == bits && Answered(raw, BitsWord(0, bits, false), resp, false)
    ensures NumberBits(Decoded(raw, bits, false), bits, false) != resp
  {
    hide ByteAt, Bit, BitsWord, Answered, Msb16, Msb24, Msb32;
    resp := seq(bits, _ => true);
    raw := AnswerExists(BitsWord(0, bits, false), resp, false);
    var bytes := (bits + 7) / 8;
    var total := if bytes == 2 then 16 else if bytes == 3 then 24 else 32;
    AnsweredBit(raw, BitsWord(0, bits, false), resp, false, total - 1);
    ZeroBits(bits, false, total / 8 - 1, 0);
    SwapBytes(raw);
    assert !NumberBit(Decoded(raw, bits, false), 0);
    assert NumberBits(Decoded(raw, bits, false), bits, false)[bits - 1] != resp[bits - 1];
  }

  /** So spiTransferBits reads every answer as the number received exactly for the same widths. */
  lemma BitsAnsweredExactly(bits: nat, lsbFirst: bool)
    requires 1 <= bits <= 32
    ensures (forall raw: word, data: word, resp: seq<bool> ::
                |resp| == bits && Answered(raw, BitsWord(data, bits, lsbFirst), resp, lsbFirst) ==>
                  NumberBits(Decoded(raw, bits, lsbFirst), bits, lsbFirst) == resp)
       <==> lsbFirst || bits == 16 || bits == 24 || bits == 32
  {
    hide Decoded, BitsWord, NumberBits, Answered;
    if lsbFirst || bits == 16 || bits == 24 || bits == 32 {
      forall raw: word, data: word, resp: seq<bool> |
        |resp| == bits && Answered(raw, BitsWord(data, bits, lsbFirst), resp, lsbFirst)
        ensures NumberBits(Decoded(raw, bits, lsbFirst), bits, lsbFirst) == resp
      {
        BitsAnswered(raw, data, resp, lsbFirst);
      }
    } else {
      var raw, resp := BitsAnsweredWrongly(bits);
    }
  }

  lemma AnswerBit(raw: word, data: word, resp: seq<bool>, lsbFirst: bool, k: nat)
    requires 1 <= |resp| <= 32 && (lsbFirst || |resp| == 16 || |resp| == 24 || |resp| == 32)
    requires Answered(raw, BitsWord(data, |resp|, lsbFirst), resp, lsbFirst) && k < |resp|
    ensures NumberBit(Decoded(raw, |resp|, lsbFirst), if lsbFirst then k else |resp| - 1 - k) == resp[k]
  {
    hide ByteAt, Bit, BitsWord, Answered, Msb16, Msb24, Msb32;
    var n := |resp|;
    AnsweredBit(raw, BitsWord(data, n, lsbFirst), resp, lsbFirst, k);
    SwapBytes(raw);
    if !lsbFirst {
      assert (n - 1 - k) / 8 == n / 8 - 1 - k / 8 && (n - 1 - k) % 8 == 7 - k % 8;
    }
  }

  lemma NoOtherBit(raw: word, data: word, resp: seq<bool>, lsbFirst: bool, j: nat)
    requires 1 <= |resp| <= 32 && (lsbFirst || |resp| == 16 || |resp| == 24 || |resp| == 32)
    requires Answered(raw, BitsWord(data, |resp|, lsbFirst), resp, lsbFirst) && |resp| <= j < 32
    ensures !NumberBit(Decoded(raw, |resp|, lsbFirst), j)
  {
    hide ByteAt, Bit, Masked, Answered, Msb16, Msb24, Msb32;
    var n := |resp|;
    if lsbFirst {
      AnsweredBit(raw, BitsWord(data, n, lsbFirst), resp, lsbFirst, j);
      MaskedBit(data, n, j);
    } else {
      SwapBytes(raw);
      AllZero(j % 8);
    }
  }

  lemma AllZero(j: nat)
    requires j < 8
    ensures !Bit(0, j)
  {
  }

  lemma MaskValues()
    ensures Mask(16) == 0xFFFF && Mask(32) == 0xFFFF_FFFF
  {
  }

  lemma MaskedIsWhole(h: bv16, w: word)
    ensures Masked(h as bv32, 16) == h as bv32
    ensures Masked(w, 32) == w
  {
    hide Mask;
    MaskValues();
    assert (h as bv32) & 0xFFFF == h as bv32;
    assert w & 0xFFFF_FFFF == w;
  }

  lemma Msb16IsSwap(h: bv16)
    ensures Msb16(h as bv32) == Swap16(h) as bv32
  {
  }

  lemma LowHalf(w: word)
    requires w < 0x1_0000
    ensures (w & 0xFFFF) as bv16 as bv32 == w
  {
  }

  lemma Loads16(h: bv16, lsbFirst: bool)
    ensures BitsWord(h as bv32, 16, lsbFirst) == Word16(h, lsbFirst)
  {
    hide Masked, Msb16, Swap16, Msb32, Msb24;
    MaskedIsWhole(h, 0);
    if !lsbFirst {
      Msb16IsSwap(h);
      assert BitsWord(h as bv32, 16, false) == Msb16(h as bv32);
    }
  }

  lemma Decodes16(w: word, lsbFirst: bool)
    requires w < 0x1_0000
    ensures Decoded(w, 16, lsbFirst) == Number16(w, lsbFirst) as bv32
  {
    hide Masked, Msb16, Swap16, Msb32, Msb24;
    LowHalf(w);
    if !lsbFirst {
      var h := (w & 0xFFFF) as bv16;
      Msb16IsSwap(h);
      assert Decoded(w, 16, false) == Msb16(h as bv32);
    }
  }

  /** The bit-count calls load the same words as the 16- and 32-bit calls, and decode the answers alike. */
  lemma BitsAgreeWithScalars(h: bv16, w: word, lsbFirst: bool)
    ensures BitsWord(h as bv32, 16, lsbFirst) == Word16(h, lsbFirst)
    ensures BitsWord(w, 32, lsbFirst) == Word32(w, lsbFirst)
    ensures w < 0x1_0000 ==> Decoded(w, 16, lsbFirst) == Number16(w, lsbFirst) as bv32
    ensures Decoded(w, 32, lsbFirst) == Number32(w, lsbFirst)
  {
    hide Masked, Msb16, Swap16, Msb32, Msb24, Word16, Number16;
    MaskedIsWhole(h, w);
    Loads16(h, lsbFirst);
    if w < 0x1_0000 {
      Decodes16(w, lsbFirst);
    }
  }

  /** An answer to a 16-bit number leaves the upper half of its word zero. */
  lemma AnswerFits(raw: word, h: bv16, resp: seq<bool>, wrLsb: bool, rdLsb: bool)
    requires |resp| == 16 && Answered(raw, Word16(h, wrLsb), resp, rdLsb)
    ensures raw < 0x1_0000
  {
    hide ByteAt, Bits, BytesOf, Word16, Answered;
    var sent := Word16(h, wrLsb);
    AnswerTail(raw, sent, resp, rdLsb);
    BytesOfOne(raw);
    BytesOfOne(sent);
    UpperHalf(h, wrLsb);
    assert ByteAt(raw, 2) == BytesOf([raw])[2..][0] && ByteAt(raw, 3) == BytesOf([raw])[2..][1];
    assert ByteAt(sent, 2) == BytesOf([sent])[2..][0] && ByteAt(sent, 3) == BytesOf([sent])[2..][1];
    SmallWord(raw);
  }

  lemma AnswerTail(raw: word, sent: word, resp: seq<bool>, lsbFirst: bool)
    requires |resp| == 16 && Answered(raw, sent, resp, lsbFirst)
    ensures BytesOf([raw])[2..] == BytesOf([sent])[2..]
  {
    hide Bits, BytesOf, Unbits;
    BitsSuffix(BytesOf([raw]), lsbFirst, 2);
    BitsSuffix(BytesOf([sent]), lsbFirst, 2);
    SameTail(resp, Bits(BytesOf([sent]), lsbFirst)[16..]);
    UnbitsOfBits(BytesOf([raw])[2..], lsbFirst);
    UnbitsOfBits(BytesOf([sent])[2..], lsbFirst);
  }

  lemma SameTail(a: seq<bool>, b: seq<bool>)
    ensures (a + b)[|a|..] == b
  {
  }

  lemma UpperHalf(h: bv16, lsbFirst: bool)
    ensures ByteAt(Word16(h, lsbFirst), 2) == 0 && ByteAt(Word16(h, lsbFirst), 3) == 0
  {
  }

  lemma SmallWord(w: word)
    requires ByteAt(w, 2) == 0 && ByteAt(w, 3) == 0
    ensures w < 0x1_0000
  {
  }

  /** The bytes of a number determine it. */
  lemma NumbersFromBytes(h: bv16, h': bv16, w: word, w': word, lsbFirst: bool)
    ensures Bytes16(h, lsbFirst) == Bytes16(h', lsbFirst) ==> h == h'
    ensures Bytes32(w, lsbFirst) == Bytes32(w', lsbFirst) ==> w == w'
  {
    hide ByteAt;
    HalvesOf(h, h');
    if Bytes32(w, lsbFirst) == Bytes32(w', lsbFirst) {
      assert Bytes32(w, lsbFirst)[0] == Bytes32(w', lsbFirst)[0] && Bytes32(w, lsbFirst)[1] == Bytes32(w', lsbFirst)[1];
      assert Bytes32(w, lsbFirst)[2] == Bytes32(w', lsbFirst)[2] && Bytes32(w, lsbFirst)[3] == Bytes32(w', lsbFirst)[3];
      QuartersOf(w, w');
    }
    if Bytes16(h, lsbFirst) == Bytes16(h', lsbFirst) {
      assert Bytes16(h, lsbFirst)[0] == Bytes16(h', lsbFirst)[0] && Bytes16(h, lsbFirst)[1] == Bytes16(h', lsbFirst)[1];
    }
  }

  lemma HalvesOf(h: bv16, h': bv16)
    ensures (h & 0xFF) as bv8 == (h' & 0xFF) as bv8 && (h >> 8) as bv8 == (h' >> 8) as bv8 ==> h == h'
  {
  }

  lemma QuartersOf(w: word, w': word)
    requires ByteAt(w, 0) == ByteAt(w', 0) && ByteAt(w, 1) == ByteAt(w', 1)
    requires ByteAt(w, 2) == ByteAt(w', 2) && ByteAt(w, 3) == ByteAt(w', 3)
    ensures w == w'
  {
  }

  // ---------- pixels ----------

  /** What spiWritePixelsNL stores in the FIFO for one word, where lBytes is the length modulo 4. */
  function PixelWord(w: word, lBytes: nat, isLast: bool, msb: bool): word {
    if !msb then w
    else if lBytes != 0 && isLast then (if lBytes == 2 then Msb16(w) else w & 0xFF)
    else MsbPix(w)
  }

  function PixelWords(ws: seq<word>, len: nat, msb: bool): (r: seq<word>)
    ensures |r| == |ws|
  {
    seq(|ws|, i requires 0 <= i < |ws| => PixelWord(ws[i], len % 4, i == |ws| - 1, msb))
  }

  /** Each 16-bit little-endian pixel with its high byte first; a lone last byte as it is. */
  function HighByteFirst(bs: seq<byte>): (r: seq<byte>)
    ensures |r| == |bs|
  {
    seq(|bs|, k requires 0 <= k < |bs| => if k % 2 == 1 then bs[k - 1] else if k + 1 < |bs| then bs[k + 1] else bs[k])
  }

  /** One byte sent, in terms of the bytes in memory, when whole bytes fill whole words and over bytes
      are left. */
  function PixelByte(bs: seq<byte>, whole: nat, over: nat, k: nat): byte
    requires over < 4 && k < whole + over && whole + (if over == 0 then 0 else 4) <= |bs|
    requires whole % 4 == 0
  {
    if k < whole then (if k % 2 == 1 then bs[k - 1] else bs[k + 1])
    else if over == 2 then (if k == whole then bs[k + 1] else bs[k - 1])
    else if k == whole then bs[k] else 0
  }

  function Whole(len: nat): nat {
    len / 4 * 4
  }

  lemma PixelByteSent(ws: seq<word>, len: nat, k: nat)
    requires |ws| == WordsFor(len) && k < len
    ensures ByteAt(PixelWords(ws, len, true)[k / 4], k % 4) == PixelByte(BytesOf(ws), Whole(len), len % 4, k)
  {
    hide ByteAt, PixelWord, BytesOf, PixelByte;
    var i, j := k / 4, k % 4;
    ByteOfBuffer(ws, i, 0);
    ByteOfBuffer(ws, i, 1);
    ByteOfBuffer(ws, i, 2);
    ByteOfBuffer(ws, i, 3);
    if k < Whole(len) {
      InnerPixelByte(ws[i], BytesOf(ws), Whole(len), len % 4, i, j, i == |ws| - 1);
    } else {
      LastPixelByte(ws[i], BytesOf(ws), i, len % 4, j);
    }
  }

  /** A byte of a last word of which only over bytes count. */
  lemma LastPixelByte(w: word, bs: seq<byte>, i: nat, over: nat, j: nat)
    requires 1 <= over <= 3 && |bs| == 4 * i + 4 && j < over
    requires bs[4 * i] == ByteAt(w, 0) && bs[4 * i + 1] == ByteAt(w, 1)
    ensures ByteAt(PixelWord(w, over, true, true), j) == PixelByte(bs, 4 * i, over, 4 * i + j)
  {
    hide ByteAt, Msb16;
    SwapBytes(w);
  }

  /** A byte of a word that counts in full. */
  lemma InnerPixelByte(w: word, bs: seq<byte>, whole: nat, over: nat, i: nat, j: nat, isLast: bool)
    requires over < 4 && whole % 4 == 0 && (over == 0 || !isLast) && whole + (if over == 0 then 0 else 4) <= |bs|
    requires j < 4 && 4 * i + 4 <= whole
    requires bs[4 * i] == ByteAt(w, 0) && bs[4 * i + 1] == ByteAt(w, 1)
    requires bs[4 * i + 2] == ByteAt(w, 2) && bs[4 * i + 3] == ByteAt(w, 3)
    ensures ByteAt(PixelWord(w, over, isLast, true), j) == PixelByte(bs, whole, over, 4 * i + j)
  {
    hide ByteAt, MsbPix, Msb16;
    SwapBytes(w);
    PairInWord(i, j);
    if j == 0 {
    } else if j == 1 {
    } else if j == 2 {
    }
  }

  lemma PairInWord(i: nat, j: nat)
    requires j < 4
    ensures (4 * i + j) % 2 == j % 2
  {
    Remainder(4 * i + j, 2 * i + j / 2, j % 2);
  }

  lemma Remainder(x: nat, half: nat, r: nat)
    requires x == 2 * half + r && r < 2
    ensures x % 2 == r
  {
  }

  lemma PixelsSent(ws: seq<word>, len: nat, k: nat)
    requires |ws| == WordsFor(len) && k < len
    ensures Leading(PixelWords(ws, len, true), len)[k] == PixelByte(BytesOf(ws), Whole(len), len % 4, k)
  {
    hide ByteAt, PixelWords, PixelByte;
    PixelByteSent(ws, len, k);
  }

  lemma PixelByteIsHighFirst(bs: seq<byte>, whole: nat, over: nat, k: nat)
    requires over < 4 && k < whole + over && whole + (if over == 0 then 0 else 4) <= |bs| && whole % 4 == 0
    requires over == 3 ==> k < whole
    ensures PixelByte(bs, whole, over, k) == HighByteFirst(bs[..whole + over])[k]
  {
    hide HighByteFirst;
    HighByteAt(bs[..whole + over], k);
    NextInPair(whole, k);
  }

  lemma HighByteAt(bs: seq<byte>, k: nat)
    requires k < |bs|
    ensures HighByteFirst(bs)[k] == if k % 2 == 1 then bs[k - 1] else if k + 1 < |bs| then bs[k + 1] else bs[k]
  {
  }

  lemma NextInPair(whole: nat, k: nat)
    requires whole % 4 == 0
    ensures whole % 2 == 0 && (whole + 1) % 2 == 1
    ensures k < whole && k % 2 == 0 ==> k + 1 < whole
  {
    var q := whole / 4;
    Remainder(whole, 2 * q, 0);
    Remainder(whole + 1, 2 * q, 1);
    if k + 1 == whole {
      Remainder(k, 2 * q - 1, 1);
    }
  }

  /** With three bytes over, what is sent for them against what should be. */
  lemma ThreeOverSent(bs: seq<byte>, whole: nat)
    requires whole + 4 <= |bs| && whole % 4 == 0
    ensures PixelByte(bs, whole, 3, whole) == bs[whole]
    ensures PixelByte(bs, whole, 3, whole + 1) == PixelByte(bs, whole, 3, whole + 2) == 0
  {
  }

  lemma ThreeOverWanted(top: seq<byte>, whole: nat)
    requires |top| == whole + 3 && whole % 2 == 0
    ensures HighByteFirst(top)[whole] == top[whole + 1] && HighByteFirst(top)[whole + 1] == top[whole]
    ensures HighByteFirst(top)[whole + 2] == top[whole + 2]
  {
    assert (whole + 1) % 2 == 1 && (whole + 2) % 2 == 0;
  }

  lemma PixelsCompared(ws: seq<word>, len: nat, k: nat)
    requires |ws| == WordsFor(len) && k < len
    ensures Leading(PixelWords(ws, len, true), len)[k] == PixelByte(BytesOf(ws), Whole(len), len % 4, k)
    ensures (len % 4 == 3 ==> k < Whole(len)) ==>
              Leading(PixelWords(ws, len, true), len)[k] == HighByteFirst(Leading(ws, len))[k]
  {
    hide PixelWords, BytesOf, PixelByte, HighByteFirst;
    PixelsSent(ws, len, k);
    if len % 4 == 3 ==> k < Whole(len) {
      PixelByteIsHighFirst(BytesOf(ws), Whole(len), len % 4, k);
    }
  }

  /** Most significant bit first, spiWritePixelsNL sends every pixel high byte first whatever the
      chunking, for every length but those with three bytes over: these go out as the first of them and
      two zeros. */
  lemma PixelsSentExactly(ws: seq<word>, len: nat)
    requires |ws| == WordsFor(len)
    ensures Leading(PixelWords(ws, len, true), len) == HighByteFirst(Leading(ws, len))
       <==> (len % 4 == 3 ==> Leading(ws, len)[len - 3..] == [0, 0, 0])
  {
    hide PixelWords, BytesOf, PixelByte, HighByteFirst, Leading;
    var sent, want := Leading(PixelWords(ws, len, true), len), HighByteFirst(Leading(ws, len));
    forall k | 0 <= k < len
      ensures (len % 4 == 3 ==> k < Whole(len)) ==> sent[k] == want[k]
    {
      PixelsCompared(ws, len, k);
    }
    if len % 4 == 3 {
      ThreeOver(ws, len);
      SameButThree(sent, want, Whole(len));
    }
  }

  lemma ThreeOver(ws: seq<word>, len: nat)
    requires |ws| == WordsFor(len) && len % 4 == 3
    ensures Whole(len) == len - 3
    ensures var bs := Leading(ws, len);
            var sent, want := Leading(PixelWords(ws, len, true), len), HighByteFirst(bs);
            var w := Whole(len);
            && [sent[w], sent[w + 1], sent[w + 2]] == [bs[w], 0, 0]
            && [want[w], want[w + 1], want[w + 2]] == [bs[w + 1], bs[w], bs[w + 2]]
            && bs[len - 3..] == [bs[w], bs[w + 1], bs[w + 2]]
  {
    hide PixelWords, BytesOf, PixelByte, HighByteFirst, Leading, Whole;
    var w, bs := Whole(len), Leading(ws, len);
    WholeIsEven(len);
    LastThreeSent(ws, len);
    ThreeOverWanted(bs, w);
    LastThree(bs, w);
  }

  lemma WholeIsEven(len: nat)
    ensures len % 4 == 3 ==> Whole(len) == len - 3
    ensures Whole(len) % 2 == 0
  {
    NextInPair(Whole(len), 0);
  }

  lemma LastThreeSent(ws: seq<word>, len: nat)
    requires |ws| == WordsFor(len) && len % 4 == 3 && Whole(len) == len - 3
    ensures var sent, bs, w := Leading(PixelWords(ws, len, true), len), Leading(ws, len), Whole(len);
            sent[w] == bs[w] && sent[w + 1] == 0 && sent[w + 2] == 0
  {
    hide PixelWords, BytesOf, PixelByte, Leading, Whole, WordsFor;
    var w := Whole(len);
    WholeFits(len);
    PixelsSent(ws, len, w);
    PixelsSent(ws, len, w + 1);
    PixelsSent(ws, len, w + 2);
    ThreeOverSent(BytesOf(ws), w);
    LeadingAt(ws, len, w);
  }

  lemma WholeFits(len: nat)
    requires len % 4 == 3
    ensures Whole(len) % 4 == 0 && Whole(len) + 4 == 4 * WordsFor(len) && len <= 4 * WordsFor(len)
  {
    var q := len / 4;
    MultipleOfFour(q, q * 4);
    MultipleOfFour(q + 1, len + 1);
    assert (len + 3) / 4 == q + 1;
  }

  lemma MultipleOfFour(q: nat, x: nat)
    requires x == 4 * q
    ensures x % 4 == 0
  {
  }

  lemma LastThree(bs: seq<byte>, w: nat)
    requires |bs| == w + 3
    ensures bs[w..] == [bs[w], bs[w + 1], bs[w + 2]]
  {
  }

  lemma LeadingAt(ws: seq<word>, len: nat, k: nat)
    requires len <= 4 * |ws| && k < len
    ensures Leading(ws, len)[k] == BytesOf(ws)[k]
  {
    hide BytesOf;
  }

  lemma SameButThree(sent: seq<byte>, want: seq<byte>, whole: nat)
    requires |sent| == |want| == whole + 3 && forall k :: 0 <= k < whole ==> sent[k] == want[k]
    ensures sent == want
       <==> [sent[whole], sent[whole + 1], sent[whole + 2]] == [want[whole], want[whole + 1], want[whole + 2]]
  {
    var s, w := [sent[whole], sent[whole + 1], sent[whole + 2]], [want[whole], want[whole + 1], want[whole + 2]];
    if s == w {
      assert s[0] == w[0] && s[1] == w[1] && s[2] == w[2];
    }
  }

  lemma PixelsHighByteFirst(ws: seq<word>, len: nat)
    requires |ws| == WordsFor(len) && len % 2 == 0
    ensures Leading(PixelWords(ws, len, true), len) == HighByteFirst(Leading(ws, len))
  {
    hide PixelWords, BytesOf, HighByteFirst;
    PixelsSentExactly(ws, len);
  }

  /** Least significant bit first, pixels are words as they are. */
  lemma PixelsUnswapped(ws: seq<word>, len: nat)
    ensures PixelWords(ws, len, false) == ws
  {
  }

  /** An answer of whole bytes is the first bytes of the word. */
  lemma AnsweredBytes(raw: word, sent: word, resp: seq<bool>, lsbFirst: bool, n: nat)
    requires Answered(raw, sent, resp, lsbFirst) && |resp| == 8 * n
    ensures Leading([raw], n) == Unbits(resp, lsbFirst)
  {
    hide Bits, Unbits, BytesOf;
    BitsPrefix(BytesOf([raw]), lsbFirst, n);
    assert Bits(BytesOf([raw]), lsbFirst)[..8 * n] == resp;
    UnbitsOfBits(Leading([raw], n), lsbFirst);
  }

  lemma WholeBytesOut(w: word, lsbFirst: bool, n: nat)
    requires n <= 4
    ensures FifoBits([w], lsbFirst, 8 * n) == Bits(Leading([w], n), lsbFirst)
  {
    FifoWholeBytes([w], lsbFirst, n);
  }

  /** Pixels are arranged alike in one go and chunk by chunk. */
  lemma PixelChunk(ws: seq<word>, len: nat, d: nat, k: nat, n: nat, msb: bool)
    requires |ws| == WordsFor(len) && 4 * d + n <= len && 1 <= n && k == WordsFor(n)
    requires n % 4 == 0 || 4 * d + n == len
    ensures d + k <= |ws| && PixelWords(ws[d..d + k], n, msb) == PixelWords(ws, len, msb)[d..d + k]
  {
    hide Msb16, MsbPix, ByteAt;
    var a, b := PixelWords(ws[d..d + k], n, msb), PixelWords(ws, len, msb);
    forall i | 0 <= i < k
      ensures a[i] == b[d + i]
    {
      assert ws[d..d + k][i] == ws[d + i];
    }
  }
}
