/** Words, bytes and the bits that travel on the wire.  The ESP32 is little-endian: byte 0 of a 32-bit
    word is its least significant byte. */
module Wire {

  type byte = bv8
  type word = bv32

  // ---------- bytes of words ----------

  function ByteAt(w: word, i: nat): byte
    requires i < 4
  {
    if i == 0 then (w & 0xFF) as bv8
    else if i == 1 then ((w >> 8) & 0xFF) as bv8
    else if i == 2 then ((w >> 16) & 0xFF) as bv8
    else ((w >> 24) & 0xFF) as bv8
  }

  /** The word whose bytes in memory are b0, b1, b2, b3. */
  function WordOf(b0: byte, b1: byte, b2: byte, b3: byte): word {
    (b0 as bv32) | ((b1 as bv32) << 8) | ((b2 as bv32) << 16) | ((b3 as bv32) << 24)
  }

  lemma BytesOfWord(b0: byte, b1: byte, b2: byte, b3: byte)
    ensures ByteAt(WordOf(b0, b1, b2, b3), 0) == b0
    ensures ByteAt(WordOf(b0, b1, b2, b3), 1) == b1
    ensures ByteAt(WordOf(b0, b1, b2, b3), 2) == b2
    ensures ByteAt(WordOf(b0, b1, b2, b3), 3) == b3
  {
  }

  /** The memory a word buffer occupies, seen through a byte pointer. */
  function BytesOf(ws: seq<word>): (bs: seq<byte>)
    ensures |bs| == 4 * |ws|
  {
    seq(4 * |ws|, k requires 0 <= k < 4 * |ws| => ByteAt(ws[k / 4], k % 4))
  }

  /** The word buffer that holds these bytes. */
  function WordsOf(bs: seq<byte>): (ws: seq<word>)
    requires |bs| % 4 == 0
    ensures |ws| == |bs| / 4
  {
    seq(|bs| / 4, k requires 0 <= k < |bs| / 4 => WordOf(bs[4 * k], bs[4 * k + 1], bs[4 * k + 2], bs[4 * k + 3]))
  }

  lemma BytesOfWordsOf(bs: seq<byte>)
    requires |bs| % 4 == 0
    ensures BytesOf(WordsOf(bs)) == bs
  {
    forall k | 0 <= k < |bs|
      ensures BytesOf(WordsOf(bs))[k] == bs[k]
    {
      var j := k / 4;
      BytesOfWord(bs[4 * j], bs[4 * j + 1], bs[4 * j + 2], bs[4 * j + 3]);
    }
  }

  lemma ByteOfBuffer(ws: seq<word>, k: nat, i: nat)
    requires k < |ws| && i < 4
    ensures BytesOf(ws)[4 * k + i] == ByteAt(ws[k], i)
  {
    hide ByteAt;
    assert (4 * k + i) / 4 == k && (4 * k + i) % 4 == i;
  }

  // ---------- bits of bytes ----------

  function Bit(b: byte, j: nat): bool
    requires j < 8
  {
    if j == 0 then b & 0x01 != 0
    else if j == 1 then b & 0x02 != 0
    else if j == 2 then b & 0x04 != 0
    else if j == 3 then b & 0x08 != 0
    else if j == 4 then b & 0x10 != 0
    else if j == 5 then b & 0x20 != 0
    else if j == 6 then b & 0x40 != 0
    else b & 0x80 != 0
  }

  function BitValue(on: bool, v: byte): byte {
    if on then v else 0
  }

  /** The byte with these bits, bit 0 first. */
  function ByteOfBits(s: seq<bool>): byte
    requires |s| == 8
  {
    BitValue(s[0], 0x01) | BitValue(s[1], 0x02) | BitValue(s[2], 0x04) | BitValue(s[3], 0x08) |
    BitValue(s[4], 0x10) | BitValue(s[5], 0x20) | BitValue(s[6], 0x40) | BitValue(s[7], 0x80)
  }

  lemma BitOfByteOfBits(s: seq<bool>, j: nat)
    requires |s| == 8 && j < 8
    ensures Bit(ByteOfBits(s), j) == s[j]
  {
  }

  lemma ByteOfItsBits(b: byte, s: seq<bool>)
    requires |s| == 8 && forall j :: 0 <= j < 8 ==> s[j] == Bit(b, j)
    ensures ByteOfBits(s) == b
  {
  }

  // ---------- the bit stream of a byte sequence ----------

  /** The position, inside its byte, of the k-th bit sent: the bit order register at work. */
  function Position(lsbFirst: bool, k: nat): (p: nat)
    requires k < 8
    ensures p < 8
  {
    if lsbFirst then k else 7 - k
  }

  /** The bits of bs in the order they travel. */
  function Bits(bs: seq<byte>, lsbFirst: bool): (s: seq<bool>)
    ensures |s| == 8 * |bs|
  {
    seq(8 * |bs|, k requires 0 <= k < 8 * |bs| => Bit(bs[k / 8], Position(lsbFirst, k % 8)))
  }

  /** The bytes that a received bit stream assembles to. */
  function Unbits(s: seq<bool>, lsbFirst: bool): (bs: seq<byte>)
    requires |s| % 8 == 0
    ensures |bs| == |s| / 8
  {
    seq(|s| / 8, i requires 0 <= i < |s| / 8 => ReceivedByte(s[8 * i..8 * i + 8], lsbFirst))
  }

  function ReceivedByte(s: seq<bool>, lsbFirst: bool): byte
    requires |s| == 8
  {
    ByteOfBits(seq(8, j requires 0 <= j < 8 => s[Position(lsbFirst, j)]))
  }

  lemma UnbitsOfBits(bs: seq<byte>, lsbFirst: bool)
    ensures Unbits(Bits(bs, lsbFirst), lsbFirst) == bs
  {
    hide ReceivedByte;
    var s := Bits(bs, lsbFirst);
    forall i | 0 <= i < |bs|
      ensures Unbits(s, lsbFirst)[i] == bs[i]
    {
      BitsOfByte(bs, lsbFirst, i);
      ByteReceived(bs[i], s[8 * i..8 * i + 8], lsbFirst);
    }
  }

  /** The eight bits of one byte in the stream. */
  lemma BitsOfByte(bs: seq<byte>, lsbFirst: bool, i: nat)
    requires i < |bs|
    ensures forall p :: 0 <= p < 8 ==> Bits(bs, lsbFirst)[8 * i..8 * i + 8][p] == Bit(bs[i], Position(lsbFirst, p))
  {
    hide Bit, Position, Bits;
    forall p | 0 <= p < 8
      ensures Bits(bs, lsbFirst)[8 * i..8 * i + 8][p] == Bit(bs[i], Position(lsbFirst, p))
    {
      BitOfStream(bs, lsbFirst, i, p);
      assert Bits(bs, lsbFirst)[8 * i..8 * i + 8][p] == Bits(bs, lsbFirst)[8 * i + p];
    }
  }

  lemma BitOfStream(bs: seq<byte>, lsbFirst: bool, i: nat, p: nat)
    requires i < |bs| && p < 8
    ensures Bits(bs, lsbFirst)[8 * i + p] == Bit(bs[i], Position(lsbFirst, p))
  {
    hide Bit, Position;
    assert (8 * i + p) / 8 == i && (8 * i + p) % 8 == p;
  }

  lemma ByteReceived(b: byte, t: seq<bool>, lsbFirst: bool)
    requires |t| == 8 && forall p :: 0 <= p < 8 ==> t[p] == Bit(b, Position(lsbFirst, p))
    ensures ReceivedByte(t, lsbFirst) == b
  {
    hide Bit, ByteOfBits;
    ByteOfItsBits(b, seq(8, j requires 0 <= j < 8 => t[Position(lsbFirst, j)]));
  }

  lemma BitsOfUnbits(s: seq<bool>, lsbFirst: bool)
    requires |s| % 8 == 0
    ensures Bits(Unbits(s, lsbFirst), lsbFirst) == s
  {
    hide Bit, ByteOfBits;
    var bs := Unbits(s, lsbFirst);
    forall k | 0 <= k < |s|
      ensures Bits(bs, lsbFirst)[k] == s[k]
    {
      var i, j := k / 8, k % 8;
      var t := s[8 * i..8 * i + 8];
      var p := Position(lsbFirst, j);
      BitOfByteOfBits(seq(8, m requires 0 <= m < 8 => t[Position(lsbFirst, m)]), p);
      assert t[j] == s[k];
    }
  }

  lemma BitsConcat(a: seq<byte>, b: seq<byte>, lsbFirst: bool)
    ensures Bits(a + b, lsbFirst) == Bits(a, lsbFirst) + Bits(b, lsbFirst)
  {
    hide Bits, Bit, Position;
    forall k | 0 <= k < 8 * |a + b|
      ensures Bits(a + b, lsbFirst)[k] == (Bits(a, lsbFirst) + Bits(b, lsbFirst))[k]
    {
      var i, p := k / 8, k % 8;
      BitOfStream(a + b, lsbFirst, i, p);
      if i < |a| {
        BitOfStream(a, lsbFirst, i, p);
      } else {
        BitOfStream(b, lsbFirst, i - |a|, p);
      }
    }
  }

  lemma BitsPrefix(bs: seq<byte>, lsbFirst: bool, n: nat)
    requires n <= |bs|
    ensures Bits(bs, lsbFirst)[..8 * n] == Bits(bs[..n], lsbFirst)
  {
    BitsConcat(bs[..n], bs[n..], lsbFirst);
    assert bs[..n] + bs[n..] == bs;
  }

  lemma BitsSuffix(bs: seq<byte>, lsbFirst: bool, n: nat)
    requires n <= |bs|
    ensures Bits(bs, lsbFirst)[8 * n..] == Bits(bs[n..], lsbFirst)
  {
    BitsConcat(bs[..n], bs[n..], lsbFirst);
    assert bs[..n] + bs[n..] == bs;
  }

  lemma UnbitsConcat(a: seq<bool>, b: seq<bool>, lsbFirst: bool)
    requires |a| % 8 == 0 && |b| % 8 == 0
    ensures Unbits(a + b, lsbFirst) == Unbits(a, lsbFirst) + Unbits(b, lsbFirst)
  {
    BitsOfUnbits(a, lsbFirst);
    BitsOfUnbits(b, lsbFirst);
    BitsConcat(Unbits(a, lsbFirst), Unbits(b, lsbFirst), lsbFirst);
    UnbitsOfBits(Unbits(a, lsbFirst) + Unbits(b, lsbFirst), lsbFirst);
  }

  // ---------- the FIFO ----------

  /** The first n bits the controller sends from a word buffer: byte 0 of word 0 first. */
  function FifoBits(buf: seq<word>, lsbFirst: bool, n: nat): (s: seq<bool>)
    requires n <= 32 * |buf|
    ensures |s| == n
  {
    Bits(BytesOf(buf), lsbFirst)[..n]
  }

  /** The buffer after its first |resp| bits are replaced by the bits received. */
  function Overwrite(buf: seq<word>, lsbFirst: bool, resp: seq<bool>): (ws: seq<word>)
    requires |resp| <= 32 * |buf|
    ensures |ws| == |buf|
  {
    WordsOf(Unbits(resp + Bits(BytesOf(buf), lsbFirst)[|resp|..], lsbFirst))
  }

  lemma FifoWholeBytes(buf: seq<word>, lsbFirst: bool, n: nat)
    requires n <= 4 * |buf|
    ensures FifoBits(buf, lsbFirst, 8 * n) == Bits(BytesOf(buf)[..n], lsbFirst)
  {
    BitsPrefix(BytesOf(buf), lsbFirst, n);
  }

  lemma OverwriteBytes(buf: seq<word>, lsbFirst: bool, resp: seq<bool>)
    requires |resp| <= 32 * |buf|
    ensures BytesOf(Overwrite(buf, lsbFirst, resp))
         == Unbits(resp + Bits(BytesOf(buf), lsbFirst)[|resp|..], lsbFirst)
  {
    BytesOfWordsOf(Unbits(resp + Bits(BytesOf(buf), lsbFirst)[|resp|..], lsbFirst));
  }

  lemma UnbitsSpliced(bs: seq<byte>, lsbFirst: bool, resp: seq<bool>, n: nat)
    requires |resp| == 8 * n && n <= |bs|
    ensures Unbits(resp + Bits(bs, lsbFirst)[8 * n..], lsbFirst) == Unbits(resp, lsbFirst) + bs[n..]
  {
    BitsSuffix(bs, lsbFirst, n);
    UnbitsConcat(resp, Bits(bs[n..], lsbFirst), lsbFirst);
    UnbitsOfBits(bs[n..], lsbFirst);
  }

  lemma OverwriteWholeBytes(buf: seq<word>, lsbFirst: bool, resp: seq<bool>, n: nat)
    requires |resp| == 8 * n && n <= 4 * |buf|
    ensures BytesOf(Overwrite(buf, lsbFirst, resp)) == Unbits(resp, lsbFirst) + BytesOf(buf)[n..]
  {
    OverwriteBytes(buf, lsbFirst, resp);
    UnbitsSpliced(BytesOf(buf), lsbFirst, resp, n);
  }

  /** Bits, whole or not, are replaced one for one. */
  lemma OverwriteBits(buf: seq<word>, lsbFirst: bool, resp: seq<bool>)
    requires |resp| <= 32 * |buf|
    ensures Bits(BytesOf(Overwrite(buf, lsbFirst, resp)), lsbFirst) == resp + Bits(BytesOf(buf), lsbFirst)[|resp|..]
  {
    OverwriteBytes(buf, lsbFirst, resp);
    BitsOfUnbits(resp + Bits(BytesOf(buf), lsbFirst)[|resp|..], lsbFirst);
  }

  lemma BytesOfConcat(a: seq<word>, b: seq<word>)
    ensures BytesOf(a + b) == BytesOf(a) + BytesOf(b)
  {
    forall k | 0 <= k < 4 * |a + b|
      ensures BytesOf(a + b)[k] == (BytesOf(a) + BytesOf(b))[k]
    {
      if 4 * |a| <= k {
        assert (k - 4 * |a|) / 4 == k / 4 - |a| && (k - 4 * |a|) % 4 == k % 4;
      }
    }
  }

  lemma BytesOfPrefix(ws: seq<word>, n: nat)
    requires n <= |ws|
    ensures BytesOf(ws[..n]) == BytesOf(ws)[..4 * n] && BytesOf(ws[n..]) == BytesOf(ws)[4 * n..]
  {
    BytesOfConcat(ws[..n], ws[n..]);
    assert ws[..n] + ws[n..] == ws;
  }

  // ---------- what the device answers ----------

  /** The other end of the bus: its next bit is a function of everything it has been sent. */
  type Peer = seq<bool> -> bool

  /** The n bits received while the bits of wire from position start on were sent. */
  function Response(peer: Peer, wire: seq<bool>, start: nat, n: nat): (s: seq<bool>)
    requires start + n <= |wire|
    ensures |s| == n
  {
    seq(n, k requires 0 <= k < n => peer(wire[..start + k]))
  }

  /** A later transfer does not change what was received before, and responses join up. */
  lemma ResponseConcat(peer: Peer, wire: seq<bool>, more: seq<bool>, start: nat, m: nat, n: nat)
    requires start + m == |wire| && n <= |more|
    ensures Response(peer, wire + more, start, m + n)
         == Response(peer, wire, start, m) + Response(peer, wire + more, start + m, n)
  {
    var all := wire + more;
    var joined := Response(peer, all, start, m + n);
    var parts := Response(peer, wire, start, m) + Response(peer, all, start + m, n);
    forall k | 0 <= k < m + n
      ensures joined[k] == parts[k]
    {
      if k < m {
        assert all[..start + k] == wire[..start + k];
      } else {
        assert all[..start + k] == all[..(start + m) + (k - m)];
      }
    }
  }

  /** The bytes received, in the receive bit order. */
  function Received(peer: Peer, wire: seq<bool>, start: nat, n: nat, lsbFirst: bool): (bs: seq<byte>)
    requires start + 8 * n <= |wire|
    ensures |bs| == n
  {
    Unbits(Response(peer, wire, start, 8 * n), lsbFirst)
  }

  lemma ReceivedConcat(peer: Peer, wire: seq<bool>, more: seq<bool>, start: nat, m: nat, n: nat, lsbFirst: bool)
    requires start + 8 * m == |wire| && 8 * n <= |more|
    ensures Received(peer, wire + more, start, m + n, lsbFirst)
         == Received(peer, wire, start, m, lsbFirst) + Received(peer, wire + more, start + 8 * m, n, lsbFirst)
  {
    hide Unbits, Response;
    ResponseConcat(peer, wire, more, start, 8 * m, 8 * n);
    UnbitsConcat(Response(peer, wire, start, 8 * m), Response(peer, wire + more, start + 8 * m, 8 * n), lsbFirst);
  }

  // ---------- numbers on the wire ----------

  /** Bit j of a 32-bit number. */
  function NumberBit(v: word, j: nat): bool
    requires j < 32
  {
    Bit(ByteAt(v, j / 8), j % 8)
  }

  /** The n-bit number v as a serial stream: most significant bit first, or least significant bit first. */
  function NumberBits(v: word, n: nat, lsbFirst: bool): (s: seq<bool>)
    requires n <= 32
    ensures |s| == n
  {
    seq(n, k requires 0 <= k < n => NumberBit(v, if lsbFirst then k else n - 1 - k))
  }

  // ---------- memory ----------

  /** memcpy to the start of a word buffer through a byte pointer. */
  function StoreBytes(ws: seq<word>, bs: seq<byte>): (r: seq<word>)
    requires |bs| <= 4 * |ws|
    ensures |r| == |ws|
    ensures BytesOf(r) == bs + BytesOf(ws)[|bs|..]
  {
    var all := bs + BytesOf(ws)[|bs|..];
    BytesOfWordsOf(all);
    WordsOf(all)
  }

  /** The filler sent when there is no data. */
  function Ones(n: nat): (bs: seq<byte>)
    ensures |bs| == n
  {
    seq(n, _ => 0xFF)
  }

  /** Nothing but ones goes out for it, in either bit order. */
  lemma OnesAreOnes(n: nat, lsbFirst: bool)
    ensures Bits(Ones(n), lsbFirst) == seq(8 * n, _ => true)
  {
    hide Bit;
    forall k | 0 <= k < 8 * n
      ensures Bits(Ones(n), lsbFirst)[k]
    {
      OnesBit(Position(lsbFirst, k % 8));
    }
  }

  lemma OnesBit(j: nat)
    requires j < 8
    ensures Bit(0xFF, j)
  {
  }

  /** A buffer with bs written at position i. */
  function Spliced<T>(a: seq<T>, i: nat, bs: seq<T>): (r: seq<T>)
    requires i + |bs| <= |a|
    ensures |r| == |a| && r[..i] == a[..i] && r[i..i + |bs|] == bs && r[i + |bs|..] == a[i + |bs|..]
  {
    a[..i] + bs + a[i + |bs|..]
  }

  lemma SplicedNothing<T>(a: seq<T>)
    ensures Spliced(a, 0, []) == a
  {
  }

  lemma SplicedTail<T>(a: seq<T>, i: nat, bs: seq<T>, k: nat)
    requires i + |bs| <= k <= |a|
    ensures Spliced(a, i, bs)[k..] == a[k..]
  {
  }

  lemma SplicedConcat<T>(a: seq<T>, b: seq<T>, c: seq<T>)
    requires |b| + |c| <= |a|
    ensures Spliced(Spliced(a, 0, b), |b|, c) == Spliced(a, 0, b + c)
  {
  }

  // ---------- byte orders ----------

  function Bytes16(x: bv16, lsbFirst: bool): (bs: seq<byte>)
    ensures |bs| == 2
  {
    var lo, hi := (x & 0xFF) as bv8, (x >> 8) as bv8;
    if lsbFirst then [lo, hi] else [hi, lo]
  }

  /** The bytes of a number in the order that goes with a bit order: little-endian when the least
      significant bit is first, big-endian otherwise. */
  function Bytes32(x: word, lsbFirst: bool): (bs: seq<byte>)
    ensures |bs| == 4
  {
    if lsbFirst then [ByteAt(x, 0), ByteAt(x, 1), ByteAt(x, 2), ByteAt(x, 3)]
    else [ByteAt(x, 3), ByteAt(x, 2), ByteAt(x, 1), ByteAt(x, 0)]
  }

  // ---------- one more chunk of a long transfer ----------

  /** From a wire that carried start, sending sent led to end, and got was received meanwhile. */
  ghost predicate Exchanged(peer: Peer, start: seq<bool>, end: seq<bool>, sent: seq<byte>, got: seq<byte>,
                            wrLsb: bool, rdLsb: bool)
  {
    end == start + Bits(sent, wrLsb) && got == Received(peer, end, |start|, |sent|, rdLsb)
  }

  /** Two transfers, one after the other, are one transfer. */
  lemma ExchangedMore(peer: Peer, start: seq<bool>, mid: seq<bool>, end: seq<bool>,
                      sent: seq<byte>, got: seq<byte>, more: seq<byte>, answer: seq<byte>, wrLsb: bool, rdLsb: bool)
    requires Exchanged(peer, start, mid, sent, got, wrLsb, rdLsb)
    requires Exchanged(peer, mid, end, more, answer, wrLsb, rdLsb)
    ensures Exchanged(peer, start, end, sent + more, got + answer, wrLsb, rdLsb)
  {
    hide Bits, Received;
    BitsConcat(sent, more, wrLsb);
    ReceivedConcat(peer, mid, Bits(more, wrLsb), |start|, |sent|, |more|, rdLsb);
  }

  /** The state of a byte-chunked transfer: the bytes of all as far as got reaches were exchanged. */
  ghost predicate ByteProgress(peer: Peer, start: seq<bool>, wire: seq<bool>, all: seq<byte>, got: seq<byte>,
                               wrLsb: bool, rdLsb: bool)
  {
    |got| <= |all| && Exchanged(peer, start, wire, all[..|got|], got, wrLsb, rdLsb)
  }

  lemma SliceOfOneBytes(n: nat, i: nat, k: nat)
    requires i + k <= n
    ensures Ones(n)[i..i + k] == Ones(k)
  {
  }

  lemma NoByteProgress(peer: Peer, start: seq<bool>, all: seq<byte>, wrLsb: bool, rdLsb: bool)
    ensures ByteProgress(peer, start, start, all, [], wrLsb, rdLsb)
  {
  }

  lemma MoreByteProgress(peer: Peer, start: seq<bool>, mid: seq<bool>, end: seq<bool>, all: seq<byte>, got: seq<byte>,
                         more: seq<byte>, answer: seq<byte>, wrLsb: bool, rdLsb: bool)
    requires ByteProgress(peer, start, mid, all, got, wrLsb, rdLsb)
    requires Exchanged(peer, mid, end, more, answer, wrLsb, rdLsb)
    requires |got| + |answer| <= |all| && more == all[|got|..|got| + |answer|]
    ensures ByteProgress(peer, start, end, all, got + answer, wrLsb, rdLsb)
  {
    hide Exchanged;
    ExchangedMore(peer, start, mid, end, all[..|got|], got, more, answer, wrLsb, rdLsb);
    assert all[..|got|] + more == all[..|got| + |answer|];
  }

  lemma ByteProgressMeans(peer: Peer, start: seq<bool>, wire: seq<bool>, all: seq<byte>, got: seq<byte>,
                          wrLsb: bool, rdLsb: bool)
    requires ByteProgress(peer, start, wire, all, got, wrLsb, rdLsb)
    ensures wire == start + Bits(all[..|got|], wrLsb) && |wire| == |start| + 8 * |got|
    ensures got == Received(peer, wire, |start|, |got|, rdLsb)
  {
    hide Bits, Received;
  }

  lemma SplitOnes(n: nat, chunk: nat)
    requires chunk <= n
    ensures Ones(n)[..chunk] == Ones(chunk) && Ones(n)[chunk..] == Ones(n - chunk)
  {
  }

  lemma ExchangedMeans(peer: Peer, start: seq<bool>, end: seq<bool>, sent: seq<byte>, got: seq<byte>,
                       wrLsb: bool, rdLsb: bool)
    requires Exchanged(peer, start, end, sent, got, wrLsb, rdLsb)
    ensures end == start + Bits(sent, wrLsb) && |end| == |start| + 8 * |sent|
    ensures got == Received(peer, end, |start|, |sent|, rdLsb)
  {
    hide Bits, Received;
  }

  // ---------- word buffers, a chunk at a time ----------

  function WordsFor(bytes: nat): nat {
    (bytes + 3) / 4
  }

  lemma NoWords()
    ensures WordsFor(0) == 0
  {
  }

  /** The next chunk of a transfer counted in bytes and in words at once: at most 64 bytes, 16 words. */
  lemma NextChunk(left: nat, longs: nat, cLen: nat, cLongs: nat)
    requires longs == WordsFor(left) && 0 < left
    requires cLen == (if left > 64 then 64 else left) && cLongs == (if longs > 16 then 16 else longs)
    ensures cLongs == WordsFor(cLen) && 1 <= cLongs <= longs && cLen <= 4 * cLongs
    ensures longs - cLongs == WordsFor(left - cLen)
    ensures left - cLen != 0 ==> cLen == 4 * cLongs
  {
  }

  /** The first len bytes of a word buffer. */
  function Leading(ws: seq<word>, len: nat): (bs: seq<byte>)
    requires len <= 4 * |ws|
    ensures |bs| == len
  {
    BytesOf(ws)[..len]
  }

  /** The bytes after the first len, up to the end of the last word they touch. */
  function Padding(ws: seq<word>, len: nat): (bs: seq<byte>)
    requires len <= 4 * |ws|
  {
    BytesOf(ws)[len..4 * WordsFor(len)]
  }

  function OnesWords(n: nat): (ws: seq<word>)
    ensures |ws| == n
  {
    seq(n, _ => 0xFFFF_FFFF)
  }

  lemma BytesOfOnes(n: nat)
    ensures BytesOf(OnesWords(n)) == Ones(4 * n)
  {
  }

  /** The bytes of the next n bytes' worth of words follow those of the words before. */
  lemma NextWords(all: seq<word>, done: nat, ws: seq<word>, n: nat)
    requires done + |ws| <= |all| && ws == all[done..done + |ws|] && n <= 4 * |ws|
    ensures BytesOf(all)[..4 * done] + BytesOf(ws)[..n] == BytesOf(all)[..4 * done + n]
    ensures BytesOf(ws)[n..] == BytesOf(all)[4 * done + n..4 * (done + |ws|)]
  {
    hide BytesOf;
    BytesOfSlice(all, done, |ws|);
    NextSlice(BytesOf(all), 4 * done, 4 * |ws|, n);
  }

  lemma NextSlice(bs: seq<byte>, i: nat, k: nat, n: nat)
    requires n <= k && i + k <= |bs|
    ensures bs[..i] + bs[i..i + k][..n] == bs[..i + n] && bs[i..i + k][n..] == bs[i + n..i + k]
  {
  }

  lemma BytesOfSlice(all: seq<word>, i: nat, k: nat)
    requires i + k <= |all|
    ensures BytesOf(all[i..i + k]) == BytesOf(all)[4 * i..4 * (i + k)]
  {
    hide BytesOf;
    BytesOfPrefix(all, i + k);
    BytesOfPrefix(all[..i + k], i);
    assert all[..i + k][i..] == all[i..i + k];
  }

  /** The state of a word-chunked transfer: the first n bytes of all were exchanged, in done words; got was
      received, and res are the words that came back, padded with the bytes of all that were not sent. */
  ghost predicate Progress(peer: Peer, start: seq<bool>, wire: seq<bool>, all: seq<word>, n: nat, done: nat,
                           got: seq<byte>, res: seq<word>, wrLsb: bool, rdLsb: bool)
  {
    && done == |res| <= |all|
    && n == |got| <= 4 * done
    && Exchanged(peer, start, wire, BytesOf(all)[..n], got, wrLsb, rdLsb)
    && BytesOf(res) == got + BytesOf(all)[n..4 * done]
  }

  lemma NoProgress(peer: Peer, start: seq<bool>, all: seq<word>, wrLsb: bool, rdLsb: bool)
    ensures Progress(peer, start, start, all, 0, 0, [], [], wrLsb, rdLsb)
  {
  }

  lemma MoreProgress(peer: Peer, start: seq<bool>, mid: seq<bool>, end: seq<bool>, all: seq<word>, done: nat,
                     got: seq<byte>, res: seq<word>, ws: seq<word>, m: nat, answer: seq<byte>, back: seq<word>,
                     wrLsb: bool, rdLsb: bool)
    requires Progress(peer, start, mid, all, 4 * done, done, got, res, wrLsb, rdLsb)
    requires done + |ws| <= |all| && ws == all[done..done + |ws|] && m == |answer| <= 4 * |ws| && |back| == |ws|
    requires Exchanged(peer, mid, end, BytesOf(ws)[..m], answer, wrLsb, rdLsb)
    requires BytesOf(back) == answer + BytesOf(ws)[m..]
    ensures Progress(peer, start, end, all, 4 * done + m, done + |ws|, got + answer, res + back, wrLsb, rdLsb)
  {
    hide BytesOf, Exchanged;
    NextWords(all, done, ws, m);
    ExchangedMore(peer, start, mid, end, BytesOf(all)[..4 * done], got, BytesOf(ws)[..m], answer, wrLsb, rdLsb);
    BytesOfConcat(res, back);
    assert BytesOf(all)[4 * done..4 * done] == [];
  }

  /** What a finished transfer means: what was sent, and what the result buffer holds. */
  lemma ProgressMeans(peer: Peer, start: seq<bool>, wire: seq<bool>, all: seq<word>, n: nat,
                      got: seq<byte>, res: seq<word>, before: seq<word>, wrLsb: bool, rdLsb: bool)
    requires Progress(peer, start, wire, all, n, WordsFor(n), got, res, wrLsb, rdLsb)
    ensures WordsFor(n) == |res| <= |all| && n <= 4 * |all|
    ensures wire == start + Bits(Leading(all, n), wrLsb) && |wire| == |start| + 8 * n
    ensures |res| <= |before| ==>
              && n <= 4 * |before|
              && Leading(Spliced(before, 0, res), n) == Received(peer, wire, |start|, n, rdLsb)
              && Padding(Spliced(before, 0, res), n) == Padding(all, n)
              && Spliced(before, 0, res)[|res|..] == before[|res|..]
  {
    hide Bits, Received, BytesOf;
    if |res| <= |before| {
      SplicedWords(before, res);
      var bs := BytesOf(Spliced(before, 0, res));
      assert bs[..n] == bs[..4 * |res|][..n];
      assert bs[n..4 * |res|] == bs[..4 * |res|][n..];
    }
  }

  lemma LeadingOnes(n: nat)
    ensures Leading(OnesWords(WordsFor(n)), n) == Ones(n)
  {
    hide BytesOf, Ones, OnesWords;
    BytesOfOnes(WordsFor(n));
    SplitOnes(4 * WordsFor(n), n);
  }

  lemma NextToSend<T>(all: seq<T>, mem: seq<T>, done: nat, k: nat)
    requires |mem| == |all| && done + k <= |all| && mem[done..] == all[done..]
    ensures mem[done..done + k] == all[done..done + k] && mem[done + k..] == all[done + k..]
  {
    assert mem[done..done + k] == mem[done..][..k];
    assert mem[done + k..] == mem[done..][k..];
  }

  lemma SliceOfOnes(n: nat, i: nat, k: nat)
    requires i + k <= n
    ensures OnesWords(n)[i..i + k] == OnesWords(k)
  {
  }

  /** The bytes of a word buffer whose first words were overwritten. */
  lemma SplicedWords(a: seq<word>, res: seq<word>)
    requires |res| <= |a|
    ensures BytesOf(Spliced(a, 0, res))[..4 * |res|] == BytesOf(res)
    ensures Spliced(a, 0, res)[|res|..] == a[|res|..]
  {
    hide BytesOf;
    BytesOfPrefix(Spliced(a, 0, res), |res|);
    assert Spliced(a, 0, res)[..|res|] == res;
  }

  lemma NothingSent(wire: seq<bool>, lsbFirst: bool)
    ensures wire + Bits([], lsbFirst) == wire
  {
  }

  lemma SentMore(start: seq<bool>, all: seq<word>, done: nat, ws: seq<word>, m: nat, lsbFirst: bool)
    requires done + |ws| <= |all| && ws == all[done..done + |ws|] && m <= 4 * |ws|
    ensures start + Bits(BytesOf(all)[..4 * done], lsbFirst) + Bits(BytesOf(ws)[..m], lsbFirst)
         == start + Bits(BytesOf(all)[..4 * done + m], lsbFirst)
  {
    hide BytesOf, Bits;
    NextWords(all, done, ws, m);
    BitsConcat(BytesOf(all)[..4 * done], BytesOf(ws)[..m], lsbFirst);
  }
}
