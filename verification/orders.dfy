/** Byte order and bit order taken separately: what is sent when a number is arranged for one order and
    sent in another (esp32/esp32spi.c, lines 570-646). */
module SpiOrders {
  import opened Wire

  function Rev(bs: seq<byte>): (r: seq<byte>)
    ensures |r| == |bs|
  {
    seq(|bs|, i requires 0 <= i < |bs| => bs[|bs| - 1 - i])
  }

  /** The bytes of a big-endian number in the order that goes with a bit order. */
  function Ordered(bs: seq<byte>, lsbFirst: bool): (r: seq<byte>)
    ensures |r| == |bs|
  {
    if lsbFirst then Rev(bs) else bs
  }

  /** The byte reads the same in both bit orders. */
  predicate Palindrome(b: byte) {
    Bit(b, 0) == Bit(b, 7) && Bit(b, 1) == Bit(b, 6) && Bit(b, 2) == Bit(b, 5) && Bit(b, 3) == Bit(b, 4)
  }

  /** Byte a reads, in one bit order, as byte b does in the other. */
  predicate Mirrored(a: byte, b: byte) {
    forall j :: 0 <= j < 8 ==> Bit(a, j) == Bit(b, 7 - j)
  }

  /** The whole number reads the same backwards, bit by bit. */
  ghost predicate ReadsBackwards(bs: seq<byte>) {
    forall i :: 0 <= i < |bs| ==> Mirrored(bs[i], bs[|bs| - 1 - i])
  }

  /** When a number arranged for byteOrder and sent in bitOrder looks as if all was done in order o:
      it was; or the bytes read the same backwards; or every byte does; or the whole number does. */
  ghost predicate Harmless(bs: seq<byte>, byteOrder: bool, bitOrder: bool, o: bool) {
    if bitOrder == o then byteOrder == o || bs == Rev(bs)
    else if byteOrder == o then forall b :: b in bs ==> Palindrome(b)
    else ReadsBackwards(bs)
  }

  lemma RevTwice(bs: seq<byte>)
    ensures Rev(Rev(bs)) == bs
  {
  }

  lemma PalindromeIsMirrored(b: byte)
    ensures Palindrome(b) <==> Mirrored(b, b)
  {
    hide Bit;
    if Palindrome(b) {
      forall j | 0 <= j < 8
        ensures Bit(b, j) == Bit(b, 7 - j)
      {
      }
    }
  }

  lemma BitsAt(bs: seq<byte>, lsbFirst: bool, i: nat, j: nat)
    requires i < |bs| && j < 8
    ensures Bits(bs, lsbFirst)[8 * i + j] == Bit(bs[i], if lsbFirst then j else 7 - j)
  {
    hide Bit;
    assert (8 * i + j) / 8 == i && (8 * i + j) % 8 == j;
  }

  /** Two byte sequences look alike in opposite bit orders exactly when they are mirrored byte by byte. */
  lemma MirroredBits(a: seq<byte>, b: seq<byte>, lsbFirst: bool)
    requires |a| == |b|
    ensures Bits(a, lsbFirst) == Bits(b, !lsbFirst) <==> forall i :: 0 <= i < |a| ==> Mirrored(a[i], b[i])
  {
    hide Bit;
    if Bits(a, lsbFirst) == Bits(b, !lsbFirst) {
      forall i, j | 0 <= i < |a| && 0 <= j < 8
        ensures Bit(a[i], j) == Bit(b[i], 7 - j)
      {
        var k := if lsbFirst then j else 7 - j;
        BitsAt(a, lsbFirst, i, k);
        BitsAt(b, !lsbFirst, i, k);
      }
    }
    if forall i :: 0 <= i < |a| ==> Mirrored(a[i], b[i]) {
      forall k | 0 <= k < 8 * |a|
        ensures Bits(a, lsbFirst)[k] == Bits(b, !lsbFirst)[k]
      {
        var i, j := k / 8, k % 8;
        assert Mirrored(a[i], b[i]);
        BitsAt(a, lsbFirst, i, j);
        BitsAt(b, !lsbFirst, i, j);
      }
    }
  }

  lemma SameBitsSameBytes(a: seq<byte>, b: seq<byte>, lsbFirst: bool)
    ensures Bits(a, lsbFirst) == Bits(b, lsbFirst) <==> a == b
  {
    hide Bits, Unbits;
    UnbitsOfBits(a, lsbFirst);
    UnbitsOfBits(b, lsbFirst);
  }

  /** Harmless is exact for what is sent. */
  lemma SentAsExactly(bs: seq<byte>, byteOrder: bool, bitOrder: bool, o: bool)
    ensures Bits(Ordered(bs, byteOrder), bitOrder) == Bits(Ordered(bs, o), o) <==> Harmless(bs, byteOrder, bitOrder, o)
  {
    hide Bits, Palindrome, Mirrored;
    var a, b := Ordered(bs, byteOrder), Ordered(bs, o);
    RevTwice(bs);
    if bitOrder == o {
      SameBitsSameBytes(a, b, o);
    } else {
      MirroredBits(a, b, bitOrder);
      MirroredArrangement(bs, byteOrder, o);
    }
  }

  /** Sequences mirrored byte by byte with themselves. */
  lemma MirroredSame(bs: seq<byte>)
    ensures (forall i :: 0 <= i < |bs| ==> Mirrored(bs[i], bs[i])) <==> forall b :: b in bs ==> Palindrome(b)
  {
    hide Palindrome, Mirrored;
    forall i | 0 <= i < |bs|
      ensures Mirrored(bs[i], bs[i]) <==> Palindrome(bs[i])
    {
      PalindromeIsMirrored(bs[i]);
    }
    if forall b :: b in bs ==> Palindrome(b) {
      assert forall i :: 0 <= i < |bs| ==> bs[i] in bs;
    }
  }

  lemma SameBytesReversed(bs: seq<byte>, b: byte)
    ensures b in Rev(bs) <==> b in bs
  {
    if b in bs {
      var i :| 0 <= i < |bs| && bs[i] == b;
      assert Rev(bs)[|bs| - 1 - i] == b;
    }
  }

  /** And with their reverse, from either end. */
  lemma MirroredReversed(bs: seq<byte>)
    ensures (forall i :: 0 <= i < |bs| ==> Mirrored(Rev(bs)[i], bs[i]))
       <==> (forall i :: 0 <= i < |bs| ==> Mirrored(bs[i], bs[|bs| - 1 - i]))
    ensures (forall i :: 0 <= i < |bs| ==> Mirrored(bs[i], Rev(bs)[i]))
       <==> (forall i :: 0 <= i < |bs| ==> Mirrored(bs[i], bs[|bs| - 1 - i]))
  {
    hide Mirrored, Rev;
    forall i | 0 <= i < |bs|
      ensures Rev(bs)[i] == bs[|bs| - 1 - i]
    {
      RevAt(bs, i);
    }
    FromEitherEnd(bs);
  }

  lemma RevAt(bs: seq<byte>, i: nat)
    requires i < |bs|
    ensures Rev(bs)[i] == bs[|bs| - 1 - i]
  {
  }

  lemma FromEitherEnd(bs: seq<byte>)
    ensures (forall i :: 0 <= i < |bs| ==> Mirrored(bs[|bs| - 1 - i], bs[i]))
       <==> (forall i :: 0 <= i < |bs| ==> Mirrored(bs[i], bs[|bs| - 1 - i]))
  {
    hide Mirrored;
    var n := |bs|;
    if forall i :: 0 <= i < n ==> Mirrored(bs[n - 1 - i], bs[i]) {
      forall i | 0 <= i < n
        ensures Mirrored(bs[i], bs[n - 1 - i])
      {
        var k := n - 1 - i;
        assert Mirrored(bs[n - 1 - k], bs[k]);
      }
    }
    if forall i :: 0 <= i < n ==> Mirrored(bs[i], bs[n - 1 - i]) {
      forall i | 0 <= i < n
        ensures Mirrored(bs[n - 1 - i], bs[i])
      {
        var k := n - 1 - i;
        assert Mirrored(bs[k], bs[n - 1 - k]);
      }
    }
  }

  lemma MirroredArrangement(bs: seq<byte>, byteOrder: bool, o: bool)
    ensures (forall i :: 0 <= i < |bs| ==> Mirrored(Ordered(bs, byteOrder)[i], Ordered(bs, o)[i]))
       <==> Harmless(bs, byteOrder, !o, o)
  {
    hide Palindrome, Mirrored, Rev;
    if byteOrder == o {
      MirroredSame(Ordered(bs, o));
      forall b
        ensures b in Rev(bs) <==> b in bs
      {
        SameBytesReversed(bs, b);
      }
    } else {
      MirroredReversed(bs);
      if o {
        assert Ordered(bs, byteOrder) == bs && Ordered(bs, o) == Rev(bs);
      } else {
        assert Ordered(bs, byteOrder) == Rev(bs) && Ordered(bs, o) == bs;
      }
    }
  }

  /** And for what is read: a number v, decoded in byteOrder from an answer received in bitOrder, is the
      number that order o throughout would have given. */
  lemma AnsweredAsExactly(v: seq<byte>, resp: seq<bool>, byteOrder: bool, bitOrder: bool, o: bool)
    requires |resp| == 8 * |v| && Ordered(v, byteOrder) == Unbits(resp, bitOrder)
    ensures Ordered(v, o) == Unbits(resp, o) <==> Harmless(Unbits(resp, bitOrder), byteOrder, bitOrder, o)
  {
    hide Bits, Unbits, Palindrome, Mirrored;
    var u := Unbits(resp, bitOrder);
    RevTwice(v);
    BitsOfUnbits(resp, bitOrder);
    BitsOfUnbits(resp, o);
    UnbitsOfBits(Ordered(v, o), o);
    assert Ordered(v, o) == Unbits(resp, o) <==> Bits(Ordered(v, o), o) == Bits(u, bitOrder);
    if bitOrder == o {
      SameBitsSameBytes(Ordered(v, o), u, o);
    } else {
      MirroredBits(Ordered(v, o), u, o);
      MirroredAnswer(v, u, byteOrder, o);
    }
  }

  lemma MirroredAnswer(v: seq<byte>, u: seq<byte>, byteOrder: bool, o: bool)
    requires u == Ordered(v, byteOrder)
    ensures (forall i :: 0 <= i < |v| ==> Mirrored(Ordered(v, o)[i], u[i])) <==> Harmless(u, byteOrder, !o, o)
  {
    hide Palindrome, Mirrored, Rev;
    RevTwice(v);
    if byteOrder == o {
      MirroredSame(u);
    } else {
      MirroredReversed(u);
    }
  }

  /** The number itself, big-endian, and both arrangements of it. */
  lemma ArrangedNumbers(h: bv16, w: word, lsbFirst: bool)
    ensures Bytes16(h, lsbFirst) == Ordered(Bytes16(h, false), lsbFirst)
    ensures Bytes32(w, lsbFirst) == Ordered(Bytes32(w, false), lsbFirst)
  {
    hide ByteAt;
  }
}
