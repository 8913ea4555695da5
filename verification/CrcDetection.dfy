/** What a CRC-32 says about a buffer that was damaged on its way. */
module CrcDetection {
  import opened LinearRegister
  import opened Crc32

  // ---------------------------------------------------------------------------------------------
  // Bursts
  // ---------------------------------------------------------------------------------------------

  lemma {:induction false} BitOfByte(buf: seq<Byte>, i: nat, j: nat)
    requires i < |buf| && j < 8
    ensures |Bits(buf)| == 8 * |buf| && Bits(buf)[8 * i + j] == ByteBits(buf[i])[j]
    decreases i
  {
    BitsLength(buf);
    BitsLength(buf[1..]);
    if i == 0 {
    } else {
      BitOfByte(buf[1..], i - 1, j);
    }
  }

  lemma {:induction false} BitsLength(buf: seq<Byte>)
    ensures |Bits(buf)| == 8 * |buf|
  {
    if buf == [] {
    } else {
      BitsLength(buf[1..]);
    }
  }

  lemma ByteBitsInjective(a: Byte, b: Byte)
    requires ByteBits(a) == ByteBits(b)
    ensures a == b
  {
    assert forall j :: 0 <= j < 8 ==> ByteBits(a)[j] == ByteBits(b)[j];
    SameBits(a, b);
  }

  lemma SameBits(a: Byte, b: Byte)
    requires (a & 0x80 != 0) == (b & 0x80 != 0) && (a & 0x40 != 0) == (b & 0x40 != 0)
    requires (a & 0x20 != 0) == (b & 0x20 != 0) && (a & 0x10 != 0) == (b & 0x10 != 0)
    requires (a & 0x08 != 0) == (b & 0x08 != 0) && (a & 0x04 != 0) == (b & 0x04 != 0)
    requires (a & 0x02 != 0) == (b & 0x02 != 0) && (a & 0x01 != 0) == (b & 0x01 != 0)
    ensures a == b
  {}

  /** Two messages of equal length that differ only within 32 consecutive bits have different checksums. */
  lemma BurstOfBitsDetected(a: seq<Byte>, b: seq<Byte>, p: nat)
    requires |a| == |b|
    requires |Bits(a)| == |Bits(b)| && p < |Bits(a)| && Bits(a)[p] != Bits(b)[p]
    requires forall i :: 0 <= i < |Bits(a)| && !(p <= i < p + 32) ==> Bits(a)[i] == Bits(b)[i]
    ensures Reference(a) != Reference(b)
  {
    Laws();
    assert IsBurst(XorBits(Bits(a), Bits(b)), p, CRC.width);
    BurstDetected(CRC, ONES, Bits(a), Bits(b), p);
    Complements(Feed(CRC, ONES, Bits(a)), Feed(CRC, ONES, Bits(b)));
  }

  lemma NotIsXor(x: Word)
    ensures Not(x) == Xor(x, ONES)
  {}

  lemma Complements(x: Word, y: Word)
    ensures Not(x) == Not(y) <==> x == y
    ensures Xor(x, y) == ONES <==> y == Not(x)
  {
    NotIsXor(x);
    NotIsXor(y);
    OnesApart(x, y);
  }

  lemma OnesApart(x: Word, y: Word)
    ensures Xor(x, ONES) == Xor(y, ONES) <==> x == y
    ensures Xor(x, y) == ONES <==> y == Xor(x, ONES)
  {
    Laws();
    Transpose(CRC, x, y, ONES);
  }

  /** Different bytes differ in some bit. */
  lemma DifferentBit(a: seq<Byte>, b: seq<Byte>, k: nat) returns (i: nat)
    requires k < |a| == |b| && a[k] != b[k]
    ensures i < |Bits(a)| == |Bits(b)| && Bits(a)[i] != Bits(b)[i]
  {
    BitsLength(a);
    BitsLength(b);
    if ByteBits(a[k]) == ByteBits(b[k]) {
      ByteBitsInjective(a[k], b[k]);
      assert false;
    }
    var j :| 0 <= j < 8 && ByteBits(a[k])[j] != ByteBits(b[k])[j];
    BitOfByte(a, k, j);
    BitOfByte(b, k, j);
    i := 8 * k + j;
  }

  /** Different bits lie in different bytes. */
  lemma DifferentByte(a: seq<Byte>, b: seq<Byte>, i: nat)
    requires |a| == |b| && i < |Bits(a)| == |Bits(b)| && Bits(a)[i] != Bits(b)[i]
    ensures i / 8 < |a| && a[i / 8] != b[i / 8]
  {
    BitsLength(a);
    BitOfByte(a, i / 8, i % 8);
    BitOfByte(b, i / 8, i % 8);
  }

  /** Two different buffers of equal length that differ only within four consecutive bytes have different checksums. */
  lemma FourByteDamageDetected(a: seq<Byte>, b: seq<Byte>, p: nat)
    requires |a| == |b| && a != b
    requires forall i :: 0 <= i < |a| && !(p <= i < p + 4) ==> a[i] == b[i]
    ensures Reference(a) != Reference(b)
  {
    hide Bits, Reference;
    var k :| 0 <= k < |a| && a[k] != b[k];
    var d := DifferentBit(a, b, k);
    forall i | 0 <= i < |Bits(a)| && Bits(a)[i] != Bits(b)[i]
      ensures 8 * p <= i < 8 * p + 32
    {
      DifferentByte(a, b, i);
    }
    var q := FirstDifference(Bits(a), Bits(b), d);
    BurstOfBitsDetected(a, b, q);
  }

  lemma FirstDifference(u: seq<bool>, v: seq<bool>, k: nat) returns (q: nat)
    requires k < |u| == |v| && u[k] != v[k]
    ensures q <= k && u[q] != v[q] && forall i :: 0 <= i < q ==> u[i] == v[i]
  {
    q := 0;
    while u[q] == v[q]
      invariant q <= k && forall i :: 0 <= i < q ==> u[i] == v[i]
      decreases k - q
    {
      q := q + 1;
    }
  }

  // ---------------------------------------------------------------------------------------------
  // The receiver's check
  // ---------------------------------------------------------------------------------------------

  /** The four bytes of a word, most significant first: the order in which the stream is sent. */
  function WordBytes(w: Word): seq<Byte> {
    [(w >> 24) as Byte, ((w >> 16) & 0xff) as Byte, ((w >> 8) & 0xff) as Byte, (w & 0xff) as Byte]
  }

  const RESIDUE: Word := 0x38fb_2284

  lemma Residue()
    ensures Not(Iterate(Shift, ONES, 32)) == RESIDUE
  {
    IterateAdd(Shift, ONES, 8, 24);
    IterateAdd(Shift, 0x4e08_bfb4, 8, 16);
    IterateAdd(Shift, 0x00b7_647d, 8, 8);
    Residue8();
  }

  lemma Residue8()
    ensures Iterate(Shift, ONES, 8) == 0x4e08_bfb4
    ensures Iterate(Shift, 0x4e08_bfb4, 8) == 0x00b7_647d
    ensures Iterate(Shift, 0x00b7_647d, 8) == 0xb764_7d00
    ensures Iterate(Shift, 0xb764_7d00, 8) == 0xc704_dd7b
  {
    Iterate8(Shift, ONES);
    Iterate8(Shift, 0x4e08_bfb4);
    Iterate8(Shift, 0x00b7_647d);
    Iterate8(Shift, 0xb764_7d00);
  }

  /** A word with byte b on top starts with the bits of b. */
  lemma TopByte(w: Word, b: Byte)
    requires b == (w >> 24) as Byte
    ensures ByteBits(b) == WordBits(CRC, w, 8)
  {
    WordBits8(CRC, w);
    TopByteBits(w);
  }

  lemma TopByteBits(w: Word)
    ensures var b := (w >> 24) as Byte; var x := w << 1 << 1 << 1 << 1;
      && (w & TOP != 0 <==> b & 0x80 != 0)
      && ((w << 1) & TOP != 0 <==> b & 0x40 != 0)
      && ((w << 1 << 1) & TOP != 0 <==> b & 0x20 != 0)
      && ((w << 1 << 1 << 1) & TOP != 0 <==> b & 0x10 != 0)
      && (x & TOP != 0 <==> b & 0x08 != 0)
      && ((x << 1) & TOP != 0 <==> b & 0x04 != 0)
      && ((x << 1 << 1) & TOP != 0 <==> b & 0x02 != 0)
      && ((x << 1 << 1 << 1) & TOP != 0 <==> b & 0x01 != 0)
  {}

  lemma SecondByte(w: Word)
    ensures ByteBits(((w >> 16) & 0xff) as Byte) == WordBits(CRC, Iterate(Left, w, 8), 8)
  {
    assert ((w << 8) >> 24) as Byte == ((w >> 16) & 0xff) as Byte;
    TopByte(w << 8, ((w >> 16) & 0xff) as Byte);
    Left8(w);
  }

  lemma ThirdByte(w: Word)
    ensures ByteBits(((w >> 8) & 0xff) as Byte) == WordBits(CRC, Iterate(Left, w, 16), 8)
  {
    assert ((w << 16) >> 24) as Byte == ((w >> 8) & 0xff) as Byte;
    TopByte(w << 16, ((w >> 8) & 0xff) as Byte);
    Left16(w);
  }

  lemma FourthByte(w: Word)
    ensures ByteBits((w & 0xff) as Byte) == WordBits(CRC, Iterate(Left, w, 24), 8)
  {
    assert ((w << 24) >> 24) as Byte == (w & 0xff) as Byte;
    TopByte(w << 24, (w & 0xff) as Byte);
    Left24(w);
  }

  lemma BitsOfWordBytes(w: Word)
    ensures Bits(WordBytes(w)) == WordBits(CRC, w, 32)
  {
    TopByte(w, (w >> 24) as Byte);
    SecondByte(w);
    ThirdByte(w);
    FourthByte(w);
    FourSymbols(CRC, ByteBits, w, WordBytes(w));
  }

  /** Four trailing bytes w turn remainder r into 32 steps of their mixture. */
  lemma FeedWord(r: Word, w: Word)
    ensures Feed(CRC, r, Bits(WordBytes(w))) == Iterate(Shift, Xor(r, w), 32)
  {
    Laws();
    BitsOfWordBytes(w);
    AbsorbWord(CRC, r, w, 32);
    Left32(w);
  }

  /**
   The receiver's test: a message followed by four bytes has the fixed checksum RESIDUE exactly when those bytes
   are the message's own checksum.
   */
  lemma ReceiverCheck(buf: seq<Byte>, w: Word)
    ensures Reference(buf + WordBytes(w)) == RESIDUE <==> w == Reference(buf)
  {
    var r := Feed(CRC, ONES, Bits(buf));
    FlattenAppend(ByteBits, buf, WordBytes(w));
    FeedAppend(CRC, ONES, Bits(buf), Bits(WordBytes(w)));
    FeedWord(r, w);
    SameResidue(Xor(r, w));
    Complements(r, w);
  }

  lemma SameResidue(x: Word)
    ensures Not(Iterate(Shift, x, 32)) == RESIDUE <==> x == ONES
  {
    Residue();
    Laws();
    Complements(Iterate(Shift, x, 32), Iterate(Shift, ONES, 32));
    IterateInjective(CRC, x, ONES, 32);
  }

  // ---------------------------------------------------------------------------------------------
  // The preload
  // ---------------------------------------------------------------------------------------------

  /** The checksum of no bytes. */
  lemma EmptyChecksum()
    ensures Reference([]) == 0
  {}

  /** The word whose four bytes these are. */
  function WordOf(a: Byte, b: Byte, c: Byte, d: Byte): Word {
    ((a as Word) << 24) | ((b as Word) << 16) | ((c as Word) << 8) | (d as Word)
  }

  lemma WordOfBytes(a: Byte, b: Byte, c: Byte, d: Byte)
    ensures WordBytes(WordOf(a, b, c, d)) == [a, b, c, d]
    ensures WordBytes(Xor(ONES, WordOf(a, b, c, d))) == [!a, !b, !c, !d]
  {}

  /**
   Preloading with ones is complementing the first four bytes of the message and dividing from an empty register, the
   form in which section 3.2.9 of IEEE 802.3 puts it.
   */
  lemma ComplementedStart(buf: seq<Byte>)
    requires |buf| >= 4
    ensures Not(Reference(buf)) == Feed(CRC, 0, Bits([!buf[0], !buf[1], !buf[2], !buf[3]] + buf[4..]))
  {
    var w := WordOf(buf[0], buf[1], buf[2], buf[3]);
    WordOfBytes(buf[0], buf[1], buf[2], buf[3]);
    assert buf == WordBytes(w) + buf[4..];
    FeedAfterWord(ONES, w, buf[4..]);
    FeedAfterWord(0, Xor(ONES, w), buf[4..]);
    XorIdentities(Xor(ONES, w), 0);
    NotTwice(Feed(CRC, ONES, Bits(buf)));
  }

  lemma NotTwice(x: Word)
    ensures Not(Not(x)) == x
  {}

  lemma FeedAfterWord(r: Word, w: Word, rest: seq<Byte>)
    ensures Feed(CRC, r, Bits(WordBytes(w) + rest)) == Feed(CRC, Iterate(Shift, Xor(r, w), 32), Bits(rest))
  {
    FlattenAppend(ByteBits, WordBytes(w), rest);
    FeedAppend(CRC, r, Bits(WordBytes(w)), Bits(rest));
    FeedWord(r, w);
  }

  /** So a zero byte put in front of a message changes its checksum. */
  lemma LeadingZeroDetected(buf: seq<Byte>)
    ensures Reference([0] + buf) != Reference(buf)
  {
    var r := Feed(CRC, ONES, Bits([0]));
    FlattenAppend(ByteBits, [0], buf);
    FeedAppend(CRC, ONES, Bits([0]), Bits(buf));
    ZeroByteMoves();
    Laws();
    FeedInjective(CRC, r, ONES, Bits(buf));
    Complements(Feed(CRC, r, Bits(buf)), Feed(CRC, ONES, Bits(buf)));
  }

  lemma ZeroByteMoves()
    ensures Feed(CRC, ONES, Bits([0])) == 0x4e08_bfb4
  {
    LookupIsEightSteps(ONES, 0);
    assert Bits([0]) == ByteBits(0);
    Entry255();
    assert (ONES >> 24) as Byte ^ 0 == 0xff && (ONES << 8) ^ 0xb1f7_40b4 == 0x4e08_bfb4;
  }

  lemma Entry255()
    ensures Entry(0xff) == 0xb1f7_40b4
  {
    assert (0xff as Byte) as Word << 24 == 0xff00_0000;
    Iterate8(Shift, 0xff00_0000);
  }
}
