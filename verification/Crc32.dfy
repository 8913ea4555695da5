/**
 The table-driven CRC-32: it computes bit-serial polynomial division, and no burst of up to 32 bits escapes it.
 */
module Crc32 {
  import opened LinearRegister

  type Word = bv32
  type Byte = bv8

  const POLY: Word := 0x04c1_1db7
  const TOP: Word := 0x8000_0000
  const ONES: Word := 0xffff_ffff

  // The 32-bit register and its operations.

  /** One shift-and-reduce step. */
  function Shift(c: Word): Word {
    if c & TOP != 0 then (c << 1) ^ POLY else c << 1
  }

  function Left(c: Word): Word { c << 1 }

  function Xor(a: Word, b: Word): Word { a ^ b }

  function Not(a: Word): Word { !a }

  predicate IsTop(c: Word) { c & TOP != 0 }

  predicate IsOdd(c: Word) { c & 1 != 0 }

  const CRC: Register<Word> := Register(Shift, Left, Xor, 0, TOP, IsTop, IsOdd, 32)

  // ---------------------------------------------------------------------------------------------
  // What the CRC is meant to be
  // ---------------------------------------------------------------------------------------------

  /** The bits of a byte, most significant first. */
  function ByteBits(b: Byte): seq<bool> {
    [b & 0x80 != 0, b & 0x40 != 0, b & 0x20 != 0, b & 0x10 != 0,
     b & 0x08 != 0, b & 0x04 != 0, b & 0x02 != 0, b & 0x01 != 0]
  }

  function Bits(buf: seq<Byte>): seq<bool> {
    Flatten(ByteBits, buf)
  }

  /** Bit-serial division preloaded with ones and complemented at the end. */
  function Reference(buf: seq<Byte>): Word {
    Not(Feed(CRC, ONES, Bits(buf)))
  }

  /** The table entry of a byte: eight steps of the byte placed at the top of the register. */
  function Entry(b: Byte): Word {
    Iterate(Shift, (b as Word) << 24, 8)
  }

  // ---------------------------------------------------------------------------------------------
  // The laws of the register
  // ---------------------------------------------------------------------------------------------

  lemma XorIdentities(a: Word, b: Word)
    ensures a ^ 0 == a && 0 ^ a == a && (a ^ b == 0 <==> a == b)
  {}

  lemma AbelianLaws()
    ensures Abelian(CRC)
  {
    forall a: Word, b: Word
      ensures Commutes(CRC, a, b)
    {
      XorCommutes(a, b);
    }
    forall a: Word, b: Word, c: Word
      ensures Associates(CRC, a, b, c)
    {
      XorAssociates(a, b, c);
    }
  }

  lemma XorCommutes(a: Word, b: Word)
    ensures Xor(a, b) == Xor(b, a)
  {}

  lemma XorAssociates(a: Word, b: Word, c: Word)
    ensures Xor(Xor(a, b), c) == Xor(a, Xor(b, c))
  {}

  lemma IdentityLaws()
    ensures Identity(CRC) && SelfInverse(CRC)
  {
    forall a: Word, b: Word
      ensures Xor(a, 0) == a && Xor(0, a) == a && (Xor(a, b) == 0 <==> a == b)
    {
      XorIdentities(a, b);
    }
  }

  lemma ShiftXorBits(a: Word, b: Word)
    ensures (a ^ b) << 1 == (a << 1) ^ (b << 1)
    ensures (a ^ b) & TOP == (a & TOP) ^ (b & TOP)
    ensures ((a << 1) ^ POLY) ^ (b << 1) == ((a << 1) ^ (b << 1)) ^ POLY
    ensures (a << 1) ^ ((b << 1) ^ POLY) == ((a << 1) ^ (b << 1)) ^ POLY
    ensures ((a << 1) ^ POLY) ^ ((b << 1) ^ POLY) == (a << 1) ^ (b << 1)
    ensures a & TOP == 0 || a & TOP == TOP
    ensures b & TOP == 0 || b & TOP == TOP
  {}

  lemma ShiftLinear(a: Word, b: Word)
    ensures Shift(a ^ b) == Shift(a) ^ Shift(b)
  {
    ShiftXorBits(a, b);
  }

  lemma ShiftBits(a: Word)
    ensures (a << 1) & 1 == 0
    ensures ((a << 1) ^ POLY) & 1 == 1
    ensures a << 1 == 0 && a & TOP == 0 ==> a == 0
    ensures (a ^ TOP) << 1 == a << 1
    ensures a & TOP != 0 ==> (a ^ TOP) & TOP == 0
  {}

  /** The step loses nothing: POLY is odd, so a step with reduction is told apart from one without. */
  lemma ShiftKernel(a: Word)
    ensures Shift(a) == 0 <==> a == 0
    ensures !IsOdd(Shift(a)) ==> Shift(a) == Left(a)
    ensures Left(a ^ TOP) == Left(a)
  {
    ShiftBits(a);
    assert a == 0 ==> a & TOP == 0 && a << 1 == 0;
    assert ((a << 1) ^ POLY) & 1 == 1 ==> (a << 1) ^ POLY != 0;
  }

  lemma LinearLaws()
    ensures Linear(CRC)
  {
    forall a: Word, b: Word ensures Shift(Xor(a, b)) == Xor(Shift(a), Shift(b)) { ShiftLinear(a, b); }
    forall a: Word ensures Shift(a) == 0 <==> a == 0 { ShiftKernel(a); }
  }

  lemma ReducesLaws()
    ensures Reduces(CRC)
  {
    forall a: Word
      ensures IsTop(a) ==> !IsTop(Xor(a, TOP))
      ensures Left(Xor(a, TOP)) == Left(a)
    {
      ShiftBits(a);
    }
  }

  // Shifting by several places at once.

  lemma Left8(c: Word)
    ensures Iterate(Left, c, 8) == c << 8
  {
    Iterate8(Left, c);
    assert c << 1 << 1 << 1 << 1 << 1 << 1 << 1 << 1 == c << 8;
  }

  lemma Left24(c: Word)
    ensures Iterate(Left, c, 24) == c << 24
  {
    IterateAdd(Left, c, 8, 16);
    IterateAdd(Left, c << 8, 8, 8);
    Left8(c);
    Left8(c << 8);
    Left8(c << 8 << 8);
    assert c << 8 << 8 << 8 == c << 24;
  }

  lemma Left16(c: Word)
    ensures Iterate(Left, c, 16) == c << 16
  {
    IterateAdd(Left, c, 8, 8);
    Left8(c);
    Left8(c << 8);
    assert c << 8 << 8 == c << 16;
  }

  lemma Left32(c: Word)
    ensures Iterate(Left, c, 32) == 0
  {
    IterateAdd(Left, c, 24, 8);
    Left24(c);
    Left8(c << 24);
    assert c << 24 << 8 == 0;
  }

  lemma {:induction false} LeftZero(k: nat)
    ensures Iterate(Left, 0, k) == 0
  {
    if k == 0 {
    } else {
      assert Left(0) == 0;
      LeftZero(k - 1);
    }
  }

  /** The bottom bit survives fewer than 32 places. */
  lemma OddSurvives(a: Word, k: nat)
    requires k < 32 && Iterate(Left, a, k) == 0
    ensures !IsOdd(a)
  {
    IterateAdd(Left, a, k, 31 - k);
    LeftZero(31 - k);
    IterateAdd(Left, a, 24, 7);
    Left24(a);
    IterateAdd(Left, a << 24, 7, 1);
    Left8(a << 24);
    Left31(a);
  }

  lemma Left31(a: Word)
    requires Iterate(Left, a << 24, 7) == 0
    ensures !IsOdd(a)
  {
    var b := a << 24;
    assert Iterate(Left, b, 7) == Iterate(Left, b << 1 << 1 << 1, 4);
    assert Iterate(Left, b << 1 << 1 << 1, 4) == b << 1 << 1 << 1 << 1 << 1 << 1 << 1;
    assert a << 24 << 1 << 1 << 1 << 1 << 1 << 1 << 1 == a << 31;
    assert a << 31 == 0 ==> a & 1 == 0;
  }

  lemma MarksLaws()
    ensures Marks(CRC)
  {
    forall a: Word
      ensures !IsOdd(Shift(a)) ==> Shift(a) == Left(a)
    {
      ShiftKernel(a);
    }
    forall a: Word, k: nat | k < 32 && Iterate(Left, a, k) == 0
      ensures !IsOdd(a)
    {
      OddSurvives(a, k);
    }
    assert Shift(TOP) == POLY && IsOdd(POLY);
  }

  lemma Laws()
    ensures Lawful(CRC)
  {
    AbelianLaws();
    IdentityLaws();
    LinearLaws();
    ReducesLaws();
    MarksLaws();
  }

  // ---------------------------------------------------------------------------------------------
  // One table lookup is eight bit steps
  // ---------------------------------------------------------------------------------------------

  lemma ByteTopBits(b: Byte)
    ensures var w := (b as Word) << 24; var x := w << 1 << 1 << 1 << 1;
      && (w & TOP != 0 <==> b & 0x80 != 0)
      && ((w << 1) & TOP != 0 <==> b & 0x40 != 0)
      && ((w << 1 << 1) & TOP != 0 <==> b & 0x20 != 0)
      && ((w << 1 << 1 << 1) & TOP != 0 <==> b & 0x10 != 0)
      && (x & TOP != 0 <==> b & 0x08 != 0)
      && ((x << 1) & TOP != 0 <==> b & 0x04 != 0)
      && ((x << 1 << 1) & TOP != 0 <==> b & 0x02 != 0)
      && ((x << 1 << 1 << 1) & TOP != 0 <==> b & 0x01 != 0)
  {}

  lemma ByteAtTop(b: Byte)
    ensures ByteBits(b) == WordBits(CRC, (b as Word) << 24, 8)
  {
    WordBits8(CRC, (b as Word) << 24);
    ByteTopBits(b);
  }

  lemma LowTopBits(c: Word)
    requires c & 0xff00_0000 == 0
    ensures var x := c << 1 << 1 << 1 << 1;
      && c & TOP == 0 && (c << 1) & TOP == 0 && (c << 1 << 1) & TOP == 0 && (c << 1 << 1 << 1) & TOP == 0
      && x & TOP == 0 && (x << 1) & TOP == 0 && (x << 1 << 1) & TOP == 0 && (x << 1 << 1 << 1) & TOP == 0
  {}

  lemma LowIsZero(c: Word)
    requires c & 0xff00_0000 == 0
    ensures AllZero(WordBits(CRC, c, 8))
  {
    WordBits8(CRC, c);
    LowTopBits(c);
  }

  lemma SplitRegister(r: Word, b: Byte)
    ensures r ^ ((b as Word) << 24) == (r & 0x00ff_ffff) ^ ((((r >> 24) as Byte ^ b) as Word) << 24)
  {}

  lemma SplitMasks(r: Word, b: Byte)
    ensures (r & 0x00ff_ffff) & 0xff00_0000 == 0
    ensures (r & 0x00ff_ffff) << 8 == r << 8
    ensures (b as Word) << 24 << 8 == 0
  {}

  lemma FeedByte(r: Word, w: Word, low: Word, high: Word)
    requires Xor(r, w) == Xor(low, high)
    requires Iterate(Left, w, 8) == 0 && AllZero(WordBits(CRC, low, 8))
    ensures Feed(CRC, r, WordBits(CRC, w, 8)) == Xor(Iterate(Left, low, 8), Iterate(Shift, high, 8))
  {
    Laws();
    FeedTogether(CRC, r, w, low, high, 8);
  }

  lemma MixedByte(r: Word, b: Byte)
    ensures Feed(CRC, r, ByteBits(b)) == Xor(Iterate(Left, r & 0x00ff_ffff, 8), Entry((r >> 24) as Byte ^ b))
  {
    var w := (b as Word) << 24;
    SplitRegister(r, b);
    SplitMasks(r, b);
    ByteAtTop(b);
    Left8(w);
    LowIsZero(r & 0x00ff_ffff);
    FeedByte(r, w, r & 0x00ff_ffff, (((r >> 24) as Byte ^ b) as Word) << 24);
  }

  /** For every register value and every byte, one table lookup does the work of eight bit steps. */
  lemma LookupIsEightSteps(r: Word, b: Byte)
    ensures Feed(CRC, r, ByteBits(b)) == (r << 8) ^ Entry((r >> 24) as Byte ^ b)
  {
    MixedByte(r, b);
    Left8(r & 0x00ff_ffff);
    SplitMasks(r, b);
  }

  // ---------------------------------------------------------------------------------------------
  // The program
  // ---------------------------------------------------------------------------------------------

  lemma ByteIndex(i: int)
    requires 0 <= i < 256
    ensures (i as Byte) as int == i && i as Word == (i as Byte) as Word
  {}

  lemma ByteAsIndex(x: Byte)
    ensures 0 <= x as int < 256 && (x as int) as Byte == x
  {}

  ghost predicate IsTable(t: seq<Word>) {
    |t| == 256 && forall i :: 0 <= i < 256 ==> t[i] == Entry(i as Byte)
  }

  lemma EntryAt(t: seq<Word>, x: Byte)
    requires IsTable(t)
    ensures t[x as int] == Entry(x)
  {
    ByteAsIndex(x);
  }

  /** The loop body of crc32: one byte through the table. */
  function Lookup(t: seq<Word>, crc: Word, b: Byte): (next: Word)
    requires |t| == 256
    ensures IsTable(t) ==> next == Feed(CRC, crc, ByteBits(b))
  {
    var index := (crc >> 24) as Byte ^ b;
    assert IsTable(t) ==> (crc << 8) ^ t[index as int] == Feed(CRC, crc, ByteBits(b)) by {
      if IsTable(t) {
        LookupIsEightSteps(crc, b);
        EntryAt(t, index);
      }
    }
    (crc << 8) ^ t[index as int]
  }

  /** The file's static table and the two functions that use it. */
  class Crc32Table {
    const table: array<Word>

    /** The table is either untouched or complete; the source tells by its second entry. */
    ghost predicate Valid()
      reads this, table
    {
      table.Length == 256 && (table[1] != 0 ==> Built())
    }

    ghost predicate Built()
      reads this, table
    {
      IsTable(table[..])
    }

    constructor ()
      ensures Valid() && fresh(table) && forall i :: 0 <= i < 256 ==> table[i] == 0
    {
      table := new Word[256](_ => 0);
    }

    method InitCrc32()
      requires table.Length == 256
      modifies table
      ensures Built()
    {
      var i := 0;
      while i < 256
        invariant 0 <= i <= 256
        invariant forall k :: 0 <= k < i ==> table[k] == Entry(k as Byte)
      {
        ByteIndex(i);
        var c := (i as Word) << 24;
        var j := 8;
        while j > 0
          invariant 0 <= j <= 8
          invariant Iterate(Shift, c, j) == Entry(i as Byte)
        {
          c := Shift(c);
          j := j - 1;
        }
        table[i] := c;
        i := i + 1;
      }
    }

    method Crc32(buf: seq<Byte>, len: int) returns (r: Word)
      requires Valid() && len <= |buf|
      modifies table
      ensures Built()
      ensures r == Reference(if len < 0 then [] else buf[..len])
    {
      if table[1] == 0 {
        InitCrc32();
      }
      var crc := Divide(table[..], buf, len);
      r := Not(crc);
    }

    /** The loop of crc32, from the preloaded register. */
    static method Divide(t: seq<Word>, buf: seq<Byte>, len: int) returns (crc: Word)
      requires IsTable(t) && len <= |buf|
      ensures Not(crc) == Reference(if len < 0 then [] else buf[..len])
    {
      crc := ONES;
      var p, left := 0, len;
      while left > 0
        invariant 0 <= p <= |buf| && p + left == len
        invariant left < 0 ==> p == 0
        invariant crc == Feed(CRC, ONES, Bits(buf[..p]))
      {
        FeedNext(CRC, ByteBits, ONES, buf, p);
        crc := Lookup(t, crc, buf[p]);
        p, left := p + 1, left - 1;
      }
      assert len < 0 ==> buf[..p] == [];
    }
  }
}
