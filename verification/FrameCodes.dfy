/** The two-bit frame codes, four to a byte, first frame in the high bits. */
module FrameCodes {
  type Byte = bv8

  /** 11, 10, 00 and 01. */
  datatype Code = Free | Head | Cont | Inaccessible

  function HiMask(slot: nat): Byte
    requires slot < 4
  {
    0x80 >> (slot * 2)
  }

  function LoMask(slot: nat): Byte
    requires slot < 4
  {
    0x80 >> (slot * 2 + 1)
  }

  function BothMask(slot: nat): Byte
    requires slot < 4
  {
    0xC0 >> (slot * 2)
  }

  function CodeAt(b: Byte, slot: nat): Code
    requires slot < 4
  {
    CodeUnder(b, HiMask(slot), LoMask(slot))
  }

  lemma Masks(slot: nat)
    requires slot < 4
    ensures HiMask(slot) == (if slot == 0 then 0x80 else if slot == 1 then 0x20 else if slot == 2 then 0x08 else 0x02)
    ensures LoMask(slot) == (if slot == 0 then 0x40 else if slot == 1 then 0x10 else if slot == 2 then 0x04 else 0x01)
    ensures BothMask(slot) == (if slot == 0 then 0xC0 else if slot == 1 then 0x30 else if slot == 2 then 0x0C else 0x03)
  {
    if slot == 0 {
    } else if slot == 1 {
    } else if slot == 2 {
    } else {
    }
  }

  lemma MasksApart(slot: nat, other: nat)
    requires slot < 4 && other < 4
    ensures BothMask(slot) == HiMask(slot) | LoMask(slot)
    ensures HiMask(slot) & LoMask(slot) == 0 && HiMask(slot) != 0 && LoMask(slot) != 0
    ensures slot != other ==> BothMask(slot) & HiMask(other) == 0 && BothMask(slot) & LoMask(other) == 0
  {
    Masks(slot);
    Masks(other);
  }

  function CodeUnder(b: Byte, hi: Byte, lo: Byte): Code {
    if b & hi != 0 && b & lo != 0 then Free
    else if b & hi != 0 then Head
    else if b & lo != 0 then Inaccessible
    else Cont
  }

  // The four ways the pool writes a code.

  function SetHead(b: Byte, slot: nat): Byte
    requires slot < 4
  {
    (b | HiMask(slot)) & !LoMask(slot)
  }

  function SetCont(b: Byte, slot: nat): Byte
    requires slot < 4
  {
    b & !BothMask(slot)
  }

  function SetInaccessible(b: Byte, slot: nat): Byte
    requires slot < 4
  {
    (b & !HiMask(slot)) | LoMask(slot)
  }

  function SetFree(b: Byte, slot: nat): Byte
    requires slot < 4
  {
    b | BothMask(slot)
  }

  // Each sets its own frame's code and leaves the other three frames of the byte alone.

  lemma HeadBits(b: Byte, hi: Byte, lo: Byte, m: Byte)
    requires hi & lo == 0 && hi != 0 && lo != 0
    ensures ((b | hi) & !lo) & hi != 0 && ((b | hi) & !lo) & lo == 0
    ensures (hi | lo) & m == 0 ==> ((b | hi) & !lo) & m == b & m
  {}

  lemma SetHeadCode(b: Byte, slot: nat, other: nat)
    requires slot < 4 && other < 4
    ensures CodeAt(SetHead(b, slot), other) == if other == slot then Head else CodeAt(b, other)
  {
    MasksApart(slot, other);
    HeadBits(b, HiMask(slot), LoMask(slot), HiMask(other));
    HeadBits(b, HiMask(slot), LoMask(slot), LoMask(other));
  }

  lemma ContBits(b: Byte, hi: Byte, lo: Byte, m: Byte)
    requires hi & lo == 0 && hi != 0 && lo != 0
    ensures (b & !(hi | lo)) & hi == 0 && (b & !(hi | lo)) & lo == 0
    ensures (hi | lo) & m == 0 ==> (b & !(hi | lo)) & m == b & m
  {}

  lemma SetContCode(b: Byte, slot: nat, other: nat)
    requires slot < 4 && other < 4
    ensures CodeAt(SetCont(b, slot), other) == if other == slot then Cont else CodeAt(b, other)
  {
    MasksApart(slot, other);
    ContBits(b, HiMask(slot), LoMask(slot), HiMask(other));
    ContBits(b, HiMask(slot), LoMask(slot), LoMask(other));
  }

  lemma InaccessibleBits(b: Byte, hi: Byte, lo: Byte, m: Byte)
    requires hi & lo == 0 && hi != 0 && lo != 0
    ensures ((b & !hi) | lo) & hi == 0 && ((b & !hi) | lo) & lo != 0
    ensures (hi | lo) & m == 0 ==> ((b & !hi) | lo) & m == b & m
  {}

  lemma SetInaccessibleCode(b: Byte, slot: nat, other: nat)
    requires slot < 4 && other < 4
    ensures CodeAt(SetInaccessible(b, slot), other) == if other == slot then Inaccessible else CodeAt(b, other)
  {
    MasksApart(slot, other);
    InaccessibleBits(b, HiMask(slot), LoMask(slot), HiMask(other));
    InaccessibleBits(b, HiMask(slot), LoMask(slot), LoMask(other));
  }

  lemma FreeBits(b: Byte, hi: Byte, lo: Byte, m: Byte)
    requires hi & lo == 0 && hi != 0 && lo != 0
    ensures (b | (hi | lo)) & hi != 0 && (b | (hi | lo)) & lo != 0
    ensures (hi | lo) & m == 0 ==> (b | (hi | lo)) & m == b & m
  {}

  lemma SetFreeCode(b: Byte, slot: nat, other: nat)
    requires slot < 4 && other < 4
    ensures CodeAt(SetFree(b, slot), other) == if other == slot then Free else CodeAt(b, other)
  {
    MasksApart(slot, other);
    FreeBits(b, HiMask(slot), LoMask(slot), HiMask(other));
    FreeBits(b, HiMask(slot), LoMask(slot), LoMask(other));
  }

  lemma ZeroByte(b: Byte)
    ensures b == 0 <==> CodeAt(b, 0) == Cont && CodeAt(b, 1) == Cont && CodeAt(b, 2) == Cont && CodeAt(b, 3) == Cont
  {
    Masks(0);
    Masks(1);
    Masks(2);
    Masks(3);
  }

  /** The bitmap tests the low bit of a byte's last frame. */
  lemma LastBit(b: Byte)
    ensures b & 1 != 0 <==> CodeAt(b, 3) == Free || CodeAt(b, 3) == Inaccessible
  {
    Masks(3);
  }

  /** The codes of a bitmap, frame by frame. */
  function Codes(bytes: seq<Byte>): (c: seq<Code>)
    ensures |c| == 4 * |bytes|
  {
    if bytes == [] then []
    else
      var b := bytes[|bytes| - 1];
      Codes(bytes[..|bytes| - 1]) + [CodeAt(b, 0), CodeAt(b, 1), CodeAt(b, 2), CodeAt(b, 3)]
  }

  lemma {:induction false} CodeInByte(bytes: seq<Byte>, k: nat, slot: nat)
    requires k < |bytes| && slot < 4
    ensures Codes(bytes)[4 * k + slot] == CodeAt(bytes[k], slot)
  {
    if k < |bytes| - 1 {
      CodeInByte(bytes[..|bytes| - 1], k, slot);
    }
  }

  /** Frame i is found in byte i / 4 at slot i % 4. */
  lemma CodeOfFrame(bytes: seq<Byte>, i: nat)
    requires i < 4 * |bytes|
    ensures Codes(bytes)[i] == CodeAt(bytes[i / 4], i % 4)
  {
    var k, slot := i / 4, i % 4;
    assert i == 4 * k + slot;
    CodeInByte(bytes, k, slot);
  }

  /** Writing one byte so that one slot changes changes one frame. */
  lemma UpdateCode(bytes: seq<Byte>, i: nat, b: Byte, code: Code)
    requires i / 4 < |bytes|
    requires forall other :: 0 <= other < 4 ==>
      CodeAt(b, other) == if other == i % 4 then code else CodeAt(bytes[i / 4], other)
    ensures Codes(bytes[i / 4 := b]) == Codes(bytes)[i := code]
  {
    var c, d := Codes(bytes[i / 4 := b]), Codes(bytes)[i := code];
    forall j: nat | j < |c|
      ensures c[j] == d[j]
    {
      CodeOfFrame(bytes[i / 4 := b], j);
      CodeOfFrame(bytes, j);
      assert j == i <==> j / 4 == i / 4 && j % 4 == i % 4;
    }
  }

  /** Writing a byte that carries a new code for frame i changes that frame's code only. */
  lemma WroteCode(bytes: seq<Byte>, i: nat, code: Code, b: Byte)
    requires i / 4 < |bytes|
    requires b == match code
      case Head => SetHead(bytes[i / 4], i % 4)
      case Cont => SetCont(bytes[i / 4], i % 4)
      case Inaccessible => SetInaccessible(bytes[i / 4], i % 4)
      case Free => SetFree(bytes[i / 4], i % 4)
    ensures Codes(bytes[i / 4 := b]) == Codes(bytes)[i := code]
  {
    forall other | 0 <= other < 4
      ensures CodeAt(b, other) == if other == i % 4 then code else CodeAt(bytes[i / 4], other)
    {
      match code
      case Head => SetHeadCode(bytes[i / 4], i % 4, other);
      case Cont => SetContCode(bytes[i / 4], i % 4, other);
      case Inaccessible => SetInaccessibleCode(bytes[i / 4], i % 4, other);
      case Free => SetFreeCode(bytes[i / 4], i % 4, other);
    }
    UpdateCode(bytes, i, b, code);
  }

  /** The byte 11 10 00 01 holds a free frame, a head, a continuation and an inaccessible frame, in that order. */
  lemma CodesOfByte()
    ensures CodeAt(0xE1, 0) == Free && CodeAt(0xE1, 1) == Head && CodeAt(0xE1, 2) == Cont
    ensures CodeAt(0xE1, 3) == Inaccessible
  {
    Masks(0);
    Masks(1);
    Masks(2);
    Masks(3);
  }

  /** A bitmap of 0xFF bytes has all its frames free. */
  lemma FullByte(slot: nat)
    requires slot < 4
    ensures CodeAt(0xFF, slot) == Free
  {
    Masks(slot);
  }

  // ---------------------------------------------------------------------------------------------
  // Stretches of codes
  // ---------------------------------------------------------------------------------------------

  predicate AllFree(c: seq<Code>, lo: nat, hi: nat) {
    lo <= hi <= |c| && forall i :: lo <= i < hi ==> c[i] == Free
  }

  /** The free frames from lo to hi - 1. */
  function Count(c: seq<Code>, lo: nat, hi: nat): (n: nat)
    requires lo <= hi <= |c|
    ensures n <= hi - lo
  {
    if lo == hi then 0 else Count(c, lo, hi - 1) + if c[hi - 1] == Free then 1 else 0
  }
}
