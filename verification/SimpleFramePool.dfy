/** The one-bit frame pool: a set bit is a free frame, first frame in the high bit of the first byte. */
module SimpleFramePool {
  import opened Kernel

  type Byte = bv8

  function Mask(k: nat): Byte
    requires k < 8
  {
    0x80 >> k
  }

  predicate BitAt(b: Byte, k: nat)
    requires k < 8
  {
    b & Mask(k) != 0
  }

  lemma Masks(k: nat)
    requires k < 8
    ensures Mask(k) ==
      if k == 0 then 0x80 else if k == 1 then 0x40 else if k == 2 then 0x20 else if k == 3 then 0x10
      else if k == 4 then 0x08 else if k == 5 then 0x04 else if k == 6 then 0x02 else 0x01
  {
    if k == 0 {} else if k == 1 {} else if k == 2 {} else if k == 3 {}
    else if k == 4 {} else if k == 5 {} else if k == 6 {} else {}
  }

  lemma NextMask(k: nat)
    requires k < 7
    ensures Mask(k) >> 1 == Mask(k + 1)
  {
    Masks(k);
    Masks(k + 1);
  }

  lemma MasksApart(k: nat, j: nat)
    requires k < 8 && j < 8
    ensures Mask(k) != 0 && (k != j ==> Mask(k) & Mask(j) == 0)
  {
    Masks(k);
    Masks(j);
  }

  /** A byte that is not zero has a set bit for the mask loop to find. */
  lemma NonZeroHasBit(b: Byte)
    requires b != 0
    ensures exists k :: 0 <= k < 8 && BitAt(b, k)
  {
    Masks(0); Masks(1); Masks(2); Masks(3); Masks(4); Masks(5); Masks(6); Masks(7);
    assert BitAt(b, 0) || BitAt(b, 1) || BitAt(b, 2) || BitAt(b, 3)
      || BitAt(b, 4) || BitAt(b, 5) || BitAt(b, 6) || BitAt(b, 7);
  }

  lemma ZeroHasNone(k: nat)
    requires k < 8
    ensures !BitAt(0, k)
  {}

  lemma FlipBits(b: Byte, m: Byte, n: Byte)
    requires b & m != 0 && m & n == 0
    ensures (b ^ m) & n == b & n
  {}

  // Flipping a set bit clears it and keeps the others.

  lemma FlipOwn(b: Byte, k: nat)
    requires k < 8 && BitAt(b, k)
    ensures !BitAt(b ^ Mask(k), k)
  {
    Masks(k);
  }

  lemma FlipOther(b: Byte, k: nat, j: nat)
    requires k < 8 && j < 8 && BitAt(b, k) && j != k
    ensures BitAt(b ^ Mask(k), j) == BitAt(b, j)
  {
    MasksApart(k, j);
    FlipBits(b, Mask(k), Mask(j));
  }

  // ---------------------------------------------------------------------------------------------
  // Bitmaps
  // ---------------------------------------------------------------------------------------------

  function ByteBits(b: Byte): (s: seq<bool>)
    ensures |s| == 8
  {
    [BitAt(b, 0), BitAt(b, 1), BitAt(b, 2), BitAt(b, 3), BitAt(b, 4), BitAt(b, 5), BitAt(b, 6), BitAt(b, 7)]
  }

  lemma BitOfByte(b: Byte, k: nat)
    requires k < 8
    ensures ByteBits(b)[k] == BitAt(b, k)
  {}

  function Bits(bytes: seq<Byte>): (s: seq<bool>)
    ensures |s| == 8 * |bytes|
  {
    if bytes == [] then [] else Bits(bytes[..|bytes| - 1]) + ByteBits(bytes[|bytes| - 1])
  }

  lemma {:induction false} BitInByte(bytes: seq<Byte>, i: nat, k: nat)
    requires i < |bytes| && k < 8
    ensures Bits(bytes)[8 * i + k] == BitAt(bytes[i], k)
  {
    if i < |bytes| - 1 {
      BitInByte(bytes[..|bytes| - 1], i, k);
    } else {
      BitOfByte(bytes[i], k);
    }
  }

  lemma BitOfFrame(bytes: seq<Byte>, f: nat)
    requires f < 8 * |bytes|
    ensures Bits(bytes)[f] == BitAt(bytes[f / 8], f % 8)
  {
    var i, k := f / 8, f % 8;
    assert f == 8 * i + k;
    BitInByte(bytes, i, k);
  }

  /** Flipping a set bit of one byte changes the bit of one frame. */
  lemma FlipBit(bytes: seq<Byte>, i: nat, k: nat, j: nat, m: nat)
    requires i < |bytes| && k < 8 && BitAt(bytes[i], k) && j < |bytes| && m < 8
    ensures BitAt(bytes[i := bytes[i] ^ Mask(k)][j], m) == (BitAt(bytes[j], m) && !(j == i && m == k))
  {
    if m == k {
      FlipOwn(bytes[i], k);
    } else {
      FlipOther(bytes[i], k, m);
    }
  }

  lemma FlipFrame(bytes: seq<Byte>, i: nat, k: nat, flipped: seq<Byte>)
    requires i < |bytes| && k < 8 && BitAt(bytes[i], k)
    requires flipped == bytes[i := bytes[i] ^ Mask(k)]
    ensures Bits(flipped) == Bits(bytes)[8 * i + k := false]
  {
    hide BitAt, Bits;
    var s, t := Bits(flipped), Bits(bytes)[8 * i + k := false];
    forall f: nat | f < |s|
      ensures s[f] == t[f]
    {
      BitOfFrame(flipped, f);
      BitOfFrame(bytes, f);
      FlipBit(bytes, i, k, f / 8, f % 8);
    }
  }

  /** The set bits among the first k. */
  function CountSet(s: seq<bool>, k: nat): (n: nat)
    requires k <= |s|
    ensures n <= k
  {
    if k == 0 then 0 else CountSet(s, k - 1) + if s[k - 1] then 1 else 0
  }

  lemma {:induction false} CountCleared(s: seq<bool>, f: nat, k: nat)
    requires f < |s| && s[f] && k <= |s|
    ensures CountSet(s[f := false], k) == CountSet(s, k) - if f < k then 1 else 0
  {
    if k == 0 {
    } else {
      CountCleared(s, f, k - 1);
    }
  }

  lemma {:induction false} CountAllSet(s: seq<bool>, k: nat)
    requires k <= |s| && forall i :: 0 <= i < k ==> s[i]
    ensures CountSet(s, k) == k
  {
    if k == 0 {
    } else {
      CountAllSet(s, k - 1);
    }
  }

  ghost predicate IsFirst(s: seq<bool>, f: nat) {
    f < |s| && s[f] && forall g :: 0 <= g < f ==> !s[g]
  }

  /** A positive count has a first set bit. */
  lemma {:induction false} FirstSet(s: seq<bool>, k: nat) returns (f: nat)
    requires k <= |s| && CountSet(s, k) > 0
    ensures f < k && IsFirst(s, f)
  {
    if CountSet(s, k - 1) > 0 {
      f := FirstSet(s, k - 1);
    } else {
      f := k - 1;
      NoneSet(s, k - 1);
    }
  }

  lemma {:induction false} NoneSet(s: seq<bool>, k: nat)
    requires k <= |s| && CountSet(s, k) == 0
    ensures forall g :: 0 <= g < k ==> !s[g]
  {
    if k == 0 {
    } else {
      NoneSet(s, k - 1);
    }
  }

  lemma FullBytes(bytes: seq<Byte>, f: nat)
    requires f < 8 * |bytes| && bytes[f / 8] == 0xFF
    ensures Bits(bytes)[f]
  {
    BitOfFrame(bytes, f);
    Masks(f % 8);
  }

  // ---------------------------------------------------------------------------------------------
  // The pool
  // ---------------------------------------------------------------------------------------------

  class SimpleFramePool {
    const bitmap: array<Byte>
    var nFreeFrames: nat
    const baseFrameNo: nat
    const nframes: nat
    const infoFrameNo: nat

    /** The count agrees with the bitmap. */
    ghost predicate Valid()
      reads this, bitmap
    {
      nframes == 8 * bitmap.Length && nFreeFrames == CountSet(Bits(bitmap[..]), nframes)
    }

    /** Its two assertions are requirements: the bitmap fits one frame and fills whole bytes. */
    constructor (base: nat, n: nat, info: nat)
      requires n <= PAGE_SIZE * 8 && n % 8 == 0
      requires info == 0 ==> n > 0
      ensures Valid() && fresh(bitmap) && baseFrameNo == base && nframes == n
      ensures forall f :: 0 <= f < n ==> Bits(bitmap[..])[f] == (f > 0 || info != 0)
    {
      baseFrameNo := base;
      nframes := n;
      nFreeFrames := n;
      infoFrameNo := info;
      bitmap := new Byte[n / 8];
      new;
      var i := 0;
      while i * 8 < n
        invariant 0 <= i <= bitmap.Length && nFreeFrames == n
        invariant forall j :: 0 <= j < i ==> bitmap[j] == 0xFF
      {
        bitmap[i] := 0xFF;
        i := i + 1;
      }
      ghost var full := bitmap[..];
      forall f: nat | f < n
        ensures Bits(full)[f]
      {
        FullBytes(full, f);
      }
      CountAllSet(Bits(full), n);
      if info == 0 {
        bitmap[0] := 0x7F;
        nFreeFrames := nFreeFrames - 1;
        Masks(0);
        FlipFrame(full, 0, 0, bitmap[..]);
        CountCleared(Bits(full), 0, n);
      }
    }

    /** The constructor with its two assertions. */
    static method Create(base: nat, n: nat, info: nat) returns (r: Outcome<SimpleFramePool>)
      requires info == 0 ==> n > 0
      ensures r.Returns? <==> n <= PAGE_SIZE * 8 && n % 8 == 0
      ensures r.Returns? ==> fresh(r.value) && fresh(r.value.bitmap) && r.value.Valid()
      ensures r.Returns? ==> r.value.baseFrameNo == base && r.value.nframes == n
      ensures r.Returns? ==> forall f :: 0 <= f < n ==> Bits(r.value.bitmap[..])[f] == (f > 0 || info != 0)
    {
      if !(n <= PAGE_SIZE * 8) || !(n % 8 == 0) {
        return Halts;
      }
      var pool := new SimpleFramePool(base, n, info);
      return Returns(pool);
    }

    /**
     The lowest free frame is found and taken, from a positive count alone; both loops stay inside the bitmap and
     end because the count promises a set bit.
     */
    method GetFrame() returns (r: Outcome<nat>)
      requires Valid()
      modifies this`nFreeFrames, bitmap
      ensures Valid()
      ensures r.Halts? <==> old(nFreeFrames) == 0
      ensures r.Halts? ==> Bits(bitmap[..]) == old(Bits(bitmap[..]))
      ensures r.Returns? ==>
        && baseFrameNo <= r.value < baseFrameNo + nframes
        && old(Bits(bitmap[..]))[r.value - baseFrameNo]
        && (forall f :: 0 <= f < r.value - baseFrameNo ==> !old(Bits(bitmap[..]))[f])
        && Bits(bitmap[..]) == old(Bits(bitmap[..]))[r.value - baseFrameNo := false]
    {
      if nFreeFrames == 0 {
        return Halts;
      }
      ghost var first := FirstSet(Bits(bitmap[..]), nframes);
      var i := FindByte(first);
      var k, mask := FindBit(i, first);
      Take(i, k, mask);
      return Returns(baseFrameNo + i * 8 + k);
    }

    /** Count the frame as taken and clear its bit. */
    method Take(i: nat, k: nat, mask: Byte)
      requires Valid() && i < bitmap.Length && k < 8 && mask == Mask(k) && BitAt(bitmap[i], k)
      modifies this`nFreeFrames, bitmap
      ensures Valid() && Bits(bitmap[..]) == old(Bits(bitmap[..]))[8 * i + k := false]
    {
      ghost var bytes := bitmap[..];
      BitInByte(bytes, i, k);
      CountCleared(Bits(bytes), 8 * i + k, nframes);
      nFreeFrames := nFreeFrames - 1;
      bitmap[i] := bitmap[i] ^ mask;
      FlipFrame(bytes, i, k, bitmap[..]);
    }

    /** The first search loop of get_frame: skip the bytes that are zero. */
    method FindByte(ghost first: nat) returns (i: nat)
      requires nframes == 8 * bitmap.Length && IsFirst(Bits(bitmap[..]), first)
      ensures i == first / 8
    {
      BitOfFrame(bitmap[..], first);
      ZeroHasNone(first % 8);
      i := 0;
      while bitmap[i] == 0x0
        invariant i <= first / 8
        decreases first / 8 - i
      {
        i := i + 1;
      }
      FirstByte(bitmap[..], first, i);
    }

    /** The second: shift the mask to the first set bit, counting the frames passed. */
    method FindBit(i: nat, ghost first: nat) returns (k: nat, mask: Byte)
      requires nframes == 8 * bitmap.Length && IsFirst(Bits(bitmap[..]), first) && i == first / 8
      ensures k == first % 8 && mask == Mask(k) && BitAt(bitmap[i], k)
    {
      BitOfFrame(bitmap[..], first);
      mask, k := 0x80, 0;
      Masks(0);
      while bitmap[i] & mask == 0
        invariant k <= first % 8 && mask == Mask(k)
        decreases first % 8 - k
      {
        NextMask(k);
        mask := mask >> 1;
        k := k + 1;
      }
      FirstBit(bitmap[..], first, i, k);
    }

    /** One frame, which must be in the pool and free. */
    method MarkFrame(frame: nat) returns (r: Outcome<()>)
      requires Valid()
      modifies this`nFreeFrames, bitmap
      ensures Valid()
      ensures r.Returns? <==> baseFrameNo <= frame < baseFrameNo + nframes && old(Bits(bitmap[..]))[frame - baseFrameNo]
      ensures Bits(bitmap[..]) ==
        if r.Halts? then old(Bits(bitmap[..])) else old(Bits(bitmap[..]))[frame - baseFrameNo := false]
    {
      if !(frame >= baseFrameNo && frame < baseFrameNo + nframes) {
        return Halts;
      }
      var index := (frame - baseFrameNo) / 8;
      var mask := Mask((frame - baseFrameNo) % 8);
      BitOfFrame(bitmap[..], frame - baseFrameNo);
      if bitmap[index] & mask == 0 {
        return Halts;
      }
      Take(index, (frame - baseFrameNo) % 8, mask);
      return Returns(());
    }

    /** A range of frames, marked one by one until one of them is not free; a range that wraps is empty. */
    method MarkInaccessible(first: u32, n: u32) returns (r: Outcome<()>)
      requires Valid()
      modifies this`nFreeFrames, bitmap
      ensures Valid()
      ensures var end := Add32(first, n);
        r.Returns? <==> (first < end ==>
          && baseFrameNo <= first && end <= baseFrameNo + nframes
          && forall f :: first - baseFrameNo <= f < end - baseFrameNo ==> old(Bits(bitmap[..]))[f])
      ensures r.Returns? ==> forall f :: 0 <= f < nframes ==>
        Bits(bitmap[..])[f] == (old(Bits(bitmap[..]))[f] && !(first <= baseFrameNo + f < Add32(first, n)))
      ensures r.Halts? ==>
        exists i: nat :: first <= i < Add32(first, n)
          && StuckAt(old(Bits(bitmap[..])), Bits(bitmap[..]), baseFrameNo, first, i)
    {
      hide Bits, AllFree, Cleared;
      ghost var s := Bits(bitmap[..]);
      var end := Add32(first, n);
      var i: nat := first;
      ClearedNone(s, baseFrameNo, first, end);
      AllFreeIs(s, baseFrameNo, first, end);
      while i < end
        invariant first <= i && Valid() && (i <= end || (i == first && Bits(bitmap[..]) == s))
        invariant AllFree(s, baseFrameNo, first, i) && Cleared(s, Bits(bitmap[..]), baseFrameNo, first, i)
      {
        ghost var t := Bits(bitmap[..]);
        r := MarkFrame(i);
        if r.Halts? {
          ClearedStuck(s, t, baseFrameNo, first, i, end);
          return Halts;
        }
        ClearedMore(s, t, baseFrameNo, first, i);
        i := i + 1;
      }
      ClearedIs(s, Bits(bitmap[..]), baseFrameNo, first, end);
      return Returns(());
    }
  }

  ghost predicate FrameFree(s: seq<bool>, base: nat, f: nat) {
    base <= f < base + |s| && s[f - base]
  }

  /** Every frame from first to end - 1 is in the pool and free. */
  ghost predicate AllFree(s: seq<bool>, base: nat, first: nat, end: nat) {
    forall f: nat :: first <= f < end ==> FrameFree(s, base, f)
  }

  /** t is s with the frames from first to end - 1 taken. */
  ghost predicate Cleared(s: seq<bool>, t: seq<bool>, base: nat, first: nat, end: nat) {
    |t| == |s| && forall g :: 0 <= g < |s| ==> t[g] == (s[g] && !(first <= base + g < end))
  }

  /** The frames before i have been taken, and frame i is the first that is not free or not in the pool. */
  ghost predicate StuckAt(s: seq<bool>, t: seq<bool>, base: nat, first: nat, i: nat) {
    AllFree(s, base, first, i) && Cleared(s, t, base, first, i) && !FrameFree(s, base, i)
  }

  lemma AllFreeIs(s: seq<bool>, base: nat, first: nat, end: nat)
    ensures AllFree(s, base, first, end) <==>
      (first < end ==> base <= first && end <= base + |s| && forall i :: first - base <= i < end - base ==> s[i])
  {
    if first < end && AllFree(s, base, first, end) {
      assert FrameFree(s, base, first) && FrameFree(s, base, end - 1);
      forall i | first - base <= i < end - base
        ensures s[i]
      {
        assert FrameFree(s, base, base + i);
      }
    }
  }

  lemma ClearedIs(s: seq<bool>, t: seq<bool>, base: nat, first: nat, end: nat)
    requires Cleared(s, t, base, first, end)
    ensures |t| == |s| && forall g :: 0 <= g < |s| ==> t[g] == (s[g] && !(first <= base + g < end))
  {}

  lemma ClearedNone(s: seq<bool>, base: nat, first: nat, end: nat)
    ensures AllFree(s, base, first, first) && Cleared(s, s, base, first, first)
    ensures end <= first ==> AllFree(s, base, first, end) && Cleared(s, s, base, first, end)
  {}

  lemma ClearedMore(s: seq<bool>, t: seq<bool>, base: nat, first: nat, i: nat)
    requires AllFree(s, base, first, i) && Cleared(s, t, base, first, i)
    requires first <= i && base <= i < base + |t| && t[i - base]
    ensures AllFree(s, base, first, i + 1) && Cleared(s, t[i - base := false], base, first, i + 1)
  {
    assert FrameFree(s, base, i);
  }

  lemma ClearedStuck(s: seq<bool>, t: seq<bool>, base: nat, first: nat, i: nat, end: nat)
    requires Cleared(s, t, base, first, i) && first <= i < end
    requires AllFree(s, base, first, i) && !(base <= i < base + |t| && t[i - base])
    ensures !AllFree(s, base, first, end) && StuckAt(s, t, base, first, i)
  {
    assert !FrameFree(s, base, i);
  }

  /** The first byte that is not zero is the one with the first set bit. */
  lemma FirstByte(bytes: seq<Byte>, first: nat, i: nat)
    requires IsFirst(Bits(bytes), first)
    requires i <= first / 8 && bytes[i] != 0
    ensures i == first / 8
  {
    NonZeroHasBit(bytes[i]);
    var k :| 0 <= k < 8 && BitAt(bytes[i], k);
    BitInByte(bytes, i, k);
  }

  lemma FirstBit(bytes: seq<Byte>, first: nat, i: nat, k: nat)
    requires IsFirst(Bits(bytes), first)
    requires i == first / 8 && k <= first % 8 && BitAt(bytes[i], k)
    ensures 8 * i + k == first
  {
    BitInByte(bytes, i, k);
  }
}
