/** The contiguous frame pool over its packed bitmap, and the static registry of pools. */
module ContFramePool {
  import opened Kernel
  import opened FrameCodes
  import opened FrameSearch
  import opened FrameLedger
  import opened FramePool

  /** The largest frame number plus one: physical addresses have 32 bits. */
  const ALL_FRAMES: nat := 0x10_0000

  /** The info frames a pool of n frames needs; a 32-bit subtraction, so zero frames need very many. */
  function NeededInfoFrames(n: u32): nat {
    Sub32(n, 1) / (PAGE_SIZE * 4) + 1
  }

  /** It is the exact ceiling of n / 16384, so that the bitmap bytes fit and no smaller number would do. */
  lemma NeededIsCeiling(n: u32)
    requires n > 0
    ensures n <= NeededInfoFrames(n) * (PAGE_SIZE * 4)
    ensures (NeededInfoFrames(n) - 1) * (PAGE_SIZE * 4) < n
    ensures NeededInfoFrames(n) <= n
  {}

  /** The pool's size after rounding up to whole bytes. */
  function Rounded(n: nat): (r: nat)
    ensures n <= r < n + 4 && r % 4 == 0
  {
    if n % 4 != 0 then n + (4 - n % 4) else n
  }

  function FreeFrames(n: nat): (c: seq<Code>)
    ensures |c| == n && forall i :: 0 <= i < n ==> c[i] == Free
  {
    if n == 0 then [] else FreeFrames(n - 1) + [Free]
  }

  /** What the constructor leaves behind, with the count as the source sets it: before the rounding. */
  function Initial(base: nat, n: nat, ownInfo: nat): Pool
    requires ownInfo <= Rounded(n) < WORD
  {
    Pool(base, Fill(FreeFrames(Rounded(n)), 0, ownInfo, Inaccessible), Sub32(n, ownInfo))
  }

  /** A new pool's count is right exactly when its size was a multiple of four. */
  lemma InitialGood(base: nat, n: nat, ownInfo: nat)
    requires ownInfo <= n && Rounded(n) < WORD
    ensures Initial(base, n, ownInfo).Good() <==> n % 4 == 0
    ensures forall i: nat :: i in Bad(Initial(base, n, ownInfo).codes) <==> i < ownInfo
    ensures Chained(Initial(base, n, ownInfo).codes)
  {
    var c := FreeFrames(Rounded(n));
    forall i: nat
      ensures Linked(c, i)
    {
    }
    CountAll(c, 0, |c|);
    MarkMeaning(c, 0, ownInfo);
    MarkCount(c, 0, ownInfo);
    CountAll(c, 0, ownInfo);
  }

  /** The assertion of the constructor on where the info frames are. */
  predicate AcceptsInfo(base: nat, n: nat, info: nat, nInfo: nat) {
    info + nInfo < base || info >= base + Rounded(n)
  }

  predicate Among(f: nat, first: nat, n: nat) {
    first <= f < first + n
  }

  /** What it is for: no info frame is one of the pool's. */
  ghost predicate InfoOutside(base: nat, n: nat, info: nat, nInfo: nat) {
    forall f: nat :: Among(f, info, nInfo) ==> !Among(f, base, Rounded(n))
  }

  /** It lets no other placement through, and of those refuses the one that ends exactly where the pool starts. */
  lemma AcceptsInfoExactly(base: nat, n: nat, info: nat, nInfo: nat)
    requires n > 0 && nInfo > 0
    ensures AcceptsInfo(base, n, info, nInfo) <==> InfoOutside(base, n, info, nInfo) && info + nInfo != base
  {
    if !(info + nInfo <= base || info >= base + Rounded(n)) {
      var f := if info < base then base else info;
      assert Among(f, info, nInfo) && Among(f, base, Rounded(n));
    }
  }

  /** One info frame right below the pool is outside it and refused. */
  lemma AdjacentInfoRefused()
    ensures InfoOutside(513, 16384, 512, 1) && !AcceptsInfo(513, 16384, 512, 1)
  {}

  /** A pool of five frames counts five free ones, and its bitmap has eight. */
  lemma FiveFramesMiscounted(base: nat)
    ensures Initial(base, 5, 0).free == 5 && CountFree(Initial(base, 5, 0).codes) == 8
    ensures !Initial(base, 5, 0).Good()
  {
    InitialGood(base, 5, 0);
    CountAll(FreeFrames(8), 0, 8);
  }

  /** The first k frames are inaccessible. */
  ghost predicate InfoPrefix(c: seq<Code>, k: nat) {
    k <= |c| && forall i :: 0 <= i < k ==> c[i] == Inaccessible
  }

  /** Frames before k that are not free do not count. */
  lemma {:induction false} TallyAfter(c: seq<Code>, k: nat, i: nat)
    requires InfoPrefix(c, k) && i <= |c|
    ensures Tally(c, i) <= if i <= k then 0 else i - k
  {
    if i == 0 {
    } else {
      TallyAfter(c, k, i - 1);
    }
  }

  /** Whatever get_frames returns, and however unsoundly, starts after them. */
  lemma GrantIsAfter(p: Pool, n: nat, k: nat)
    requires CanGet(p, n) && InfoPrefix(p.codes, k)
    ensures Granted(p, n) >= p.base + k
  {
    TallyAfter(p.codes, k, Stop(p.codes, n, 0).value + 1);
  }

  /** Every operation that returns leaves them inaccessible. */
  lemma StepKeepsInfo(p: Pool, op: Op, k: nat)
    requires Can(p, op) && InfoPrefix(p.codes, k)
    ensures Step(p, op).base == p.base && |Step(p, op).codes| == |p.codes| && InfoPrefix(Step(p, op).codes, k)
  {
    if op.GetFrames? {
      GrantIsAfter(p, op.n, k);
    }
  }

  lemma {:induction false} RunKeepsInfo(p: Pool, ops: seq<Op>, k: nat, j: nat)
    requires InfoPrefix(p.codes, k) && j < |Run(p, ops)|
    ensures var q := Run(p, ops)[j]; q.base == p.base && |q.codes| == |p.codes| && InfoPrefix(q.codes, k)
    decreases |ops|
  {
    hide Step, Can;
    if j == 0 {
    } else {
      StepKeepsInfo(p, ops[0], k);
      RunKeepsInfo(Step(p, ops[0]), ops[1..], k, j - 1);
    }
  }

  /**
   In every run of a new pool, sound or not, the info frames stay inaccessible, get_frames never returns a range that
   holds one, and release_frame neither accepts nor frees one.
   */
  lemma InfoFramesStay(base: nat, n: nat, ownInfo: nat, ops: seq<Op>, j: nat, i: nat)
    requires i < ownInfo <= Rounded(n) < WORD && j < |Run(Initial(base, n, ownInfo), ops)|
    ensures var q := Run(Initial(base, n, ownInfo), ops)[j];
      && q.base == base && i < |q.codes| && q.codes[i] == Inaccessible
      && (forall m: nat :: CanGet(q, m) ==> base + i < Granted(q, m))
      && (forall h: nat :: CanRelease(q, h) ==> h != base + i && Unget(q, h).codes[i] == Inaccessible)
  {
    var p := Initial(base, n, ownInfo);
    RunKeepsInfo(p, ops, ownInfo, j);
    var q := Run(p, ops)[j];
    forall m: nat | CanGet(q, m)
      ensures base + i < Granted(q, m)
    {
      GrantIsAfter(q, m, ownInfo);
    }
    forall h: nat | CanRelease(q, h)
      ensures h != base + i && Unget(q, h).codes[i] == Inaccessible
    {
      StepKeepsRelease(q, h, ownInfo);
    }
  }

  lemma StepKeepsRelease(p: Pool, h: nat, k: nat)
    requires CanRelease(p, h) && InfoPrefix(p.codes, k)
    ensures h >= p.base + k && InfoPrefix(Unget(p, h).codes, k)
  {}

  /** And no mark of free frames reaches one. */
  lemma InfoFramesNotMarked(base: nat, n: nat, ownInfo: nat, ops: seq<Op>, j: nat, i: nat, first: u32, m: u32)
    requires i < ownInfo <= Rounded(n) < WORD && j < |Run(Initial(base, n, ownInfo), ops)|
    requires var q := Run(Initial(base, n, ownInfo), ops)[j]; CanMark(q, first, m) && MarksFree(q, first, m)
    ensures var q := Run(Initial(base, n, ownInfo), ops)[j];
      q.base == base && !(first <= base + i < first + Reach(q, first, m))
  {
    InfoFramesStay(base, n, ownInfo, ops, j, i);
  }

  lemma FullBytesAreFree(bytes: seq<Byte>)
    requires forall j :: 0 <= j < |bytes| ==> bytes[j] == 0xFF
    ensures Codes(bytes) == FreeFrames(4 * |bytes|)
  {
    forall i: nat | i < 4 * |bytes|
      ensures Codes(bytes)[i] == Free
    {
      CodeOfFrame(bytes, i);
      FullByte(i % 4);
    }
  }

  /** The search has come to frame i with this count and has not stopped before. */
  ghost predicate Scanning(c: seq<Code>, n: nat, i: nat, count: nat) {
    && i <= |c|
    && count == Tally(c, i)
    && (i % 4 == 0 || !SkippedByte(c, i / 4))
    && Stop(c, n, 0) == Stop(c, n, i)
  }

  lemma ScanStarts(c: seq<Code>, n: nat)
    ensures Scanning(c, n, 0, 0)
  {}

  lemma StopSkips(c: seq<Code>, n: nat, i: nat)
    requires i % 4 == 0 && i < |c| && SkippedByte(c, i / 4)
    ensures Stop(c, n, i) == Stop(c, n, i + 4)
  {
    hide Tally;
    assert Stop(c, n, i) == Stop(c, n, i + 1) == Stop(c, n, i + 2);
    assert Stop(c, n, i + 2) == Stop(c, n, i + 3) == Stop(c, n, i + 4);
  }

  /** Skipping a byte of continuation frames passes no stopping place and clears the counter. */
  lemma ScanSkip(c: seq<Code>, n: nat, i: nat, count: nat)
    requires Scanning(c, n, i, count) && i < |c| && SkippedByte(c, i / 4)
    ensures i + 4 <= |c| && Scanning(c, n, i + 4, 0)
  {
    hide Stop;
    StopSkips(c, n, i);
    assert Skipped(c, i + 3);
  }

  /** A free frame of a kept byte is counted, and the search stops when that makes n. */
  lemma ScanFree(c: seq<Code>, n: nat, i: nat, count: nat)
    requires Scanning(c, n, i, count) && i < |c| && !SkippedByte(c, i / 4) && c[i] == Free
    ensures count + 1 == n ==> Search(c, n) == Some(i + 1 - n)
    ensures count + 1 != n ==> Scanning(c, n, i + 1, count + 1)
  {
    assert (i + 1) % 4 == 0 || (i + 1) / 4 == i / 4;
  }

  lemma ScanUsed(c: seq<Code>, n: nat, i: nat, count: nat)
    requires Scanning(c, n, i, count) && i < |c| && !SkippedByte(c, i / 4) && c[i] != Free
    ensures Scanning(c, n, i + 1, count)
  {
    assert (i + 1) % 4 == 0 || (i + 1) / 4 == i / 4;
  }

  lemma ScanEnds(c: seq<Code>, n: nat, count: nat)
    requires Scanning(c, n, |c|, count)
    ensures Search(c, n) == None
  {}

  // Each of the writing loops has a predicate that says how far it has come.

  ghost predicate ClaimedTo(p: Pool, s: nat, i: nat, codes: seq<Code>) {
    s < i <= |p.codes| && codes == Claim(p.codes, s, i - s)
  }

  lemma ClaimedFirst(p: Pool, s: nat)
    requires s < |p.codes|
    ensures ClaimedTo(p, s, s + 1, p.codes[s := Head])
  {
    assert p.codes[s := Head] == Claim(p.codes, s, 1);
  }

  lemma ClaimedMore(p: Pool, s: nat, i: nat, codes: seq<Code>)
    requires ClaimedTo(p, s, i, codes) && i < |p.codes|
    ensures ClaimedTo(p, s, i + 1, codes[i := Cont])
  {
    assert codes[i := Cont] == Claim(p.codes, s, i + 1 - s);
  }

  lemma ClaimedAll(p: Pool, n: nat, s: nat, i: nat, q: Pool)
    requires CanGet(p, n) && Search(p.codes, n) == Some(s) && i == s + n
    requires ClaimedTo(p, s, i, q.codes) && q.base == p.base && q.free == Sub32(p.free, n)
    ensures q == Get(p, n) && Granted(p, n) == p.base + s
  {
    assert i - s == n;
  }

  ghost predicate MarkedTo(p: Pool, lo: nat, i: nat, codes: seq<Code>, free: u32) {
    && lo <= i <= |p.codes|
    && codes == Fill(p.codes, lo, i, Inaccessible)
    && free == Sub32(p.free, i - lo)
    && AllPass(p.codes, lo, i)
  }

  lemma MarkedFirst(p: Pool, lo: nat)
    requires lo <= |p.codes|
    ensures MarkedTo(p, lo, lo, p.codes, p.free)
  {
    assert p.codes == Fill(p.codes, lo, lo, Inaccessible);
  }

  /** Marking earlier frames of a byte does not change how its last frame tests. */
  lemma TestStays(c: seq<Code>, lo: nat, i: nat)
    requires lo <= i < |c|
    ensures PassesTest(Fill(c, lo, i, Inaccessible), i) == PassesTest(c, i)
  {
    assert i <= i / 4 * 4 + 3;
  }

  lemma MarkedMore(p: Pool, lo: nat, i: nat, codes: seq<Code>, free: u32)
    requires MarkedTo(p, lo, i, codes, free) && i < |p.codes| && PassesTest(codes, i)
    ensures MarkedTo(p, lo, i + 1, codes[i := Inaccessible], Sub32(free, 1))
  {
    TestStays(p.codes, lo, i);
    assert codes[i := Inaccessible] == Fill(p.codes, lo, i + 1, Inaccessible);
  }

  /** All of a range passes exactly when the count of passing frames says so. */
  lemma PassingAll(c: seq<Code>, lo: nat, end: nat)
    requires lo <= |c| && lo <= end
    ensures end <= |c| ==> (Passing(c, lo, end) == end - lo <==> AllPass(c, lo, end))
    ensures end > |c| ==> Passing(c, lo, |c|) < end - lo
  {}

  function Bounded(end: nat, size: nat): nat {
    if end <= size then end else size
  }

  /** Nothing to mark: the range is refused or empty. */
  lemma MarksNone(p: Pool, first: u32, n: u32)
    ensures !(p.base <= first && Add32(first, n) <= p.base + |p.codes|) ==>
      !CanMark(p, first, n) && MarkedPart(p, first, n) == p
    ensures p.base <= first && Add32(first, n) <= p.base + |p.codes| && Add32(first - p.base, n) <= first - p.base ==>
      CanMark(p, first, n) && Mark(p, first, n) == p
  {}

  /** Otherwise the frames that pass decide. */
  lemma MarksSome(p: Pool, first: u32, n: u32)
    requires p.base <= first && Add32(first, n) <= p.base + |p.codes| && first - p.base < Add32(first - p.base, n)
    requires InBitmap(p, first, n)
    ensures var lo, end, size := first - p.base, Add32(first - p.base, n), |p.codes|;
      && lo <= size && (end <= size || Passing(p.codes, lo, size) < size - lo)
      && var k := Passing(p.codes, lo, Bounded(end, size));
        && MarkedPart(p, first, n) == MarkFrames(p, lo, lo + k)
        && (CanMark(p, first, n) <==> k == end - lo)
        && (k == end - lo ==> Mark(p, first, n) == MarkFrames(p, lo, end))
  {
    hide MarkFrames, Passing, AllPass, PassesTest, Add32;
    PassingAll(p.codes, first - p.base, Add32(first - p.base, n));
  }

  lemma MarkedStuck(p: Pool, lo: nat, end: nat, i: nat, q: Pool)
    requires MarkedTo(p, lo, i, q.codes, q.free) && i < end && i < |p.codes| && q.base == p.base
    requires !PassesTest(q.codes, i)
    ensures i - lo == Passing(p.codes, lo, Bounded(end, |p.codes|)) && q == MarkFrames(p, lo, i)
  {
    TestStays(p.codes, lo, i);
  }

  lemma MarkedAll(p: Pool, lo: nat, end: nat, q: Pool)
    requires MarkedTo(p, lo, end, q.codes, q.free) && q.base == p.base
    ensures end - lo == Passing(p.codes, lo, end) && q == MarkFrames(p, lo, end)
  {}

  /** The loop is still inside the bitmap. */
  lemma MarkedInside(p: Pool, lo: nat, end: nat, i: nat, codes: seq<Code>, free: u32)
    requires MarkedTo(p, lo, i, codes, free) && i < end
    requires end <= |p.codes| || Passing(p.codes, lo, |p.codes|) < |p.codes| - lo
    ensures i < |p.codes|
  {}

  ghost predicate FreedTo(p: Pool, h: nat, i: nat, codes: seq<Code>, free: u32) {
    && h < i <= |p.codes|
    && End(p.codes, h + 1) == End(p.codes, i)
    && codes == Fill(p.codes, h, i, Free)
    && free == Add32(p.free, i - h)
  }

  lemma FreedFirst(p: Pool, h: nat)
    requires h < |p.codes|
    ensures FreedTo(p, h, h + 1, p.codes[h := Free], Add32(p.free, 1))
  {
    assert p.codes[h := Free] == Fill(p.codes, h, h + 1, Free);
  }

  lemma FreedMore(p: Pool, h: nat, i: nat, codes: seq<Code>, free: u32)
    requires FreedTo(p, h, i, codes, free) && i < |p.codes| && codes[i] == Cont
    ensures FreedTo(p, h, i + 1, codes[i := Free], Add32(free, 1))
  {
    assert codes[i := Free] == Fill(p.codes, h, i + 1, Free);
  }

  lemma FreedAll(p: Pool, first: nat, i: nat, q: Pool)
    requires CanRelease(p, first) && FreedTo(p, first - p.base, i, q.codes, q.free) && q.base == p.base
    requires i < |p.codes| ==> q.codes[i] != Cont
    ensures q == Unget(p, first)
  {
    var h := first - p.base;
    assert End(p.codes, h + 1) == i;
    assert q.codes == Release(p.codes, h);
  }

  lemma InitialIs(base: nat, n: nat, ownInfo: nat, q: Pool)
    requires ownInfo <= Rounded(n) < WORD
    requires q.base == base && q.codes == Fill(FreeFrames(Rounded(n)), 0, ownInfo, Inaccessible)
    requires q.free == Sub32(n, ownInfo)
    ensures q == Initial(base, n, ownInfo)
  {}

  class ContFramePool {
    const bitmap: array<Byte>
    var nFreeFrames: u32
    const baseFrameNo: nat
    const nframes: nat
    const infoFrameNo: nat
    const nInfoFrames: nat

    ghost predicate Valid() {
      nframes == 4 * bitmap.Length && baseFrameNo + nframes <= ALL_FRAMES
    }

    /** The pool as a value: the bitmap decoded. */
    ghost function State(): Pool
      requires Valid()
      reads this, bitmap
    {
      Pool(baseFrameNo, Codes(bitmap[..]), nFreeFrames)
    }

    /**
     The two assertions of the constructor are requirements. A pool that keeps its own bitmap must have a frame,
     and a bitmap kept elsewhere must fit the frames given for it.
     */
    constructor (base: nat, n: nat, info: nat, nInfo: nat)
      requires base + Rounded(n) <= ALL_FRAMES
      requires info == 0 ==> n > 0
      requires info != 0 ==> AcceptsInfo(base, n, info, nInfo)
      requires info != 0 ==> nInfo * PAGE_SIZE * 4 >= Rounded(n)
      ensures Valid() && fresh(bitmap)
      ensures nInfoFrames == if info == 0 then NeededInfoFrames(Rounded(n)) else nInfo
      ensures bitmap.Length <= nInfoFrames * PAGE_SIZE
      ensures State() == Initial(base, n, if info == 0 then nInfoFrames else 0)
    {
      var size := if n % 4 != 0 then n + (4 - n % 4) else n;
      var needed := if info == 0 then NeededInfoFrames(size) else nInfo;
      baseFrameNo := base;
      nframes := size;
      infoFrameNo := info;
      nInfoFrames := needed;
      nFreeFrames := if info == 0 then Sub32(n, needed) else n;
      bitmap := new Byte[size / 4];
      new;
      FreeAll();
      if info == 0 {
        MarkInfo();
      }
      InitialIs(base, n, if info == 0 then nInfoFrames else 0, State());
    }

    /** The first loop of the constructor: every byte is set. */
    method FreeAll()
      requires Valid()
      modifies bitmap
      ensures Codes(bitmap[..]) == Fill(FreeFrames(nframes), 0, 0, Inaccessible)
    {
      var i := 0;
      while i * 4 < nframes
        invariant 0 <= i <= bitmap.Length
        invariant forall j :: 0 <= j < i ==> bitmap[j] == 0xFF
      {
        bitmap[i] := 0xFF;
        i := i + 1;
      }
      FullBytesAreFree(bitmap[..]);
    }

    /** The second: the info frames are marked. */
    method MarkInfo()
      requires Valid() && nInfoFrames <= nframes && Codes(bitmap[..]) == Fill(FreeFrames(nframes), 0, 0, Inaccessible)
      modifies bitmap
      ensures Codes(bitmap[..]) == Fill(FreeFrames(nframes), 0, nInfoFrames, Inaccessible)
    {
      var k := 0;
      while k < nInfoFrames
        invariant 0 <= k <= nInfoFrames
        invariant Codes(bitmap[..]) == Fill(FreeFrames(nframes), 0, k, Inaccessible)
      {
        WriteInaccessible(k);
        k := k + 1;
      }
    }

    /** The constructor with its two assertions. */
    static method Create(base: nat, n: nat, info: nat, nInfo: nat) returns (r: Outcome<ContFramePool>)
      requires base + Rounded(n) <= ALL_FRAMES
      requires info == 0 ==> n > 0
      ensures r.Returns? <==>
        info == 0 || (AcceptsInfo(base, n, info, nInfo) && nInfo * PAGE_SIZE * 4 >= Rounded(n))
      ensures r.Returns? ==> fresh(r.value) && fresh(r.value.bitmap) && r.value.Valid()
      ensures r.Returns? ==> r.value.nInfoFrames == if info == 0 then NeededInfoFrames(Rounded(n)) else nInfo
      ensures r.Returns? ==> r.value.bitmap.Length <= r.value.nInfoFrames * PAGE_SIZE
      ensures r.Returns? ==> r.value.State() == Initial(base, n, if info == 0 then r.value.nInfoFrames else 0)
    {
      if info != 0 {
        if !AcceptsInfo(base, n, info, nInfo) || !(nInfo * PAGE_SIZE * 4 >= Rounded(n)) {
          return Halts;
        }
      }
      var pool := new ContFramePool(base, n, info, nInfo);
      return Returns(pool);
    }

    // The tests of the bitmap.

    /** bitmap[k] == 0x0 */
    method ByteIsZero(k: nat) returns (r: bool)
      requires Valid() && k < bitmap.Length
      ensures r <==> SkippedByte(Codes(bitmap[..]), k)
    {
      r := bitmap[k] == 0x0;
      ZeroByte(bitmap[k]);
      CodeInByte(bitmap[..], k, 0);
      CodeInByte(bitmap[..], k, 1);
      CodeInByte(bitmap[..], k, 2);
      CodeInByte(bitmap[..], k, 3);
    }

    /** Both bits of the frame are set. */
    method IsFree(i: nat) returns (r: bool)
      requires Valid() && i < nframes
      ensures r <==> Codes(bitmap[..])[i] == Free
    {
      r := bitmap[i / 4] & HiMask(i % 4) != 0 && bitmap[i / 4] & LoMask(i % 4) != 0;
      CodeOfFrame(bitmap[..], i);
    }

    /** The high bit of the frame is set and the low bit is not. */
    method IsHead(i: nat) returns (r: bool)
      requires Valid() && i < nframes
      ensures r <==> Codes(bitmap[..])[i] == Head
    {
      r := bitmap[i / 4] & HiMask(i % 4) != 0 && !(bitmap[i / 4] & LoMask(i % 4) != 0);
      CodeOfFrame(bitmap[..], i);
    }

    /** Either bit of the frame is set. */
    method EndsSequence(i: nat) returns (r: bool)
      requires Valid() && i < nframes
      ensures r <==> Codes(bitmap[..])[i] != Cont
    {
      r := bitmap[i / 4] & HiMask(i % 4) != 0 || bitmap[i / 4] & LoMask(i % 4) != 0;
      CodeOfFrame(bitmap[..], i);
    }

    /** bitmap[i / 4] & ((0x80 >> i % 4 * 2 + 1) > 0), which is how the test of mark_inaccessible binds */
    method BitZero(i: nat) returns (r: bool)
      requires Valid() && i < nframes
      ensures r <==> PassesTest(Codes(bitmap[..]), i)
    {
      r := bitmap[i / 4] & (if LoMask(i % 4) > 0 then 1 else 0) != 0;
      MasksApart(i % 4, i % 4);
      LastBit(bitmap[i / 4]);
      CodeInByte(bitmap[..], i / 4, 3);
    }

    // The four ways a code is written.

    method WriteHead(i: nat)
      requires Valid() && i < nframes
      modifies bitmap
      ensures Codes(bitmap[..]) == old(Codes(bitmap[..]))[i := Head]
    {
      ghost var before := bitmap[..];
      bitmap[i / 4] := bitmap[i / 4] | HiMask(i % 4);
      bitmap[i / 4] := bitmap[i / 4] & !LoMask(i % 4);
      WroteCode(before, i, Head, bitmap[i / 4]);
      assert bitmap[..] == before[i / 4 := bitmap[i / 4]];
    }

    method WriteCont(i: nat)
      requires Valid() && i < nframes
      modifies bitmap
      ensures Codes(bitmap[..]) == old(Codes(bitmap[..]))[i := Cont]
    {
      ghost var before := bitmap[..];
      bitmap[i / 4] := bitmap[i / 4] & !BothMask(i % 4);
      WroteCode(before, i, Cont, bitmap[i / 4]);
      assert bitmap[..] == before[i / 4 := bitmap[i / 4]];
    }

    method WriteInaccessible(i: nat)
      requires Valid() && i < nframes
      modifies bitmap
      ensures Codes(bitmap[..]) == old(Codes(bitmap[..]))[i := Inaccessible]
    {
      ghost var before := bitmap[..];
      bitmap[i / 4] := bitmap[i / 4] & !HiMask(i % 4);
      bitmap[i / 4] := bitmap[i / 4] | LoMask(i % 4);
      WroteCode(before, i, Inaccessible, bitmap[i / 4]);
      assert bitmap[..] == before[i / 4 := bitmap[i / 4]];
    }

    method WriteFree(i: nat)
      requires Valid() && i < nframes
      modifies bitmap
      ensures Codes(bitmap[..]) == old(Codes(bitmap[..]))[i := Free]
    {
      ghost var before := bitmap[..];
      bitmap[i / 4] := bitmap[i / 4] | BothMask(i % 4);
      WroteCode(before, i, Free, bitmap[i / 4]);
      assert bitmap[..] == before[i / 4 := bitmap[i / 4]];
    }

    /** The search loop of get_frames over the bytes of the bitmap. */
    method FindFrames(n: nat) returns (r: Option<nat>)
      requires Valid()
      ensures r == Search(Codes(bitmap[..]), n)
    {
      hide Scanning, SkippedByte, Search;
      ghost var c := Codes(bitmap[..]);
      var i, count := 0, 0;
      ScanStarts(c, n);
      while i < nframes
        invariant 0 <= i <= nframes
        invariant Scanning(c, n, i, count)
      {
        var zero := ByteIsZero(i / 4);
        if zero {
          ScanSkip(c, n, i, count);
          count := 0;
          i := i + 3;
        } else {
          var free := IsFree(i);
          if free {
            ScanFree(c, n, i, count);
            count := count + 1;
            if count == n {
              return Some(i - count + 1);
            }
          } else {
            ScanUsed(c, n, i, count);
          }
        }
        i := i + 1;
      }
      ScanEnds(c, n, count);
      return None;
    }

    method GetFrames(n: nat) returns (r: Outcome<nat>)
      requires Valid()
      modifies this`nFreeFrames, bitmap
      ensures r.Returns? <==> old(CanGet(State(), n))
      ensures r.Returns? ==> r.value == old(Granted(State(), n)) && State() == old(Get(State(), n))
      ensures r.Halts? ==> State() == old(State())
    {
      if nFreeFrames == 0 {
        return Halts;
      }
      var found := FindFrames(n);
      if found.None? {
        return Halts;
      }
      ghost var p := State();
      var start := found.value;
      nFreeFrames := Sub32(nFreeFrames, n);
      WriteHead(start);
      ClaimedFirst(p, start);
      var i := start + 1;
      while i < start + n
        invariant start < i <= start + n
        invariant ClaimedTo(p, start, i, Codes(bitmap[..])) && nFreeFrames == Sub32(p.free, n)
      {
        ClaimedMore(p, start, i, Codes(bitmap[..]));
        WriteCont(i);
        i := i + 1;
      }
      ClaimedAll(p, n, start, i, State());
      return Returns(baseFrameNo + start);
    }

    /**
     When an assertion fails, the frames before the failing one have been marked. The loop must not run past the
     bitmap, which only a range that wraps can make it do.
     */
    method MarkInaccessible(first: u32, n: u32) returns (r: Outcome<()>)
      requires Valid() && InBitmap(State(), first, n)
      modifies this`nFreeFrames, bitmap
      ensures r.Returns? <==> old(CanMark(State(), first, n))
      ensures r.Returns? ==> State() == old(Mark(State(), first, n))
      ensures r.Halts? ==> State() == old(MarkedPart(State(), first, n))
    {
      hide Codes, Passing, MarkFrames, CanMark, Mark, MarkedPart, InBitmap, Add32;
      ghost var p := State();
      MarksNone(p, first, n);
      if !(first >= baseFrameNo && Add32(first, n) <= baseFrameNo + nframes) {
        return Halts;
      }
      var i: u32 := first - baseFrameNo;
      var end := Add32(i, n);
      if i < end {
        MarksSome(p, first, n);
        r := MarkRange(i, end);
        return r;
      }
      return Returns(());
    }

    /** The loop of mark_inaccessible. */
    method MarkRange(lo: nat, end: nat) returns (r: Outcome<()>)
      requires Valid() && lo <= nframes
      requires lo <= end && (end <= nframes || Passing(Codes(bitmap[..]), lo, nframes) < nframes - lo)
      modifies this`nFreeFrames, bitmap
      ensures var k := old(Passing(Codes(bitmap[..]), lo, Bounded(end, nframes)));
        (r.Returns? <==> k == end - lo) && State() == old(MarkFrames(State(), lo, lo + k))
    {
      hide MarkedTo, Codes, Passing, MarkFrames;
      ghost var p := State();
      var i := lo;
      MarkedFirst(p, i);
      while i < end
        invariant lo <= i <= end
        invariant MarkedTo(p, lo, i, Codes(bitmap[..]), nFreeFrames)
      {
        MarkedInside(p, lo, end, i, Codes(bitmap[..]), nFreeFrames);
        var passes := BitZero(i);
        if !passes {
          MarkedStuck(p, lo, end, i, State());
          return Halts;
        }
        MarkedMore(p, lo, i, Codes(bitmap[..]), nFreeFrames);
        WriteInaccessible(i);
        nFreeFrames := Sub32(nFreeFrames, 1);
        i := i + 1;
      }
      MarkedAll(p, lo, end, State());
      return Returns(());
    }

    method ReleaseFrame(first: nat) returns (r: Outcome<()>)
      requires Valid()
      modifies this`nFreeFrames, bitmap
      ensures r.Returns? <==> old(CanRelease(State(), first))
      ensures r.Returns? ==> State() == old(Unget(State(), first))
      ensures r.Halts? ==> State() == old(State())
    {
      if !(first >= baseFrameNo && first < baseFrameNo + nframes) {
        return Halts;
      }
      var i := first - baseFrameNo;
      var head := IsHead(i);
      if !head {
        return Halts;
      }
      FreeSequence(first);
      return Returns(());
    }

    /** The rest of release_frame, once the frame is known to be a head. */
    method FreeSequence(first: nat)
      requires Valid() && CanRelease(State(), first)
      modifies this`nFreeFrames, bitmap
      ensures State() == old(Unget(State(), first))
    {
      hide FreedTo, Unget;
      ghost var p := State();
      var i := first - baseFrameNo;
      FreedFirst(p, i);
      WriteFree(i);
      i := i + 1;
      nFreeFrames := Add32(nFreeFrames, 1);
      while i < nframes
        invariant first - baseFrameNo < i <= nframes
        invariant FreedTo(p, first - baseFrameNo, i, Codes(bitmap[..]), nFreeFrames)
      {
        var ends := EndsSequence(i);
        if ends {
          break;
        }
        FreedMore(p, first - baseFrameNo, i, Codes(bitmap[..]), nFreeFrames);
        WriteFree(i);
        nFreeFrames := Add32(nFreeFrames, 1);
        i := i + 1;
      }
      FreedAll(p, first, i, State());
    }
  }
}
