/**
 A frame pool as a value: its operations as the code performs them, when each is sound, and what whole runs of
 them keep.
 */
module FramePool {
  import opened Kernel
  import opened FrameCodes
  import opened FrameSearch
  import opened FrameLedger

  type Bitmap = c: seq<Code> | |c| < WORD

  datatype Pool = Pool(base: nat, codes: Bitmap, free: u32) {
    /** Frame f is one of the pool's. */
    predicate Owns(f: nat) {
      base <= f < base + |codes|
    }

    /** The bitmap decodes to a ledger and the free count agrees with it. */
    ghost predicate Good() {
      Chained(codes) && free == CountFree(codes)
    }
  }

  datatype Op =
    | GetFrames(n: nat)
    | MarkInaccessible(start: u32, size: u32)
    | ReleaseFrame(first: nat)

  /** The test of mark_inaccessible at frame i: it looks at the low bit of the byte, the byte's last frame. */
  predicate PassesTest(c: seq<Code>, i: nat)
    requires i < |c|
  {
    var last := i / 4 * 4 + 3;
    last < |c| && (c[last] == Free || c[last] == Inaccessible)
  }

  predicate AllPass(c: seq<Code>, lo: nat, hi: nat)
    requires lo <= hi <= |c|
  {
    forall i :: lo <= i < hi ==> PassesTest(c, i)
  }

  // The operations. Each comes with the condition under which it returns; otherwise an assertion fails and the
  // machine halts.

  predicate CanGet(p: Pool, n: nat) {
    p.free > 0 && Search(p.codes, n).Some?
  }

  function Get(p: Pool, n: nat): Pool
    requires CanGet(p, n)
  {
    Pool(p.base, Claim(p.codes, Search(p.codes, n).value, n), Sub32(p.free, n))
  }

  /** The frame number that get_frames returns. */
  function Granted(p: Pool, n: nat): nat
    requires CanGet(p, n)
  {
    p.base + Search(p.codes, n).value
  }

  /**
   The number of frames that the loop of mark_inaccessible goes over. Its bound is a 32-bit sum; one that wraps below
   the start leaves none.
   */
  function Reach(p: Pool, first: u32, n: u32): nat
    requires p.base <= first
  {
    var lo: u32 := first - p.base;
    var end := Add32(lo, n);
    if end < lo then 0 else end - lo
  }

  /** The assertion on the range, also a 32-bit sum. */
  predicate InRange(p: Pool, first: u32, n: u32) {
    p.base <= first && Add32(first, n) <= p.base + |p.codes|
  }

  predicate CanMark(p: Pool, first: u32, n: u32) {
    && InRange(p, first, n)
    && var lo, k := first - p.base, Reach(p, first, n);
      k == 0 || (lo + k <= |p.codes| && AllPass(p.codes, lo, lo + k))
  }

  /** Frames lo to hi - 1 of the pool marked and taken from the count. */
  function MarkFrames(p: Pool, lo: nat, hi: nat): Pool
    requires lo <= hi <= |p.codes|
  {
    Pool(p.base, Fill(p.codes, lo, hi, Inaccessible), Sub32(p.free, hi - lo))
  }

  function Mark(p: Pool, first: u32, n: u32): Pool
    requires CanMark(p, first, n)
  {
    var lo, k := first - p.base, Reach(p, first, n);
    if k == 0 then p else MarkFrames(p, lo, lo + k)
  }

  /** How many frames from lo on pass the test, up to the first that does not. */
  function Passing(c: seq<Code>, lo: nat, hi: nat): (k: nat)
    requires lo <= hi <= |c|
    ensures k <= hi - lo && AllPass(c, lo, lo + k) && (k < hi - lo ==> !PassesTest(c, lo + k))
    decreases hi - lo
  {
    if lo == hi || !PassesTest(c, lo) then 0 else 1 + Passing(c, lo + 1, hi)
  }

  /** What the loop leaves behind: the frames before the first that fails are marked, within the bitmap. */
  function MarkedPart(p: Pool, first: u32, n: u32): Pool {
    if InRange(p, first, n) && 0 < Reach(p, first, n) && first - p.base <= |p.codes| then
      var lo, hi := first - p.base, first - p.base + Reach(p, first, n);
      MarkFrames(p, lo, lo + Passing(p.codes, lo, if hi <= |p.codes| then hi else |p.codes|))
    else p
  }

  /** The loop does not run past the bitmap: it ends inside, or an assertion fails before. */
  predicate InBitmap(p: Pool, first: u32, n: u32) {
    InRange(p, first, n) && 0 < Reach(p, first, n) ==>
      var lo := first - p.base;
      || lo + Reach(p, first, n) <= |p.codes|
      || (lo <= |p.codes| && Passing(p.codes, lo, |p.codes|) < |p.codes| - lo)
  }

  predicate CanRelease(p: Pool, first: nat) {
    p.Owns(first) && p.codes[first - p.base] == Head
  }

  function Unget(p: Pool, first: nat): Pool
    requires CanRelease(p, first)
  {
    var h := first - p.base;
    Pool(p.base, Release(p.codes, h), Add32(p.free, End(p.codes, h + 1) - h))
  }

  predicate Can(p: Pool, op: Op) {
    match op
    case GetFrames(n) => CanGet(p, n)
    case MarkInaccessible(first, n) => CanMark(p, first, n)
    case ReleaseFrame(first) => CanRelease(p, first)
  }

  function Step(p: Pool, op: Op): Pool
    requires Can(p, op)
  {
    match op
    case GetFrames(n) => Get(p, n)
    case MarkInaccessible(first, n) => Mark(p, first, n)
    case ReleaseFrame(first) => Unget(p, first)
  }

  /**
   What a caller must check first. get_frames: the bitmap serves n. mark_inaccessible: every frame that would be
   marked is free.
   */
  predicate Sound(p: Pool, op: Op) {
    match op
    case GetFrames(n) => Serves(p.codes, n)
    case MarkInaccessible(first, n) => MarksFree(p, first, n)
    case ReleaseFrame(first) => true
  }

  /** Every frame that would be marked is free. */
  predicate MarksFree(p: Pool, first: u32, n: u32) {
    p.base <= first && 0 < Reach(p, first, n) ==>
      AllFree(p.codes, first - p.base, first - p.base + Reach(p, first, n))
  }

  /** What the operation does to the ledger when it is sound. */
  ghost predicate Tracks(p: Pool, op: Op, q: Pool)
    requires Can(p, op)
  {
    match op
    case GetFrames(n) =>
      var s := Granted(p, n) - p.base;
      IsFirstFit(p.codes, n, s) && Meaning(q.codes) == Ledger(Live(p.codes)[s := n], Bad(p.codes))
    case MarkInaccessible(first, n) =>
      && Live(q.codes) == Live(p.codes)
      && forall i: nat {:trigger i in Bad(q.codes)} ::
        i in Bad(q.codes) <==> i in Bad(p.codes) || first <= p.base + i < first + Reach(p, first, n)
    case ReleaseFrame(first) =>
      Meaning(q.codes) == Ledger(Live(p.codes) - {(first - p.base) as nat}, Bad(p.codes))
  }

  // ---------------------------------------------------------------------------------------------
  // One operation: it keeps the pool good exactly when it is sound
  // ---------------------------------------------------------------------------------------------

  /** Taking a stretch keeps the free count right exactly when all of it was free, even when the count wraps. */
  lemma TakenCount(c: seq<Code>, lo: nat, hi: nat, left: nat)
    requires lo <= hi <= |c| < WORD && left == CountFree(c) - Count(c, lo, hi)
    ensures Sub32(CountFree(c), hi - lo) == left <==> AllFree(c, lo, hi)
  {
    CountAll(c, lo, hi);
  }

  lemma GetGood(p: Pool, n: nat)
    requires p.Good() && CanGet(p, n)
    ensures Get(p, n).Good() <==> Fits(p.codes, n, Search(p.codes, n).value)
  {
    var c, s := p.codes, Search(p.codes, n).value;
    ClaimCount(c, s, n);
    TakenCount(c, s, s + n, CountFree(Claim(c, s, n)));
    assert Fits(c, n, s) <==> AllFree(c, s, s + n);
    if AllFree(c, s, s + n) {
      ClaimMeaning(c, s, n);
    }
  }

  lemma MarkFramesGood(p: Pool, lo: nat, hi: nat)
    requires p.Good() && lo <= hi <= |p.codes|
    ensures MarkFrames(p, lo, hi).Good() <==> AllFree(p.codes, lo, hi)
  {
    var c := p.codes;
    MarkCount(c, lo, hi);
    TakenCount(c, lo, hi, CountFree(Fill(c, lo, hi, Inaccessible)));
    if AllFree(c, lo, hi) {
      MarkMeaning(c, lo, hi);
    }
  }

  lemma MarkGood(p: Pool, first: u32, n: u32)
    requires p.Good() && CanMark(p, first, n)
    ensures Mark(p, first, n).Good() <==> MarksFree(p, first, n)
  {
    var lo, k := first - p.base, Reach(p, first, n);
    if k > 0 {
      MarkFramesGood(p, lo, lo + k);
    }
  }

  lemma UngetGood(p: Pool, first: nat)
    requires p.Good() && CanRelease(p, first)
    ensures Unget(p, first).Good()
  {
    var c, h := p.codes, first - p.base;
    ReleaseMeaning(c, h);
    ReleaseCount(c, h);
  }

  /** An operation that returns keeps the pool good exactly when it was sound. */
  lemma StepIsSound(p: Pool, op: Op)
    requires p.Good() && Can(p, op)
    ensures Step(p, op).Good() <==> Sound(p, op)
  {
    match op
    case GetFrames(n) =>
      GetGood(p, n);
      SearchIsFirstFit(p.codes, n);
    case MarkInaccessible(first, n) =>
      MarkGood(p, first, n);
    case ReleaseFrame(first) =>
      UngetGood(p, first);
  }

  lemma GetTracks(p: Pool, n: nat)
    requires p.Good() && CanGet(p, n) && Sound(p, GetFrames(n))
    ensures Tracks(p, GetFrames(n), Get(p, n))
  {
    SearchIsFirstFit(p.codes, n);
    ClaimMeaning(p.codes, Search(p.codes, n).value, n);
  }

  lemma MarkFramesTracks(p: Pool, lo: nat, hi: nat)
    requires p.Good() && AllFree(p.codes, lo, hi)
    ensures var q := MarkFrames(p, lo, hi);
      && Live(q.codes) == Live(p.codes)
      && forall i: nat {:trigger i in Bad(q.codes)} :: i in Bad(q.codes) <==> i in Bad(p.codes) || lo <= i < hi
  {
    hide Live, Bad, Chained;
    MarkMeaning(p.codes, lo, hi);
    assert MarkFrames(p, lo, hi).codes == Fill(p.codes, lo, hi, Inaccessible);
  }

  lemma MarkTracks(p: Pool, first: u32, n: u32)
    requires p.Good() && CanMark(p, first, n) && Sound(p, MarkInaccessible(first, n))
    ensures Tracks(p, MarkInaccessible(first, n), Mark(p, first, n))
  {
    hide Live, Bad, Reach, AllPass, MarkFrames, Pool.Good;
    var lo, k := first - p.base, Reach(p, first, n);
    if k > 0 {
      MarkFramesTracks(p, lo, lo + k);
      var q := Mark(p, first, n);
      forall i: nat {:trigger i in Bad(q.codes)}
        ensures i in Bad(q.codes) <==> i in Bad(p.codes) || first <= p.base + i < first + k
      {
        assert i in Bad(MarkFrames(p, lo, lo + k).codes) <==> i in Bad(p.codes) || lo <= i < lo + k;
      }
    }
  }

  lemma UngetTracks(p: Pool, first: nat)
    requires p.Good() && CanRelease(p, first)
    ensures Tracks(p, ReleaseFrame(first), Unget(p, first))
  {
    hide Release, Live, Bad, Chained;
    ReleaseMeaning(p.codes, first - p.base);
  }

  /** A sound operation does to the ledger what it says. */
  lemma StepTracks(p: Pool, op: Op)
    requires p.Good() && Can(p, op) && Sound(p, op)
    ensures Tracks(p, op, Step(p, op))
  {
    match op
    case GetFrames(n) => GetTracks(p, n);
    case MarkInaccessible(first, n) => MarkTracks(p, first, n);
    case ReleaseFrame(first) => UngetTracks(p, first);
  }

  /** A pool that serves n has the frames: get_frames returns. */
  lemma ServedIsGranted(p: Pool, n: nat)
    requires p.Good() && Serves(p.codes, n)
    ensures CanGet(p, n)
  {
    SearchIsFirstFit(p.codes, n);
    var s := Search(p.codes, n).value;
    TakenFits(p.codes, s, s + n);
  }

  /** The last frame of byte k is free or inaccessible. */
  predicate EndsOpen(c: seq<Code>, k: nat)
    requires 4 * k + 3 < |c|
  {
    c[4 * k + 3] == Free || c[4 * k + 3] == Inaccessible
  }

  lemma TestIsEnd(c: seq<Code>, i: nat)
    requires |c| % 4 == 0 && i < |c|
    ensures PassesTest(c, i) <==> EndsOpen(c, i / 4)
  {}

  /** A byte that a passing range touches ends open. */
  lemma PassedByteEndsOpen(c: seq<Code>, lo: nat, n: nat, k: nat)
    requires |c| % 4 == 0 && n > 0 && lo + n <= |c| && AllPass(c, lo, lo + n)
    requires lo / 4 <= k <= (lo + n - 1) / 4
    ensures EndsOpen(c, k)
  {
    hide EndsOpen;
    var i := if k == lo / 4 then lo else 4 * k;
    assert i / 4 == k && PassesTest(c, i);
    TestIsEnd(c, i);
  }

  lemma OpenBytesPass(c: seq<Code>, lo: nat, n: nat)
    requires |c| % 4 == 0 && n > 0 && lo + n <= |c|
    requires forall k :: lo / 4 <= k <= (lo + n - 1) / 4 ==> EndsOpen(c, k)
    ensures AllPass(c, lo, lo + n)
  {
    hide EndsOpen, PassesTest;
    forall i | lo <= i < lo + n
      ensures PassesTest(c, i)
    {
      assert EndsOpen(c, i / 4);
      TestIsEnd(c, i);
    }
  }

  /** A range that does not wrap is gone over frame by frame. */
  lemma ReachIs(p: Pool, first: u32, n: u32)
    requires p.base <= first && first + n < WORD
    ensures Reach(p, first, n) == n
  {}

  /**
   A range that wraps is outside every pool, but is accepted, with nothing marked, exactly when both its end and its
   length past the start of the pool wrap, and its end does not wrap past the end of the pool.
   */
  lemma MarkWraps(p: Pool, first: u32, n: u32)
    requires p.base + |p.codes| < WORD && first + n >= WORD
    ensures CanMark(p, first, n) <==>
      p.base <= first && WORD <= first - p.base + n && first + n - WORD <= p.base + |p.codes|
    ensures CanMark(p, first, n) ==> Mark(p, first, n) == p
  {}

  /** Such a range, for every pool of one frame or more. */
  lemma MarkTakesNothing(p: Pool)
    requires 0 < |p.codes| && p.base + |p.codes| < WORD
    ensures CanMark(p, p.base + 1, 0xFFFF_FFFF) && Mark(p, p.base + 1, 0xFFFF_FFFF) == p
  {
    MarkWraps(p, p.base + 1, 0xFFFF_FFFF);
  }

  lemma MarkAcceptsBytes(p: Pool, first: u32, n: u32)
    requires |p.codes| % 4 == 0 && n > 0 && p.base <= first && first + n <= p.base + |p.codes| < WORD
    ensures CanMark(p, first, n) <==>
      forall k :: (first - p.base) / 4 <= k <= (first - p.base + n - 1) / 4 ==> EndsOpen(p.codes, k)
  {
    hide EndsOpen, AllPass;
    var c, lo := p.codes, first - p.base;
    ReachIs(p, first, n);
    if CanMark(p, first, n) {
      forall k | lo / 4 <= k <= (lo + n - 1) / 4
        ensures EndsOpen(c, k)
      {
        PassedByteEndsOpen(c, lo, n, k);
      }
    } else if forall k :: lo / 4 <= k <= (lo + n - 1) / 4 ==> EndsOpen(c, k) {
      OpenBytesPass(c, lo, n);
    }
  }

  /**
   mark_inaccessible accepts a range, whatever is in it, exactly when every byte it touches ends in a free or
   inaccessible frame.
   */
  lemma MarkAccepts(p: Pool, first: u32, n: u32)
    requires |p.codes| % 4 == 0 && n > 0 && p.base <= first && first + n <= p.base + |p.codes| < WORD
    ensures var lo, c := first - p.base, p.codes;
      CanMark(p, first, n) <==>
        forall i :: lo <= i <= (lo + n - 1) / 4 * 4 + 3 && i % 4 == 3 ==> c[i] == Free || c[i] == Inaccessible
  {
    hide CanMark;
    var lo, c := first - p.base, p.codes;
    MarkAcceptsBytes(p, first, n);
    if CanMark(p, first, n) {
      forall i | lo <= i <= (lo + n - 1) / 4 * 4 + 3 && i % 4 == 3
        ensures c[i] == Free || c[i] == Inaccessible
      {
        assert EndsOpen(c, i / 4);
      }
    }
  }

  /**
   A free range is accepted exactly when the last byte it touches ends in a free or inaccessible frame, which may be
   a frame outside the range.
   */
  lemma MarkAcceptsFree(p: Pool, first: u32, n: u32)
    requires |p.codes| % 4 == 0 && n > 0 && p.base <= first && first + n <= p.base + |p.codes| < WORD
    requires AllFree(p.codes, first - p.base, first - p.base + n)
    ensures var i := (first - p.base + n - 1) / 4 * 4 + 3;
      CanMark(p, first, n) <==> p.codes[i] == Free || p.codes[i] == Inaccessible
  {
    var lo := first - p.base;
    MarkAcceptsBytes(p, first, n);
    forall k | lo / 4 <= k < (lo + n - 1) / 4
      ensures EndsOpen(p.codes, k)
    {
      assert lo <= 4 * k + 3 < lo + n;
    }
    assert EndsOpen(p.codes, (lo + n - 1) / 4) <==> CanMark(p, first, n);
  }

  /**
   What a call that does not return leaves of a range in the pool: the frames before the first whose byte ends in a
   frame in use are marked and taken from the count.
   */
  lemma MarkStopsAt(p: Pool, first: u32, n: u32) returns (k: nat)
    requires |p.codes| % 4 == 0 && p.base <= first && first + n <= p.base + |p.codes| < WORD && !CanMark(p, first, n)
    ensures var lo, q, last := first - p.base, MarkedPart(p, first, n), (first - p.base + k) / 4 * 4 + 3;
      && k < n && last < |p.codes| && (p.codes[last] == Head || p.codes[last] == Cont)
      && CanMark(p, first, k) && q.free == Sub32(p.free, k) && |q.codes| == |p.codes|
      && forall i :: 0 <= i < |p.codes| ==> q.codes[i] == if lo <= i < lo + k then Inaccessible else p.codes[i]
  {
    hide PassesTest, AllPass, Passing, Fill, Reach, Add32;
    var lo := first - p.base;
    ReachIs(p, first, n);
    AddIs(first, n);
    k := Passing(p.codes, lo, lo + n);
    ReachIs(p, first, k);
    AddIs(first, k);
    TestIsEnd(p.codes, lo + k);
  }

  lemma AddIs(a: u32, b: u32)
    requires a + b < WORD
    ensures Add32(a, b) == a + b
  {}

  // The mistakes, on one byte.

  /** And the mistake of the search: on a good pool, a request for two frames takes a sequence in use. */
  lemma GetTakesUsedFrame()
    ensures var p := Pool(7, [Free, Head, Free, Free], 3);
      && p.Good() && CanGet(p, 2) && Granted(p, 2) == 8 && p.codes[1] == Head
      && !Get(p, 2).Good()
  {
    var c: Bitmap := [Free, Head, Free, Free];
    var p := Pool(7, c, 3);
    SearchStraddles();
    forall i: nat
      ensures Linked(c, i)
    {
    }
    assert CountFree(c) == Count(c, 0, 4);
    assert Count(c, 0, 4) == Count(c, 0, 2) + 2 && Count(c, 0, 2) == Count(c, 0, 1) == 1;
    GetGood(p, 2);
  }

  /** A free range refused. */
  lemma MarkRefusesFreeFrame()
    ensures AllFree([Free, Free, Free, Head], 0, 1)
    ensures !CanMark(Pool(0, [Free, Free, Free, Head], 3), 0, 1)
  {
    var c: Bitmap := [Free, Free, Free, Head];
    assert !PassesTest(c, 0);
  }

  /** A sequence in use overwritten. */
  lemma MarkTakesUsedFrame()
    ensures var c: Bitmap := [Head, Free, Free, Free];
      c[0] == Head && CanMark(Pool(0, c, 3), 0, 1) && Mark(Pool(0, c, 3), 0, 1).codes[0] == Inaccessible
  {
    var c: Bitmap := [Head, Free, Free, Free];
    assert PassesTest(c, 0);
  }

  // ---------------------------------------------------------------------------------------------
  // Decoding alone
  // ---------------------------------------------------------------------------------------------

  /** Decoding survives every get_frames, even one that takes frames in use. */
  lemma GetChained(p: Pool, n: nat)
    requires Chained(p.codes) && CanGet(p, n)
    ensures Chained(Get(p, n).codes)
  {
    forall i: nat
      ensures Linked(Get(p, n).codes, i)
    {
      assert Linked(p.codes, i);
    }
  }

  /** The frame after those that would be marked does not continue a sequence. */
  predicate EndsSequence(p: Pool, first: u32, n: u32)
    requires p.base <= first
  {
    var k := Reach(p, first, n);
    var hi := first - p.base + k;
    k == 0 || hi >= |p.codes| || p.codes[hi] != Cont
  }

  lemma MarkChained(p: Pool, first: u32, n: u32)
    requires Chained(p.codes) && CanMark(p, first, n)
    ensures Chained(Mark(p, first, n).codes) <==> EndsSequence(p, first, n)
  {
    var lo, k, d := first - p.base, Reach(p, first, n), Mark(p, first, n).codes;
    if EndsSequence(p, first, n) {
      forall i: nat
        ensures Linked(d, i)
      {
        assert Linked(p.codes, i);
      }
    } else {
      assert !Linked(d, lo + k);
    }
  }

  /** mark_inaccessible does not cut a sequence short. */
  predicate CutsNothing(p: Pool, op: Op) {
    op.MarkInaccessible? && p.base <= op.start ==> EndsSequence(p, op.start, op.size)
  }

  lemma StepChained(p: Pool, op: Op)
    requires Chained(p.codes) && Can(p, op)
    ensures Chained(Step(p, op).codes) <==> CutsNothing(p, op)
  {
    match op
    case GetFrames(n) => GetChained(p, n);
    case MarkInaccessible(first, n) => MarkChained(p, first, n);
    case ReleaseFrame(first) => ReleaseMeaning(p.codes, first - p.base);
  }

  /** What release_frame accepts: the heads of live sequences. */
  lemma ReleaseAccepts(p: Pool, f: nat)
    ensures CanRelease(p, f) <==> p.Owns(f) && f - p.base in Live(p.codes)
  {
    if p.Owns(f) {
      assert Records(p.codes, Live(p.codes), f - p.base);
    }
  }

  /**
   Whatever the range held, afterwards it belongs to the sequence that get_frames returns, which is longer exactly when
   the frame after it continued another.
   */
  lemma GrantIsHeld(p: Pool, n: nat)
    requires CanGet(p, n)
    ensures var q, h := Get(p, n), Granted(p, n) - p.base;
      && h in Live(q.codes) && h + n <= |q.codes| && Live(q.codes)[h] >= n
      && (Live(q.codes)[h] == n <==> h + n == |p.codes| || p.codes[h + n] != Cont)
  {
    hide Search;
    var q, h := Get(p, n), Search(p.codes, n).value;
    assert Records(q.codes, Live(q.codes), h);
    var e := End(q.codes, h + 1);
    assert e >= h + n;
    if h + n < |p.codes| {
      assert q.codes[h + n] == p.codes[h + n];
    }
  }

  // ---------------------------------------------------------------------------------------------
  // Round trips
  // ---------------------------------------------------------------------------------------------

  lemma GetValue(p: Pool, n: nat, s: nat)
    requires p.Good() && CanGet(p, n) && Sound(p, GetFrames(n)) && s == Search(p.codes, n).value
    ensures AllFree(p.codes, s, s + n) && n <= p.free
    ensures Get(p, n) == Pool(p.base, Claim(p.codes, s, n), p.free - n) && Granted(p, n) == p.base + s
  {
    SearchIsFirstFit(p.codes, n);
    TakenFits(p.codes, s, s + n);
  }

  lemma UngetClaim(base: nat, c: Bitmap, s: nat, n: nat, free: u32)
    requires Chained(c) && 0 < n <= free && AllFree(c, s, s + n)
    ensures var q := Pool(base, Claim(c, s, n), free - n);
      CanRelease(q, base + s) && Unget(q, base + s) == Pool(base, c, free)
  {
    ClaimEnd(c, s, n);
    ReleaseUndoesClaim(c, s, n);
  }

  /** A claimed range is released as a whole, and what was not free in it comes back free. */
  lemma ClaimReleased(c: seq<Code>, s: nat, n: nat)
    requires n > 0 && s + n <= |c|
    ensures AllFree(Release(Claim(c, s, n), s), s, s + n)
  {
    var d := Claim(c, s, n);
    assert End(d, s + 1) >= s + n;
  }

  lemma GrantReleases(p: Pool, n: nat)
    requires CanGet(p, n)
    ensures var s := Search(p.codes, n).value;
      && CanRelease(Get(p, n), Granted(p, n))
      && Unget(Get(p, n), Granted(p, n)).codes == Release(Claim(p.codes, s, n), s)
  {
    hide Search, Release, End;
  }

  /** Releasing what get_frames returned restores the whole pool exactly when the bitmap served the request. */
  lemma ReleaseUndoesGet(p: Pool, n: nat)
    requires p.Good() && CanGet(p, n)
    ensures CanRelease(Get(p, n), Granted(p, n))
    ensures Unget(Get(p, n), Granted(p, n)) == p <==> Serves(p.codes, n)
  {
    hide Claim, Release, Serves, Chained, End, CanRelease, Unget;
    GrantReleases(p, n);
    var s := Search(p.codes, n).value;
    if Serves(p.codes, n) {
      GetValue(p, n, s);
      UngetClaim(p.base, p.codes, s, n, p.free);
    }
    if Unget(Get(p, n), Granted(p, n)) == p {
      ClaimReleased(p.codes, s, n);
      SearchIsFirstFit(p.codes, n);
    }
  }

  lemma TakenFits(c: seq<Code>, lo: nat, hi: nat)
    requires AllFree(c, lo, hi)
    ensures hi - lo <= CountFree(c)
  {
    CountAll(c, lo, hi);
    CountSplit(c, 0, lo, |c|);
    CountSplit(c, lo, hi, |c|);
  }

  // ---------------------------------------------------------------------------------------------
  // Whole runs
  // ---------------------------------------------------------------------------------------------

  /** The pools before and after each operation of a run; the run ends early if the machine halts. */
  function Run(p: Pool, ops: seq<Op>): (r: seq<Pool>)
    ensures 0 < |r| <= |ops| + 1 && r[0] == p
    decreases |ops|
  {
    if ops == [] || !Can(p, ops[0]) then [p]
    else [p] + Run(Step(p, ops[0]), ops[1..])
  }

  /** Every operation that was carried out met its condition. */
  predicate SoundRun(p: Pool, ops: seq<Op>)
    decreases |ops|
  {
    ops == [] || !Can(p, ops[0])
    || (Sound(p, ops[0]) && SoundRun(Step(p, ops[0]), ops[1..]))
  }

  /** Every operation that was carried out asked for a single frame, marked free frames, or released. */
  predicate SinglesRun(p: Pool, ops: seq<Op>)
    decreases |ops|
  {
    ops == [] || !Can(p, ops[0])
    || ((ops[0].GetFrames? ==> ops[0].n == 1) && (ops[0].MarkInaccessible? ==> Sound(p, ops[0]))
      && SinglesRun(Step(p, ops[0]), ops[1..]))
  }

  /** A run that asks for frames one at a time, as the page table does, is sound, and keeps every pool good. */
  lemma {:induction false} SinglesAreSound(p: Pool, ops: seq<Op>)
    requires SinglesRun(p, ops)
    ensures SoundRun(p, ops)
    ensures p.Good() ==> AllGood(Run(p, ops))
    decreases |ops|
  {
    if ops != [] && Can(p, ops[0]) {
      SingleFrameIsFirstFit(p.codes);
      SinglesAreSound(Step(p, ops[0]), ops[1..]);
    }
    if p.Good() {
      RunStaysGood(p, ops);
    }
  }

  ghost predicate AllGood(ps: seq<Pool>) {
    forall i :: 0 <= i < |ps| ==> ps[i].Good()
  }

  /** A run keeps every pool good exactly when every operation in it was sound. */
  lemma {:induction false} RunStaysGood(p: Pool, ops: seq<Op>)
    requires p.Good()
    ensures AllGood(Run(p, ops)) <==> SoundRun(p, ops)
    decreases |ops|
  {
    if ops != [] && Can(p, ops[0]) {
      var q := Step(p, ops[0]);
      StepIsSound(p, ops[0]);
      if q.Good() {
        RunStaysGood(q, ops[1..]);
        AllGoodCons(p, Run(q, ops[1..]));
      } else {
        assert Run(p, ops)[1] == q;
      }
    }
  }

  predicate CutFreeRun(p: Pool, ops: seq<Op>)
    decreases |ops|
  {
    ops == [] || !Can(p, ops[0]) || (CutsNothing(p, ops[0]) && CutFreeRun(Step(p, ops[0]), ops[1..]))
  }

  ghost predicate AlwaysChained(p: Pool, ops: seq<Op>)
    decreases |ops|
  {
    Chained(p.codes) && (ops == [] || !Can(p, ops[0]) || AlwaysChained(Step(p, ops[0]), ops[1..]))
  }

  /** Every bitmap of a run decodes exactly when no mark cut a sequence short, whatever else was unsound. */
  lemma {:induction false} RunStaysChained(p: Pool, ops: seq<Op>)
    requires Chained(p.codes)
    ensures AlwaysChained(p, ops) <==> CutFreeRun(p, ops)
    decreases |ops|
  {
    if ops == [] || !Can(p, ops[0]) {
    } else {
      StepChained(p, ops[0]);
      if CutsNothing(p, ops[0]) {
        RunStaysChained(Step(p, ops[0]), ops[1..]);
      } else {
        assert !AlwaysChained(Step(p, ops[0]), ops[1..]);
      }
    }
  }

  lemma AllGoodCons(p: Pool, ps: seq<Pool>)
    requires p.Good()
    ensures AllGood([p] + ps) <==> AllGood(ps)
  {
    assert AllGood([p] + ps) ==> forall i :: 0 <= i < |ps| ==> ps[i] == ([p] + ps)[i + 1];
  }

  /** The sequence allocated at h in p, if any, is allocated with the same frames in q. */
  ghost predicate Keeps(p: Pool, q: Pool, h: nat) {
    h in Live(p.codes) ==> h in Live(q.codes) && Live(q.codes)[h] == Live(p.codes)[h]
  }

  ghost predicate SamePlace(p: Pool, q: Pool) {
    q.base == p.base && |q.codes| == |p.codes| && Bad(p.codes) <= Bad(q.codes)
  }

  lemma KeepsOn(p: Pool, q: Pool, r: Pool, h: nat)
    requires Keeps(p, q, h) && Keeps(q, r, h)
    ensures Keeps(p, r, h)
  {}

  lemma KeepsSelf(p: Pool, h: nat)
    ensures Keeps(p, p, h)
  {}

  lemma SamePlaceSelf(p: Pool)
    ensures SamePlace(p, p)
  {}

  lemma SamePlaceOn(p: Pool, q: Pool, r: Pool)
    requires SamePlace(p, q) && SamePlace(q, r)
    ensures SamePlace(p, r)
  {}

  lemma StepKeeps(p: Pool, op: Op, h: nat)
    requires p.Good() && Sound(p, op) && Can(p, op) && op != ReleaseFrame(p.base + h)
    ensures Keeps(p, Step(p, op), h)
  {
    StepTracks(p, op);
    if op.GetFrames? {
      GetFramesIsFresh(p, op.n);
    }
  }

  /** What get_frames returns was not the head of any sequence before. */
  lemma GetFramesIsFresh(p: Pool, n: nat)
    requires p.Good() && Sound(p, GetFrames(n)) && CanGet(p, n)
    ensures Granted(p, n) - p.base !in Live(p.codes)
  {
    var s := Search(p.codes, n).value;
    SearchIsFirstFit(p.codes, n);
    assert p.codes[s] == Free && Records(p.codes, Live(p.codes), s);
  }

  /** The first operation of a sound run, and the rest of the run after it. */
  lemma FirstStep(p: Pool, ops: seq<Op>, k: nat) returns (q: Pool)
    requires p.Good() && SoundRun(p, ops) && 0 < k < |Run(p, ops)|
    ensures ops != [] && Sound(p, ops[0]) && Can(p, ops[0]) && q == Step(p, ops[0])
    ensures q.Good() && SamePlace(p, q) && SoundRun(q, ops[1..])
    ensures k - 1 < |Run(q, ops[1..])| && Run(p, ops)[k] == Run(q, ops[1..])[k - 1]
  {
    q := Step(p, ops[0]);
    StepIsSound(p, ops[0]);
    StepTracks(p, ops[0]);
  }

  /** In a sound run an inaccessible frame stays inaccessible. */
  lemma {:induction false} RunKeepsInaccessible(p: Pool, ops: seq<Op>, k: nat)
    requires p.Good() && SoundRun(p, ops) && k < |Run(p, ops)|
    ensures SamePlace(p, Run(p, ops)[k])
    decreases |ops|
  {
    hide SamePlace, Step, Can, Sound;
    if k > 0 {
      var q := FirstStep(p, ops, k);
      RunKeepsInaccessible(q, ops[1..], k - 1);
      SamePlaceOn(p, q, Run(p, ops)[k]);
    } else {
      SamePlaceSelf(p);
    }
  }

  /** In a sound run a sequence keeps its frames until its head is released. */
  lemma {:induction false} RunKeepsSequence(p: Pool, ops: seq<Op>, k: nat, h: nat)
    requires p.Good() && SoundRun(p, ops) && k < |Run(p, ops)|
    requires ReleaseFrame(p.base + h) !in ops
    ensures Keeps(p, Run(p, ops)[k], h)
    decreases |ops|
  {
    hide Keeps, Step, Sound, Can;
    if k > 0 {
      var q := FirstStep(p, ops, k);
      StepKeeps(p, ops[0], h);
      RunKeepsSequence(q, ops[1..], k - 1, h);
      KeepsOn(p, q, Run(p, ops)[k], h);
    } else {
      KeepsSelf(p, h);
    }
  }
}
