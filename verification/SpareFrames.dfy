/**
 Pools whose size is not a multiple of four: the bitmap has frames that the pool was not made for. The free count,
 set before the size is rounded, keeps single-frame requests away from them, but no others.
 */
module SpareFrames {
  import opened Kernel
  import opened FrameCodes
  import opened FrameSearch
  import opened FrameLedger
  import opened FramePool
  import opened ContFramePool

  /** A new pool grants whatever its bitmap has room for, as long as one frame of its own is left. */
  lemma NewPoolGrants(base: nat, n: nat, ownInfo: nat, m: nat)
    requires ownInfo <= n && Rounded(n) < WORD
    ensures var p := Initial(base, n, ownInfo);
      && (CanGet(p, m) <==> ownInfo < n && 0 < m <= Rounded(n) - ownInfo)
      && (CanGet(p, m) ==> Granted(p, m) == base + ownInfo)
  {
    var c := Initial(base, n, ownInfo).codes;
    TallyAfter(c, ownInfo, ownInfo);
    forall i: nat | i <= ownInfo
      ensures Tally(c, i) == 0
    {
      TallyAfter(c, ownInfo, i);
    }
    if 0 < m <= Rounded(n) - ownInfo {
      assert OpensRun(c, m, ownInfo);
      ServedIsFirstFit(c, m, ownInfo);
    } else if Search(c, m).Some? {
      TallyAfter(c, ownInfo, Stop(c, m, 0).value + 1);
      assert false;
    }
  }

  /** Of a new pool of five frames, six are granted, and the free count wraps. */
  lemma SixOfFive(base: nat)
    ensures var p := Initial(base, 5, 0); CanGet(p, 6) && Granted(p, 6) == base && Get(p, 6).free == 0xFFFF_FFFF
  {
    NewPoolGrants(base, 5, 0, 6);
  }

  /** The frames from n on are free, and the free count is that of the frames before. */
  ghost predicate Exact(p: Pool, n: nat) {
    && Chained(p.codes) && n <= |p.codes|
    && (forall i :: n <= i < |p.codes| ==> p.codes[i] == Free)
    && p.free + (|p.codes| - n) == CountFree(p.codes)
  }

  lemma ExactCount(p: Pool, n: nat)
    requires Exact(p, n)
    ensures p.free == Count(p.codes, 0, n)
  {
    CountSplit(p.codes, 0, n, |p.codes|);
    CountAll(p.codes, n, |p.codes|);
  }

  /** One frame at a time, marks of free frames among the first n, and releases. */
  predicate Modest(p: Pool, op: Op, n: nat) {
    match op
    case GetFrames(m) => m == 1
    case MarkInaccessible(first, m) => first + m <= p.base + n && n <= |p.codes| && MarksFree(p, first, m)
    case ReleaseFrame(first) => true
  }

  lemma {:induction false} FreeAmong(c: seq<Code>, n: nat) returns (i: nat)
    requires n <= |c| && Count(c, 0, n) > 0
    ensures i < n && c[i] == Free
  {
    if c[n - 1] == Free {
      i := n - 1;
    } else {
      i := FreeAmong(c, n - 1);
    }
  }

  /** A single frame is granted exactly when one of the first n is free, and is then one of them. */
  lemma SingleIsOwn(p: Pool, n: nat)
    requires Exact(p, n)
    ensures CanGet(p, 1) <==> exists i :: 0 <= i < n && p.codes[i] == Free
    ensures CanGet(p, 1) ==> Granted(p, 1) < p.base + n
  {
    ExactCount(p, n);
    SingleFrameIsFirstFit(p.codes);
    if p.free > 0 {
      var i := FreeAmong(p.codes, n);
      assert Fits(p.codes, 1, i);
      SearchFinds(p.codes, i);
    }
    if i :| 0 <= i < n && p.codes[i] == Free {
      CountSplit(p.codes, 0, i, n);
      CountSplit(p.codes, i, i + 1, n);
    }
  }

  lemma SearchFinds(c: seq<Code>, i: nat)
    requires Fits(c, 1, i)
    ensures Search(c, 1).Some? && Search(c, 1).value <= i
  {
    if Search(c, 1).None? {
      SearchGivesUp(c, 1);
    } else {
      SingleFrameIsFirstFit(c);
    }
  }

  lemma StepStaysExact(p: Pool, op: Op, n: nat)
    requires Exact(p, n) && Can(p, op) && Modest(p, op, n)
    ensures Exact(Step(p, op), n) && Step(p, op).base == p.base && |Step(p, op).codes| == |p.codes|
  {
    match op
    case GetFrames(m) => GetStaysExact(p, n);
    case MarkInaccessible(first, m) => MarkStaysExact(p, first, m, n);
    case ReleaseFrame(first) => ReleaseStaysExact(p, first, n);
  }

  lemma GetStaysExact(p: Pool, n: nat)
    requires Exact(p, n) && CanGet(p, 1)
    ensures Exact(Get(p, 1), n)
  {
    var s := Search(p.codes, 1).value;
    SingleIsOwn(p, n);
    SingleFrameIsFirstFit(p.codes);
    GetChained(p, 1);
    ClaimCount(p.codes, s, 1);
    CountAll(p.codes, s, s + 1);
  }

  lemma MarkStaysExact(p: Pool, first: u32, m: u32, n: nat)
    requires Exact(p, n) && CanMark(p, first, m) && Modest(p, MarkInaccessible(first, m), n)
    ensures Exact(Mark(p, first, m), n)
  {
    hide AllPass, Live, Bad;
    var lo, k := first - p.base, Reach(p, first, m);
    if k > 0 {
      var d := Fill(p.codes, lo, lo + k, Inaccessible);
      MarkMeaning(p.codes, lo, lo + k);
      MarkCount(p.codes, lo, lo + k);
      CountAll(p.codes, lo, lo + k);
      CountSplit(d, 0, n, |d|);
      CountAll(d, n, |d|);
    }
  }

  lemma ReleaseStaysExact(p: Pool, first: nat, n: nat)
    requires Exact(p, n) && CanRelease(p, first)
    ensures Exact(Unget(p, first), n)
  {
    var h := first - p.base;
    var d := Release(p.codes, h);
    ReleaseMeaning(p.codes, h);
    ReleaseCount(p.codes, h);
    CountSplit(d, 0, n, |d|);
    CountAll(d, n, |d|);
  }

  predicate ModestRun(p: Pool, ops: seq<Op>, n: nat)
    decreases |ops|
  {
    ops == [] || !Can(p, ops[0]) || (Modest(p, ops[0], n) && ModestRun(Step(p, ops[0]), ops[1..], n))
  }

  lemma {:induction false} RunStaysExact(p: Pool, ops: seq<Op>, n: nat, j: nat)
    requires Exact(p, n) && ModestRun(p, ops, n) && j < |Run(p, ops)|
    ensures var q := Run(p, ops)[j]; Exact(q, n) && q.base == p.base && |q.codes| == |p.codes|
    decreases |ops|
  {
    hide Exact, Step, Can, Modest;
    if j == 0 {
    } else {
      StepStaysExact(p, ops[0], n);
      RunStaysExact(Step(p, ops[0]), ops[1..], n, j - 1);
    }
  }

  /**
   In every run from a new pool that asks for frames one at a time, the pool behaves as one of the size it was asked
   for: it grants a frame exactly while one of its own is free, and never one beyond.
   */
  lemma SpareFramesStay(base: nat, n: nat, ownInfo: nat, ops: seq<Op>, j: nat)
    requires ownInfo <= n && Rounded(n) < WORD
    requires ModestRun(Initial(base, n, ownInfo), ops, n) && j < |Run(Initial(base, n, ownInfo), ops)|
    ensures var q := Run(Initial(base, n, ownInfo), ops)[j];
      && |q.codes| == Rounded(n) && q.free == Count(q.codes, 0, n)
      && (forall i :: n <= i < |q.codes| ==> q.codes[i] == Free)
      && (CanGet(q, 1) <==> exists i :: 0 <= i < n && q.codes[i] == Free)
      && (CanGet(q, 1) ==> Granted(q, 1) < base + n)
  {
    hide ModestRun;
    var p := Initial(base, n, ownInfo);
    NewIsExact(base, n, ownInfo);
    RunStaysExact(p, ops, n, j);
    ExactCount(Run(p, ops)[j], n);
    SingleIsOwn(Run(p, ops)[j], n);
  }

  lemma NewIsExact(base: nat, n: nat, ownInfo: nat)
    requires ownInfo <= n && Rounded(n) < WORD
    ensures Exact(Initial(base, n, ownInfo), n)
  {
    var c := FreeFrames(Rounded(n));
    InitialGood(base, n, ownInfo);
    MarkCount(c, 0, ownInfo);
    CountAll(c, 0, ownInfo);
    CountAll(c, 0, |c|);
  }
}
