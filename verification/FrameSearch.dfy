/**
 The search of get_frames over frame codes: what its counter holds, where it stops, and when the range it
 returns is the lowest run of free frames.
 */
module FrameSearch {
  import opened Kernel
  import opened FrameCodes

  /** Byte k holds four frames that all continue a sequence. */
  predicate SkippedByte(c: seq<Code>, k: nat) {
    4 * k + 3 < |c| && c[4 * k] == Cont && c[4 * k + 1] == Cont && c[4 * k + 2] == Cont && c[4 * k + 3] == Cont
  }

  /** Frame i lies in a byte that the search skips. */
  predicate Skipped(c: seq<Code>, i: nat) {
    SkippedByte(c, i / 4)
  }

  /** The search's counter before frame i: the free frames since the last skipped byte, adjacent or not. */
  function Tally(c: seq<Code>, i: nat): (t: nat)
    requires i <= |c|
    ensures t <= i
  {
    if i == 0 || Skipped(c, i - 1) then 0
    else Tally(c, i - 1) + if c[i - 1] == Free then 1 else 0
  }

  /** The frame after the last skipped byte before frame i. */
  function KeptFrom(c: seq<Code>, i: nat): (f: nat)
    requires i <= |c|
    ensures f <= i && (f > 0 ==> Skipped(c, f - 1)) && forall j :: f <= j < i ==> !Skipped(c, j)
  {
    if i == 0 || Skipped(c, i - 1) then i else KeptFrom(c, i - 1)
  }

  /** The counter reaches n at frame i. */
  predicate Stops(c: seq<Code>, n: nat, i: nat)
    requires i < |c|
  {
    c[i] == Free && Tally(c, i + 1) == n
  }

  /** The first frame, not before `from`, at which the counter reaches n. */
  function Stop(c: seq<Code>, n: nat, from: nat): (r: Option<nat>)
    requires from <= |c|
    ensures r.Some? ==> from <= r.value < |c| && Stops(c, n, r.value) && n <= r.value + 1
    ensures forall i :: from <= i < (if r.Some? then r.value else |c|) ==> !Stops(c, n, i)
    decreases |c| - from
  {
    if from == |c| then None
    else if Stops(c, n, from) then Some(from)
    else Stop(c, n, from + 1)
  }

  /** The start of the range that get_frames takes, or None when it gives up. */
  function Search(c: seq<Code>, n: nat): (r: Option<nat>)
    ensures r.Some? ==> n > 0 && r.value + n <= |c|
  {
    var stop := Stop(c, n, 0);
    if stop.Some? then Some(stop.value + 1 - n) else None
  }

  // ---------------------------------------------------------------------------------------------
  // What get_frames is asked for
  // ---------------------------------------------------------------------------------------------

  /** The n frames from s are in the pool and free. */
  predicate Fits(c: seq<Code>, n: nat, s: nat) {
    AllFree(c, s, s + n)
  }

  /** s is the lowest place where n consecutive frames are free. */
  ghost predicate IsFirstFit(c: seq<Code>, n: nat, s: nat) {
    Fits(c, n, s) && forall s' :: 0 <= s' < s ==> !Fits(c, n, s')
  }

  // ---------------------------------------------------------------------------------------------
  // When the search finds it
  // ---------------------------------------------------------------------------------------------

  /** The n frames from f are free and meet the counter empty, and the counter has not reached n up to there. */
  predicate OpensRun(c: seq<Code>, n: nat, f: nat) {
    Fits(c, n, f) && Tally(c, f) == 0 && forall i: nat :: i <= f ==> Tally(c, i) < n
  }

  /**
   What a caller can check of the bitmap before the call: some run of n free frames has no other free frame between
   the last skipped byte and its start, and no stretch between skipped bytes has had n free frames up to there.
   */
  predicate Serves(c: seq<Code>, n: nat) {
    exists f: nat :: f <= |c| && OpensRun(c, n, f)
  }

  lemma {:induction false} RunTally(c: seq<Code>, n: nat, s: nat)
    requires Fits(c, n, s)
    ensures Tally(c, s + n) == Tally(c, s) + n
  {
    if n == 0 {
    } else {
      RunTally(c, n - 1, s);
      assert c[s + n - 1] == Free;
    }
  }

  /** A counter that has reached n stopped the search on the way. */
  lemma {:induction false} TallyStops(c: seq<Code>, n: nat, i: nat)
    requires n > 0 && i < |c| && Tally(c, i + 1) >= n
    ensures exists j :: 0 <= j <= i && Stops(c, n, j)
  {
    if i > 0 && Tally(c, i) >= n {
      TallyStops(c, n, i - 1);
    } else {
      assert Stops(c, n, i);
    }
  }

  /** Giving up is always right: there is no run of n free frames anywhere. */
  lemma SearchGivesUp(c: seq<Code>, n: nat)
    requires n > 0 && Search(c, n).None?
    ensures forall s: nat :: !Fits(c, n, s)
  {
    if s: nat :| Fits(c, n, s) {
      RunTally(c, n, s);
      TallyStops(c, n, s + n - 1);
      assert false;
    }
  }

  /** Asking for no frames never succeeds. */
  lemma SearchForNothing(c: seq<Code>)
    ensures Search(c, 0).None?
  {
  }

  /** The search finds the lowest run of n free frames exactly when the bitmap serves n. */
  lemma SearchIsFirstFit(c: seq<Code>, n: nat)
    ensures Search(c, n).Some? && IsFirstFit(c, n, Search(c, n).value) <==> Serves(c, n)
    ensures Search(c, n).Some? && Fits(c, n, Search(c, n).value) <==> Serves(c, n)
  {
    if f: nat :| f <= |c| && OpensRun(c, n, f) {
      ServedIsFirstFit(c, n, f);
    }
    if Search(c, n).Some? && Fits(c, n, Search(c, n).value) {
      FitIsServed(c, n);
    }
  }

  lemma ServedIsFirstFit(c: seq<Code>, n: nat, f: nat)
    requires OpensRun(c, n, f)
    ensures Search(c, n) == Some(f) && IsFirstFit(c, n, f)
  {
    RunTally(c, n, f);
    assert Stops(c, n, f + n - 1);
    var i := Stop(c, n, 0).value;
    assert Tally(c, i + 1) == n;
    TallyOfRun(c, n, f, i);
    forall s | 0 <= s < f
      ensures !Fits(c, n, s)
    {
      NoEarlierFit(c, n, i, s);
    }
  }

  lemma FitIsServed(c: seq<Code>, n: nat)
    requires Search(c, n).Some? && Fits(c, n, Search(c, n).value)
    ensures OpensRun(c, n, Search(c, n).value)
  {
    var f := Search(c, n).value;
    RunTally(c, n, f);
    forall i: nat | i <= f
      ensures Tally(c, i) < n
    {
      if Tally(c, i) >= n {
        TallyStops(c, n, i - 1);
      }
    }
  }

  lemma NoEarlierFit(c: seq<Code>, n: nat, i: nat, s: nat)
    requires n > 0 && Stop(c, n, 0) == Some(i) && s + n <= i
    ensures !Fits(c, n, s)
  {
    if Fits(c, n, s) {
      RunTally(c, n, s);
      TallyStops(c, n, s + n - 1);
    }
  }

  /** Inside a run that starts the count, the counter tells the place. */
  lemma TallyOfRun(c: seq<Code>, n: nat, f: nat, i: nat)
    requires n > 0 && Fits(c, n, f) && Tally(c, f) == 0
    requires f <= i < f + n && Tally(c, i + 1) == n
    ensures i == f + n - 1
  {
    RunTally(c, i + 1 - f, f);
  }

  /** A single frame is always the first fit. */
  lemma SingleFrameIsFirstFit(c: seq<Code>)
    ensures Search(c, 1).Some? <==> Serves(c, 1)
    ensures Search(c, 1).Some? ==> IsFirstFit(c, 1, Search(c, 1).value)
  {
    SearchIsFirstFit(c, 1);
  }

  /** An input on which the search is not first fit: of two frames asked for, one is in use. */
  lemma SearchStraddles()
    ensures var c: seq<Code> := [Free, Head, Free, Free];
      Search(c, 2) == Some(1) && !Fits(c, 2, 1) && IsFirstFit(c, 2, 2)
  {
    var c: seq<Code> := [Free, Head, Free, Free];
    assert Tally(c, 1) == 1 && Tally(c, 2) == 1 && Tally(c, 3) == 2;
    assert !Stops(c, 2, 0) && !Stops(c, 2, 1) && Stops(c, 2, 2);
    assert Stop(c, 2, 0) == Stop(c, 2, 1) == Stop(c, 2, 2);
    assert c[1] == Head;
  }

  /** The counter is the number of free frames since the last skipped byte. */
  lemma {:induction false} TallyCounts(c: seq<Code>, i: nat)
    requires i <= |c|
    ensures Tally(c, i) == Count(c, KeptFrom(c, i), i)
  {
    if i > 0 && !Skipped(c, i - 1) {
      TallyCounts(c, i - 1);
    }
  }

  // ---------------------------------------------------------------------------------------------
  // What the search does, without its counter
  // ---------------------------------------------------------------------------------------------

  /** The counter, empty at frame f, holds no more than the frames passed since. */
  lemma {:induction false} TallySince(c: seq<Code>, f: nat, i: nat)
    requires f <= i <= |c| && Tally(c, f) == 0
    ensures Tally(c, i) <= i - f
  {
    if f < i {
      TallySince(c, f, i - 1);
    }
  }

  lemma FourConts(c: seq<Code>, k: nat)
    requires 4 * k + 4 <= |c| && c[4 * k..4 * k + 4] == [Cont, Cont, Cont, Cont]
    ensures SkippedByte(c, k) && forall j :: 4 * k <= j < 4 * k + 4 ==> c[j] == Cont
  {
    forall j | 4 * k <= j < 4 * k + 4
      ensures c[j] == Cont
    {
      assert c[j] == c[4 * k..4 * k + 4][j - 4 * k];
    }
  }

  /** A byte of four continuations clears the counter: no range that is returned reaches into it or across. */
  lemma SearchStopsShort(c: seq<Code>, n: nat, k: nat, s: nat)
    requires 4 * k + 4 <= |c| && c[4 * k..4 * k + 4] == [Cont, Cont, Cont, Cont]
    requires Search(c, n) == Some(s)
    ensures s + n <= 4 * k || 4 * k + 4 <= s
  {
    hide SkippedByte;
    var i := Stop(c, n, 0).value;
    FourConts(c, k);
    if 4 * k + 4 <= i {
      assert (4 * k + 3) / 4 == k;
      TallySince(c, 4 * k + 4, i + 1);
    }
  }

  /**
   From frame f, which starts the bitmap or follows a byte of four continuations, up to frame i there is no other such
   byte.
   */
  ghost predicate Unbroken(c: seq<Code>, f: nat, i: nat) {
    && f <= i <= |c|
    && (f == 0 || (f % 4 == 0 && f >= 4 && c[f - 4..f] == [Cont, Cont, Cont, Cont]))
    && forall j :: f <= j < i && j % 4 == 0 && j + 4 <= |c| ==>
      !(c[j] == Cont && c[j + 1] == Cont && c[j + 2] == Cont && c[j + 3] == Cont)
  }

  lemma UnbrokenStart(c: seq<Code>, f: nat, i: nat)
    requires Unbroken(c, f, i)
    ensures Tally(c, f) == 0
  {
    if f > 0 {
      var k := f / 4 - 1;
      assert f == 4 * k + 4 && (f - 1) / 4 == k;
      FourConts(c, k);
    }
  }

  lemma UnbrokenAt(c: seq<Code>, f: nat, i: nat, j: nat)
    requires Unbroken(c, f, i) && f <= j < i
    ensures !Skipped(c, j)
  {
    var b := j / 4 * 4;
    assert f <= b && b % 4 == 0;
  }

  lemma {:induction false} KeptTally(c: seq<Code>, f: nat, i: nat)
    requires f <= i <= |c| && Tally(c, f) == 0 && forall j :: f <= j < i ==> !Skipped(c, j)
    ensures Tally(c, i) == Count(c, f, i)
  {
    hide Skipped;
    if i == f {
    } else {
      KeptTally(c, f, i - 1);
    }
  }

  /** No other byte clears it. */
  lemma UnbrokenTally(c: seq<Code>, f: nat, i: nat)
    requires Unbroken(c, f, i)
    ensures Tally(c, i) == Count(c, f, i)
  {
    UnbrokenStart(c, f, i);
    forall j | f <= j < i
      ensures !Skipped(c, j)
    {
      UnbrokenAt(c, f, i, j);
    }
    hide Unbroken, Skipped, Tally, Count;
    KeptTally(c, f, i);
  }

  /**
   The range that is returned ends at a free frame, up to which the frames since the last byte of four continuations
   hold exactly n free ones.
   */
  lemma SearchCounts(c: seq<Code>, n: nat, s: nat, f: nat)
    requires Search(c, n) == Some(s) && Unbroken(c, f, s + n)
    ensures n > 0 && c[s + n - 1] == Free && Count(c, f, s + n) == n
  {
    hide Unbroken, Skipped, Tally, Count;
    UnbrokenTally(c, f, s + n);
  }

  lemma UnbrokenFits(c: seq<Code>, f: nat, i: nat)
    requires Unbroken(c, f, i)
    ensures f <= i <= |c|
  {}

  /** And it is the first such place: where n free frames have come together, the search has ended. */
  lemma SearchMissesNone(c: seq<Code>, n: nat, f: nat, i: nat)
    requires n > 0 && Unbroken(c, f, i) && Count(c, f, i) >= n
    ensures Search(c, n).Some? && Search(c, n).value + n <= i
  {
    hide Unbroken, Skipped, Tally, Count, Stops;
    UnbrokenTally(c, f, i);
    UnbrokenFits(c, f, i);
    TallyStops(c, n, i - 1);
  }
}
