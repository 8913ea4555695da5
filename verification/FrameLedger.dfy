/**
 What a bitmap of frame codes means: a ledger of disjoint allocated sequences and inaccessible frames, and what
 each way of rewriting the codes does to the ledger.
 */
module FrameLedger {
  import opened Kernel
  import opened FrameCodes

  datatype Ledger = Ledger(live: map<nat, nat>, bad: set<nat>)

  /** If frame i continues a sequence, the frame before it belongs to one. */
  ghost predicate Linked(c: seq<Code>, i: nat) {
    i < |c| && c[i] == Cont ==> i > 0 && (c[i - 1] == Head || c[i - 1] == Cont)
  }

  /** Every continuation frame chains back to a head. */
  ghost predicate Chained(c: seq<Code>) {
    forall i: nat :: Linked(c, i)
  }

  /** The end of the stretch of continuation frames that starts at j. */
  function End(c: seq<Code>, j: nat): (e: nat)
    requires j <= |c|
    ensures j <= e <= |c| && (e < |c| ==> c[e] != Cont)
    ensures forall i :: j <= i < e ==> c[i] == Cont
    decreases |c| - j
  {
    if j == |c| || c[j] != Cont then j else End(c, j + 1)
  }

  /** m records frame h rightly: it is a key exactly when it is a head, and then with the length of its sequence. */
  ghost predicate Records(c: seq<Code>, m: map<nat, nat>, h: nat) {
    && (h in m <==> h < |c| && c[h] == Head)
    && (h in m ==> m[h] == End(c, h + 1) - h)
  }

  function LiveBelow(c: seq<Code>, k: nat): (m: map<nat, nat>)
    requires k <= |c|
    ensures forall h: nat :: (h < k ==> Records(c, m, h)) && (h in m ==> h < k)
  {
    if k == 0 then map[]
    else if c[k - 1] == Head then LiveBelow(c, k - 1)[k - 1 := End(c, k) - (k - 1)]
    else LiveBelow(c, k - 1)
  }

  /** The allocated sequences: the length of each, by its head. */
  function Live(c: seq<Code>): (m: map<nat, nat>)
    ensures forall h: nat :: Records(c, m, h)
  {
    LiveBelow(c, |c|)
  }

  lemma LiveUnique(c: seq<Code>, m: map<nat, nat>)
    requires forall h: nat :: Records(c, m, h)
    ensures m == Live(c)
  {
    forall h: nat
      ensures (h in m <==> h in Live(c)) && (h in m ==> m[h] == Live(c)[h])
    {
      assert Records(c, m, h) && Records(c, Live(c), h);
    }
  }

  function Bad(c: seq<Code>): (s: set<nat>)
    ensures forall i: nat {:trigger i in s} :: i in s <==> i < |c| && c[i] == Inaccessible
  {
    set i: nat | i < |c| && c[i] == Inaccessible
  }

  function Meaning(c: seq<Code>): Ledger {
    Ledger(Live(c), Bad(c))
  }

  /** Frame i belongs to the sequence allocated at h. */
  ghost predicate Holds(l: Ledger, h: nat, i: nat) {
    h in l.live && h <= i < h + l.live[h]
  }

  // ---------------------------------------------------------------------------------------------
  // The codes are determined by the ledger, and the ledger partitions the pool
  // ---------------------------------------------------------------------------------------------

  function HeadOf(c: seq<Code>, i: nat): (h: nat)
    requires i < |c| && Chained(c) && (c[i] == Head || c[i] == Cont)
    ensures h <= i && c[h] == Head && forall j :: h < j <= i ==> c[j] == Cont
  {
    assert Linked(c, i);
    if c[i] == Head then i else HeadOf(c, i - 1)
  }

  /** A used frame belongs to exactly one sequence; a free or inaccessible one to none. */
  lemma UniqueHolder(c: seq<Code>, i: nat)
    requires Chained(c) && i < |c|
    ensures c[i] == Head || c[i] == Cont ==> Holds(Meaning(c), HeadOf(c, i), i)
    ensures forall h: nat :: Holds(Meaning(c), h, i) ==> (c[i] == Head || c[i] == Cont) && h == HeadOf(c, i)
  {
    if c[i] == Head || c[i] == Cont {
      assert Records(c, Live(c), HeadOf(c, i));
    }
    forall h: nat | Holds(Meaning(c), h, i)
      ensures (c[i] == Head || c[i] == Cont) && h == HeadOf(c, i)
    {
      assert Records(c, Live(c), h);
      assert i == h || c[i] == Cont;
      assert forall j :: HeadOf(c, i) < j <= i ==> c[j] == Cont;
    }
  }

  /** Allocated sequences lie inside the pool, are disjoint, and hold no inaccessible frame. */
  lemma LedgerDisjoint(c: seq<Code>)
    requires Chained(c)
    ensures forall h :: h in Live(c) ==> 0 < Live(c)[h] <= |c| - h
    ensures forall h: nat, g: nat, i: nat :: Holds(Meaning(c), h, i) && Holds(Meaning(c), g, i) ==> h == g
    ensures forall h: nat, i: nat :: Holds(Meaning(c), h, i) ==> i !in Bad(c)
  {
    forall h | h in Live(c)
      ensures 0 < Live(c)[h] <= |c| - h
    {
      assert Records(c, Live(c), h);
    }
    forall h: nat, i: nat | Holds(Meaning(c), h, i)
      ensures c[i] != Inaccessible && h == HeadOf(c, i)
    {
      UniqueHolder(c, i);
    }
  }

  /** Two bitmaps of one size with the same ledger are the same bitmap. */
  lemma MeaningInjective(c: seq<Code>, d: seq<Code>)
    requires Chained(c) && Chained(d) && |c| == |d| && Meaning(c) == Meaning(d)
    ensures c == d
  {
    forall i | 0 <= i < |c|
      ensures c[i] == d[i]
    {
      UniqueHolder(c, i);
      UniqueHolder(d, i);
      assert i in Bad(c) <==> c[i] == Inaccessible;
      assert i in Bad(d) <==> d[i] == Inaccessible;
      assert Records(c, Live(c), i) && Records(d, Live(d), i);
    }
  }

  // ---------------------------------------------------------------------------------------------
  // Counting
  // ---------------------------------------------------------------------------------------------

  function CountFree(c: seq<Code>): nat {
    Count(c, 0, |c|)
  }

  lemma {:induction false} CountSplit(c: seq<Code>, lo: nat, mid: nat, hi: nat)
    requires lo <= mid <= hi <= |c|
    ensures Count(c, lo, hi) == Count(c, lo, mid) + Count(c, mid, hi)
  {
    if mid == hi {
    } else {
      CountSplit(c, lo, mid, hi - 1);
    }
  }

  lemma {:induction false} CountSame(c: seq<Code>, d: seq<Code>, lo: nat, hi: nat)
    requires lo <= hi <= |c| == |d| && forall i :: lo <= i < hi ==> d[i] == c[i]
    ensures Count(d, lo, hi) == Count(c, lo, hi)
  {
    if lo == hi {
    } else {
      CountSame(c, d, lo, hi - 1);
    }
  }

  /** A stretch is all free exactly when it counts as many free frames as it has. */
  lemma {:induction false} CountAll(c: seq<Code>, lo: nat, hi: nat)
    requires lo <= hi <= |c|
    ensures Count(c, lo, hi) == hi - lo <==> AllFree(c, lo, hi)
  {
    if lo == hi {
    } else {
      CountAll(c, lo, hi - 1);
      assert AllFree(c, lo, hi) <==> AllFree(c, lo, hi - 1) && c[hi - 1] == Free;
    }
  }

  lemma {:induction false} CountNone(c: seq<Code>, lo: nat, hi: nat)
    requires lo <= hi <= |c| && forall i :: lo <= i < hi ==> c[i] != Free
    ensures Count(c, lo, hi) == 0
  {
    if lo == hi {
    } else {
      CountNone(c, lo, hi - 1);
    }
  }

  /** Rewriting a stretch without leaving a free frame in it takes its free frames from the count. */
  lemma CountTaken(c: seq<Code>, d: seq<Code>, lo: nat, hi: nat)
    requires lo <= hi <= |c| == |d|
    requires forall i :: 0 <= i < |c| && !(lo <= i < hi) ==> d[i] == c[i]
    requires forall i :: lo <= i < hi ==> d[i] != Free
    ensures CountFree(d) == CountFree(c) - Count(c, lo, hi)
  {
    CountSplit(c, 0, lo, |c|);
    CountSplit(c, lo, hi, |c|);
    CountSplit(d, 0, lo, |c|);
    CountSplit(d, lo, hi, |c|);
    CountSame(c, d, 0, lo);
    CountSame(c, d, hi, |c|);
    CountNone(d, lo, hi);
  }

  /** The codes with frames lo to hi - 1 overwritten. */
  function Fill(c: seq<Code>, lo: nat, hi: nat, x: Code): (d: seq<Code>)
    requires lo <= hi <= |c|
    ensures |d| == |c|
    ensures forall i {:trigger d[i]} :: 0 <= i < |c| ==> d[i] == if lo <= i < hi then x else c[i]
  {
    if lo == hi then c else Fill(c, lo, hi - 1, x)[hi - 1 := x]
  }

  // ---------------------------------------------------------------------------------------------
  // The three rewrites
  // ---------------------------------------------------------------------------------------------

  /** Allocation: the first frame becomes a head, the rest continuations. */
  function Claim(c: seq<Code>, s: nat, n: nat): (d: seq<Code>)
    requires n > 0 && s + n <= |c|
    ensures |d| == |c|
    ensures forall i {:trigger d[i]} :: 0 <= i < |c| ==>
      d[i] == if i == s then Head else if s < i < s + n then Cont else c[i]
  {
    Fill(c, s, s + n, Cont)[s := Head]
  }

  /** Release: the head and everything that continues it become free. */
  function Release(c: seq<Code>, h: nat): (d: seq<Code>)
    requires h < |c|
    ensures |d| == |c|
  {
    Fill(c, h, End(c, h + 1), Free)
  }

  lemma EndIs(c: seq<Code>, j: nat, e: nat)
    requires j <= e <= |c| && (e < |c| ==> c[e] != Cont)
    requires forall i :: j <= i < e ==> c[i] == Cont
    ensures End(c, j) == e
  {
    var f := End(c, j);
    assert forall i :: j <= i < f ==> c[i] == Cont;
  }

  /** d is c with the frames lo to hi - 1 rewritten; no sequence of either reaches into or out of that stretch. */
  ghost predicate Rewrites(c: seq<Code>, d: seq<Code>, lo: nat, hi: nat) {
    && lo < hi <= |c| == |d|
    && (forall i :: 0 <= i < |c| && !(lo <= i < hi) ==> d[i] == c[i])
    && c[lo] != Cont && d[lo] != Cont
    && (hi < |c| ==> c[hi] != Cont)
  }

  lemma EndOutside(c: seq<Code>, d: seq<Code>, lo: nat, hi: nat, h: nat)
    requires Rewrites(c, d, lo, hi) && h < |c| && !(lo <= h < hi)
    ensures End(d, h + 1) == End(c, h + 1)
  {
    var e := End(c, h + 1);
    assert forall i :: h + 1 <= i < e ==> c[i] == Cont;
    EndIs(d, h + 1, e);
  }

  lemma RecordsOutside(c: seq<Code>, d: seq<Code>, lo: nat, hi: nat, h: nat)
    requires Rewrites(c, d, lo, hi) && !(lo <= h < hi)
    ensures Records(d, Live(c), h)
  {
    assert Records(c, Live(c), h);
    if h < |c| {
      EndOutside(c, d, lo, hi, h);
    }
  }

  lemma FreeStretchEnds(c: seq<Code>, lo: nat, hi: nat)
    requires Chained(c) && lo < hi && AllFree(c, lo, hi)
    ensures c[lo] != Cont && (hi < |c| ==> c[hi] != Cont)
  {
    assert c[hi - 1] == Free && Linked(c, hi);
  }

  /** A rewritten stretch that is linked inside leaves the whole linked. */
  lemma StillChained(c: seq<Code>, d: seq<Code>, lo: nat, hi: nat)
    requires Chained(c) && Rewrites(c, d, lo, hi)
    requires forall i :: lo < i < hi && d[i] == Cont ==> d[i - 1] == Head || d[i - 1] == Cont
    ensures Chained(d)
  {
    forall i: nat
      ensures Linked(d, i)
    {
      assert Linked(c, i);
    }
  }

  // Allocation.

  lemma ClaimLive(c: seq<Code>, d: seq<Code>, s: nat, n: nat)
    requires Rewrites(c, d, s, s + n) && AllFree(c, s, s + n)
    requires d[s] == Head && forall i :: s < i < s + n ==> d[i] == Cont
    ensures Live(d) == Live(c)[s := n] && Bad(d) == Bad(c)
  {
    var m := Live(c)[s := n];
    forall h: nat
      ensures Records(d, m, h)
    {
      assert Records(c, Live(c), h);
      if h == s {
        EndIs(d, s + 1, s + n);
      } else if !(s <= h < s + n) {
        RecordsOutside(c, d, s, s + n, h);
      }
    }
    LiveUnique(d, m);
  }

  /** Allocating free frames adds one sequence and changes no other. */
  lemma ClaimMeaning(c: seq<Code>, s: nat, n: nat)
    requires Chained(c) && n > 0 && AllFree(c, s, s + n)
    ensures Chained(Claim(c, s, n))
    ensures s !in Live(c)
    ensures Meaning(Claim(c, s, n)) == Ledger(Live(c)[s := n], Bad(c))
  {
    FreeStretchEnds(c, s, s + n);
    assert Records(c, Live(c), s);
    var d := Claim(c, s, n);
    ClaimLive(c, d, s, n);
    StillChained(c, d, s, s + n);
  }

  /** Whatever the range held, allocating it takes from the count exactly the frames that were free. */
  lemma ClaimCount(c: seq<Code>, s: nat, n: nat)
    requires n > 0 && s + n <= |c|
    ensures CountFree(Claim(c, s, n)) == CountFree(c) - Count(c, s, s + n)
  {
    CountTaken(c, Claim(c, s, n), s, s + n);
  }

  // Release.

  lemma ReleaseLive(c: seq<Code>, d: seq<Code>, h: nat, e: nat)
    requires Rewrites(c, d, h, e) && forall i :: h <= i < e ==> d[i] == Free
    requires c[h] == Head && forall i :: h < i < e ==> c[i] == Cont
    ensures Live(d) == Live(c) - {h} && Bad(d) == Bad(c)
  {
    var m := Live(c) - {h};
    forall g: nat
      ensures Records(d, m, g)
    {
      assert Records(c, Live(c), g);
      if !(h <= g < e) {
        RecordsOutside(c, d, h, e, g);
      }
    }
    LiveUnique(d, m);
  }

  /** Releasing a head removes its sequence from the ledger and nothing else. */
  lemma ReleaseMeaning(c: seq<Code>, h: nat)
    requires Chained(c) && h < |c| && c[h] == Head
    ensures Chained(Release(c, h))
    ensures Meaning(Release(c, h)) == Ledger(Live(c) - {h}, Bad(c))
  {
    var d, e := Release(c, h), End(c, h + 1);
    ReleaseLive(c, d, h, e);
    StillChained(c, d, h, e);
  }

  /** The frames it frees are exactly those of that sequence, and no frame of a neighbour. */
  lemma ReleaseFrees(c: seq<Code>, h: nat, i: nat)
    requires h < |c| && c[h] == Head && i < |c|
    ensures Release(c, h)[i] == if Holds(Meaning(c), h, i) then Free else c[i]
  {
    assert Records(c, Live(c), h);
  }

  lemma ReleaseCount(c: seq<Code>, h: nat)
    requires h < |c| && c[h] == Head
    ensures CountFree(Release(c, h)) == CountFree(c) + (End(c, h + 1) - h)
  {
    var d, e := Release(c, h), End(c, h + 1);
    CountTaken(d, c, h, e);
    CountAll(d, h, e);
  }

  // Marking.

  lemma MarkLive(c: seq<Code>, d: seq<Code>, lo: nat, hi: nat)
    requires Rewrites(c, d, lo, hi) && AllFree(c, lo, hi)
    requires forall i :: lo <= i < hi ==> d[i] == Inaccessible
    ensures Live(d) == Live(c)
    ensures forall i: nat {:trigger i in Bad(d)} :: i in Bad(d) <==> i in Bad(c) || lo <= i < hi
  {
    forall h: nat
      ensures Records(d, Live(c), h)
    {
      assert Records(c, Live(c), h);
      if !(lo <= h < hi) {
        RecordsOutside(c, d, lo, hi, h);
      }
    }
    LiveUnique(d, Live(c));
  }

  /** Marking free frames inaccessible leaves every sequence alone. */
  lemma MarkMeaning(c: seq<Code>, lo: nat, hi: nat)
    requires Chained(c) && AllFree(c, lo, hi)
    ensures Chained(Fill(c, lo, hi, Inaccessible))
    ensures Live(Fill(c, lo, hi, Inaccessible)) == Live(c)
    ensures forall i: nat {:trigger i in Bad(Fill(c, lo, hi, Inaccessible))} ::
      i in Bad(Fill(c, lo, hi, Inaccessible)) <==> i in Bad(c) || lo <= i < hi
  {
    var d := Fill(c, lo, hi, Inaccessible);
    if lo < hi {
      FreeStretchEnds(c, lo, hi);
      MarkLive(c, d, lo, hi);
      StillChained(c, d, lo, hi);
    } else {
      assert d == c;
    }
  }

  /** Whatever the range held, marking it takes from the count exactly the frames that were free. */
  lemma MarkCount(c: seq<Code>, lo: nat, hi: nat)
    requires lo <= hi <= |c|
    ensures CountFree(Fill(c, lo, hi, Inaccessible)) == CountFree(c) - Count(c, lo, hi)
  {
    CountTaken(c, Fill(c, lo, hi, Inaccessible), lo, hi);
  }

  lemma ClaimEnd(c: seq<Code>, s: nat, n: nat)
    requires Chained(c) && n > 0 && AllFree(c, s, s + n)
    ensures End(Claim(c, s, n), s + 1) == s + n
  {
    FreeStretchEnds(c, s, s + n);
    EndIs(Claim(c, s, n), s + 1, s + n);
  }

  /** Releasing what was just allocated restores every code. */
  lemma ReleaseUndoesClaim(c: seq<Code>, s: nat, n: nat)
    requires Chained(c) && n > 0 && AllFree(c, s, s + n)
    ensures Release(Claim(c, s, n), s) == c
  {
    ClaimEnd(c, s, n);
  }
}
