/** The static list of frame pools, through which a frame finds the pool it came from. */
module FrameRegistry {
  import opened Kernel
  import opened FrameCodes
  import opened FramePool
  import opened FrameLedger
  import C = ContFramePool

  /** The first pool that owns frame f, from index k on. */
  function Owner(pools: seq<Pool>, f: nat, k: nat): (r: Option<nat>)
    requires k <= |pools|
    ensures r.Some? ==> k <= r.value < |pools| && pools[r.value].Owns(f)
    ensures forall i :: k <= i < (if r.Some? then r.value else |pools|) ==> !pools[i].Owns(f)
    decreases |pools| - k
  {
    if k == |pools| then None
    else if pools[k].Owns(f) then Some(k)
    else Owner(pools, f, k + 1)
  }

  predicate CanReleaseIn(pools: seq<Pool>, f: nat) {
    var k := Owner(pools, f, 0);
    k.Some? ==> CanRelease(pools[k.value], f)
  }

  /** release_frames over all pools: a frame of no pool is ignored. */
  function ReleaseIn(pools: seq<Pool>, f: nat): seq<Pool>
    requires CanReleaseIn(pools, f)
  {
    var k := Owner(pools, f, 0);
    if k.None? then pools else pools[k.value := Unget(pools[k.value], f)]
  }

  /** No frame belongs to two pools. */
  ghost predicate Disjoint(pools: seq<Pool>) {
    forall i, j, f :: 0 <= i < |pools| && 0 <= j < |pools| && pools[i].Owns(f) && pools[j].Owns(f) ==> i == j
  }

  /**
   With disjoint pools, releasing a frame of pool k changes that pool only, and in it frees exactly the frames of
   the sequence whose head the frame is.
   */
  lemma ReleaseFramesIsLocal(pools: seq<Pool>, k: nat, f: nat)
    requires Disjoint(pools) && k < |pools| && pools[k].Owns(f) && CanReleaseIn(pools, f)
    ensures ReleaseIn(pools, f) == pools[k := Unget(pools[k], f)]
    ensures var p, q := pools[k], ReleaseIn(pools, f)[k];
      && (p.Good() ==> q.Good()) && |q.codes| == |p.codes|
      && forall i: nat :: i < |p.codes| ==>
        q.codes[i] == if Holds(Meaning(p.codes), f - p.base, i) then Free else p.codes[i]
  {
    var p := pools[k];
    assert Owner(pools, f, 0) == Some(k);
    if p.Good() {
      UngetGood(p, f);
    }
    forall i: nat | i < |p.codes|
      ensures Unget(p, f).codes[i] == if Holds(Meaning(p.codes), f - p.base, i) then Free else p.codes[i]
    {
      ReleaseFrees(p.codes, f - p.base, i);
    }
  }

  /** Whether or not pools overlap, the first that owns the frame decides, and it alone changes. */
  lemma FirstOwnerReleases(pools: seq<Pool>, k: nat, f: nat)
    requires k < |pools| && pools[k].Owns(f) && forall i :: 0 <= i < k ==> !pools[i].Owns(f)
    ensures CanReleaseIn(pools, f) <==> f - pools[k].base in Live(pools[k].codes)
    ensures CanReleaseIn(pools, f) ==> ReleaseIn(pools, f) == pools[k := Unget(pools[k], f)]
  {
    assert Owner(pools, f, 0) == Some(k);
    assert Records(pools[k].codes, Live(pools[k].codes), f - pools[k].base);
  }

  /** A frame of no pool is ignored. */
  lemma StrayIsIgnored(pools: seq<Pool>, f: nat)
    requires forall i :: 0 <= i < |pools| ==> !pools[i].Owns(f)
    ensures CanReleaseIn(pools, f) && ReleaseIn(pools, f) == pools
  {}

  lemma OwnerOnly(pools: seq<Pool>, k: nat, f: nat)
    requires Disjoint(pools) && k < |pools| && pools[k].Owns(f)
    ensures Owner(pools, f, 0) == Some(k)
  {}

  class Registry {
    const CAPACITY: nat := 8
    var pools: seq<C.ContFramePool>

    ghost predicate Valid()
      reads this
    {
      && |pools| <= CAPACITY
      && (forall i :: 0 <= i < |pools| ==> pools[i].Valid())
      && (forall i, j :: 0 <= i < j < |pools| ==> pools[i] != pools[j] && pools[i].bitmap != pools[j].bitmap)
    }

    /** Everything the pools keep in memory. */
    ghost function Footprint(): set<object>
      reads this
    {
      (set p: C.ContFramePool | p in pools :: p as object) + (set p: C.ContFramePool | p in pools :: p.bitmap as object)
    }

    ghost function States(): (s: seq<Pool>)
      requires Valid()
      reads this, Footprint()
      ensures |s| == |pools| && forall i :: 0 <= i < |pools| ==> s[i] == pools[i].State()
    {
      seq(|pools|, i requires 0 <= i < |pools| && pools[i].Valid() reads this, Footprint() => pools[i].State())
    }

    /** The pools' ranges of frames do not meet. */
    ghost predicate Separate()
      reads this
    {
      forall i, j :: 0 <= i < j < |pools| ==>
        || pools[i].baseFrameNo + pools[i].nframes <= pools[j].baseFrameNo
        || pools[j].baseFrameNo + pools[j].nframes <= pools[i].baseFrameNo
    }

    lemma SeparateIsDisjoint()
      requires Valid() && Separate()
      ensures Disjoint(States())
    {
      var s := States();
      forall i, j, f | 0 <= i < |s| && 0 <= j < |s| && s[i].Owns(f) && s[j].Owns(f)
        ensures i == j
      {
        assert s[i] == pools[i].State() && s[j] == pools[j].State();
      }
    }

    constructor ()
      ensures Valid() && pools == []
    {
      pools := [];
    }

    /** The constructor of a pool enters it in the list. */
    method Register(p: C.ContFramePool)
      requires Valid() && p.Valid() && |pools| < CAPACITY
      requires forall i :: 0 <= i < |pools| ==> pools[i] != p && pools[i].bitmap != p.bitmap
      modifies this
      ensures Valid() && pools == old(pools) + [p]
    {
      pools := pools + [p];
    }

    method ReleaseFrames(f: nat) returns (r: Outcome<()>)
      requires Valid()
      modifies Footprint()
      ensures Valid() && pools == old(pools)
      ensures r.Returns? <==> old(CanReleaseIn(States(), f))
      ensures r.Returns? ==> States() == old(ReleaseIn(States(), f))
    {
      hide Unget, CanRelease, Codes;
      ghost var before := States();
      var i := 0;
      while i < |pools|
        invariant 0 <= i <= |pools|
        invariant Owner(before, f, 0) == Owner(before, f, i)
      {
        var cur := pools[i];
        assert before[i] == cur.State();
        if f >= cur.baseFrameNo && f < cur.baseFrameNo + cur.nframes {
          r := cur.ReleaseFrame(f);
          assert forall j :: 0 <= j < |pools| && j != i ==> pools[j].State() == before[j];
          assert States() == before[i := pools[i].State()];
          return r;
        }
        i := i + 1;
      }
      return Returns(());
    }
  }
}
