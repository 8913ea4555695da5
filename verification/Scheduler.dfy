/** The FIFO scheduler: a current thread and a ready queue. */
module Scheduler {
  import opened Kernel
  import L = LinkedList

  /** The machine starts with no thread of its own, so the current thread may be missing. */
  datatype State<T> = State(current: Option<T>, queue: seq<T>)

  datatype Action<T> =
    | Yield
    | Resume(t: T)
    | Add(t: T)
    | Terminate(t: T)

  function YieldFrom<T>(s: State<T>): State<T> {
    if s.queue == [] then s else State(Some(s.queue[0]), s.queue[1..])
  }

  function Step<T(==)>(s: State<T>, a: Action<T>): State<T> {
    match a
    case Yield => YieldFrom(s)
    case Resume(t) => s.(queue := s.queue + [t])
    case Add(t) => s.(queue := s.queue + [t])
    case Terminate(t) => s.(queue := L.Without(s.queue, t))
  }

  function Run<T(==)>(s: State<T>, acts: seq<Action<T>>): State<T>
    decreases |acts|
  {
    if acts == [] then s else Run(Step(s, acts[0]), acts[1..])
  }

  class Scheduler<T(==)> {
    const readyQueue: L.LinkedList<T>
    var current: Option<T>

    ghost predicate Valid()
      reads this, readyQueue, readyQueue.repr
    {
      readyQueue.Valid()
    }

    ghost function Value(): State<T>
      reads this, readyQueue
    {
      State(current, readyQueue.Contents())
    }

    constructor ()
      ensures Valid() && Value() == State(None, []) && fresh(readyQueue)
    {
      readyQueue := new L.LinkedList();
      current := None;
    }

    /** Dispatching is modelled as making the thread current. */
    method Yield()
      requires Valid()
      modifies this, readyQueue, readyQueue.repr
      ensures Valid() && fresh(readyQueue.repr - old(readyQueue.repr))
      ensures Value() == Step(old(Value()), Action.Yield)
    {
      var next := readyQueue.Front();
      readyQueue.PopFront();
      if next.Some? {
        current := next;
      }
    }

    method Resume(t: T)
      requires Valid()
      modifies readyQueue, readyQueue.repr
      ensures Valid() && fresh(readyQueue.repr - old(readyQueue.repr))
      ensures Value() == Step(old(Value()), Action.Resume(t))
    {
      readyQueue.PushBack(t);
    }

    method Add(t: T)
      requires Valid()
      modifies readyQueue, readyQueue.repr
      ensures Valid() && fresh(readyQueue.repr - old(readyQueue.repr))
      ensures Value() == Step(old(Value()), Action.Add(t))
    {
      readyQueue.PushBack(t);
    }

    method Terminate(t: T)
      requires Valid()
      modifies readyQueue, readyQueue.repr
      ensures Valid() && fresh(readyQueue.repr - old(readyQueue.repr))
      ensures Value() == Step(old(Value()), Action.Terminate(t))
    {
      readyQueue.RemoveValue(t);
    }
  }

  // ---------------------------------------------------------------------------------------------
  // Handing on the CPU: the current thread resumes itself and yields
  // ---------------------------------------------------------------------------------------------

  /** The current thread followed by the ready queue. */
  function Ring<T>(s: State<T>): seq<T>
    requires s.current.Some?
  {
    [s.current.value] + s.queue
  }

  function PassOn<T(==)>(s: State<T>): State<T>
    requires s.current.Some?
  {
    Step(Step(s, Resume(s.current.value)), Yield)
  }

  function PassOnTimes<T(==)>(s: State<T>, k: nat): (r: State<T>)
    requires s.current.Some?
    ensures r.current.Some?
  {
    if k == 0 then s else PassOn(PassOnTimes(s, k - 1))
  }

  function Rotated<T>(r: seq<T>, k: nat): seq<T>
    requires k <= |r|
  {
    r[k..] + r[..k]
  }

  /** Handing on rotates the ring by one: no thread is lost, doubled, or overtaken. */
  lemma PassOnRotates<T>(s: State<T>)
    requires s.current.Some?
    ensures Ring(PassOn(s)) == Rotated(Ring(s), 1)
    ensures multiset(Ring(PassOn(s))) == multiset(Ring(s))
  {
    var c := s.current.value;
    var q := s.queue + [c];
    assert Ring(PassOn(s)) == q;
    assert Ring(s)[1..] == s.queue;
    assert [q[0]] + q[1..] == q;
  }

  lemma RotatedAgain<T>(r: seq<T>, k: nat)
    requires k < |r|
    ensures Rotated(Rotated(r, k), 1) == Rotated(r, k + 1)
  {
    var a := Rotated(r, k);
    assert a[0] == r[k];
    assert a[1..] == r[k + 1..] + r[..k];
    assert r[..k + 1] == r[..k] + [r[k]];
  }

  /** From any state the dispatch order is the cyclic order of the ring. */
  lemma {:induction false} DispatchOrder<T>(s: State<T>, k: nat)
    requires s.current.Some? && k <= |s.queue| + 1
    ensures Ring(PassOnTimes(s, k)) == Rotated(Ring(s), k)
    ensures k <= |s.queue| ==> PassOnTimes(s, k).current == Some(Ring(s)[k])
    ensures k == |s.queue| + 1 ==> PassOnTimes(s, k) == s
  {
    if k == 0 {
    } else {
      DispatchOrder(s, k - 1);
      PassOnRotates(PassOnTimes(s, k - 1));
      RotatedAgain(Ring(s), k - 1);
    }
    var r := Ring(PassOnTimes(s, k));
    assert r[0] == PassOnTimes(s, k).current.value && r[1..] == PassOnTimes(s, k).queue;
    if k == |s.queue| + 1 {
      assert r == Ring(s);
      assert Ring(s)[1..] == s.queue;
    }
  }

  // ---------------------------------------------------------------------------------------------
  // Whole runs, whatever threads are added, resumed and terminated in between
  // ---------------------------------------------------------------------------------------------

  function Yields<T>(acts: seq<Action<T>>): nat
    decreases |acts|
  {
    if acts == [] then 0 else (if acts[0].Yield? then 1 else 0) + Yields(acts[1..])
  }

  /** After m yields from s the queue still starts with what was behind place m, and thread m is current. */
  ghost predicate InOrder<T>(s: State<T>, r: State<T>, m: nat) {
    && m <= |s.queue| && s.queue[m..] <= r.queue
    && r.current == if m == 0 then s.current else Some(s.queue[m - 1])
  }

  lemma InOrderBefore<T>(s: State<T>, a: Action<T>, r: State<T>, m: nat)
    requires !a.Terminate? && InOrder(Step(s, a), r, m)
    requires (if a.Yield? then m + 1 else m) <= |s.queue|
    ensures InOrder(s, r, if a.Yield? then m + 1 else m)
  {
    var s' := Step(s, a);
    if a.Yield? {
      assert s.queue[m + 1..] == s'.queue[m..];
    } else {
      assert s.queue[m..] <= s'.queue[m..];
    }
  }

  /**
   First in, first out: if nothing is terminated, the m-th yield of a run dispatches the m-th thread of the queue
   it started from, and the threads behind it are still in front of everything that came later.
   */
  lemma {:induction false} FirstInFirstOut<T>(s: State<T>, acts: seq<Action<T>>)
    requires forall t :: Terminate(t) !in acts
    requires Yields(acts) <= |s.queue|
    ensures InOrder(s, Run(s, acts), Yields(acts))
    decreases |acts|
  {
    hide InOrder;
    if acts == [] {
      InOrderSelf(s);
    } else {
      assert acts[0] in acts && forall a :: a in acts[1..] ==> a in acts;
      FirstInFirstOut(Step(s, acts[0]), acts[1..]);
      InOrderBefore(s, acts[0], Run(s, acts), Yields(acts[1..]));
    }
  }

  lemma InOrderSelf<T>(s: State<T>)
    ensures InOrder(s, s, 0)
  {}

  /**
   Bounded waiting: a thread at place k of the queue is dispatched by a yield, the (k + 1)-th at the latest, as long
   as it is not itself terminated; also if it is the current thread as well.
   */
  lemma {:induction false} BoundedWaiting<T>(s: State<T>, acts: seq<Action<T>>, k: nat, t: T) returns (n: nat)
    requires k < |s.queue| && s.queue[k] == t
    requires Terminate(t) !in acts && Yields(acts) > k
    ensures 0 < n <= |acts| && acts[n - 1].Yield? && Yields(acts[..n]) <= k + 1
    ensures Run(s, acts[..n]).current == Some(t)
    decreases |acts|
  {
    var s' := Step(s, acts[0]);
    assert acts[0] in acts && forall a :: a in acts[1..] ==> a in acts;
    if acts[0].Yield? && k == 0 {
      n := 1;
      assert Run(s, acts[..1]) == s';
    } else {
      var k' := NextPlace(s, acts[0], k, t);
      var n' := BoundedWaiting(s', acts[1..], k', t);
      n := n' + 1;
      assert acts[..n][0] == acts[0] && acts[..n][1..] == acts[1..][..n'];
    }
  }

  /** One action moves a waiting thread forward, or leaves it where it is. */
  lemma NextPlace<T>(s: State<T>, a: Action<T>, k: nat, t: T) returns (k': nat)
    requires k < |s.queue| && s.queue[k] == t && a != Terminate(t) && !(a.Yield? && k == 0)
    ensures k' < |Step(s, a).queue| && Step(s, a).queue[k'] == t
    ensures k' <= if a.Yield? then k - 1 else k
  {
    match a
    case Yield => k' := k - 1;
    case Resume(u) => k' := k;
    case Add(u) => k' := k;
    case Terminate(u) =>
      var q := s.queue;
      k' := |L.Without(q[..k], u)|;
      assert q == q[..k] + q[k..] && q[k..] == [t] + q[k + 1..];
      L.WithoutAppend(q[..k], q[k..], u);
      L.WithoutAppend([t], q[k + 1..], u);
      assert L.Without([t], u) == [t] by { assert [t][..0] == []; }
      WithoutShorter(q[..k], u);
  }

  lemma {:induction false} WithoutShorter<T>(q: seq<T>, u: T)
    ensures |L.Without(q, u)| <= |q|
  {
    if q == [] {
    } else {
      WithoutShorter(q[..|q| - 1], u);
    }
  }

  /** After terminate(t), no yield dispatches t unless it is added or resumed again. */
  lemma {:induction false} NeverDispatched<T>(s: State<T>, acts: seq<Action<T>>, t: T)
    requires Add(t) !in acts && Resume(t) !in acts
    ensures var r := Run(Step(s, Terminate(t)), acts);
      t !in r.queue && (r.current == s.current || r.current != Some(t))
  {
    L.WithoutCounts(s.queue, t);
    assert t !in multiset(L.Without(s.queue, t));
    StaysAway(Step(s, Terminate(t)), acts, t);
  }

  lemma {:induction false} StaysAway<T>(s: State<T>, acts: seq<Action<T>>, t: T)
    requires t !in s.queue && Add(t) !in acts && Resume(t) !in acts
    ensures var r := Run(s, acts);
      t !in r.queue && (r.current == s.current || r.current != Some(t))
    decreases |acts|
  {
    if acts == [] {
    } else {
      assert acts[0] in acts && forall a :: a in acts[1..] ==> a in acts;
      if acts[0].Terminate? {
        L.WithoutCounts(s.queue, acts[0].t);
        assert t !in multiset(s.queue);
        assert t !in multiset(L.Without(s.queue, acts[0].t));
      }
      StaysAway(Step(s, acts[0]), acts[1..], t);
    }
  }

  /**
   A thread that ends itself, by terminate and yield, keeps the CPU exactly when no other thread is ready: the
   yield then returns to it.
   */
  lemma Shutdown<T>(s: State<T>, t: T)
    requires s.current == Some(t)
    ensures Run(s, [Terminate(t), Yield]).current == Some(t) <==> forall u :: u in s.queue ==> u == t
  {
    hide L.Without;
    var r := Step(s, Terminate(t));
    assert Run(s, [Terminate(t), Yield]) == Run(r, [Yield]) == Step(r, Yield) by {
      assert [Terminate(t), Yield][1..] == [Yield];
    }
    L.WithoutCounts(s.queue, t);
    assert forall u :: u in r.queue <==> u in multiset(r.queue);
    assert forall u :: u in s.queue <==> u in multiset(s.queue);
    if r.queue == [] {
      assert forall u :: u in s.queue && u != t ==> u in r.queue;
    } else {
      assert r.queue[0] in r.queue && r.queue[0] in s.queue && r.queue[0] != t;
    }
  }

  // ---------------------------------------------------------------------------------------------
  // Conservation over runs
  // ---------------------------------------------------------------------------------------------

  /** The current thread and the ready threads, counted. */
  function Threads<T>(s: State<T>): multiset<T> {
    (if s.current.Some? then multiset{s.current.value} else multiset{}) + multiset(s.queue)
  }

  /** What an action takes away: the thread that a yield displaces, or every entry that a termination removes. */
  function Leaving<T(==)>(s: State<T>, a: Action<T>): multiset<T> {
    match a
    case Yield => if s.queue != [] && s.current.Some? then multiset{s.current.value} else multiset{}
    case Terminate(t) => multiset{}[t := multiset(s.queue)[t]]
    case Resume(t) => multiset{}
    case Add(t) => multiset{}
  }

  function Entering<T>(a: Action<T>): multiset<T> {
    match a
    case Yield => multiset{}
    case Terminate(t) => multiset{}
    case Resume(t) => multiset{t}
    case Add(t) => multiset{t}
  }

  function Left<T(==)>(s: State<T>, acts: seq<Action<T>>): multiset<T>
    decreases |acts|
  {
    if acts == [] then multiset{} else Leaving(s, acts[0]) + Left(Step(s, acts[0]), acts[1..])
  }

  function Entered<T>(acts: seq<Action<T>>): multiset<T>
    decreases |acts|
  {
    if acts == [] then multiset{} else Entering(acts[0]) + Entered(acts[1..])
  }

  lemma YieldConserves<T>(s: State<T>)
    ensures Threads(YieldFrom(s)) + Leaving(s, Yield) == Threads(s)
  {
    if s.queue != [] {
      assert s.queue == [s.queue[0]] + s.queue[1..];
      assert multiset(s.queue) == multiset{s.queue[0]} + multiset(s.queue[1..]);
    }
  }

  lemma TakenOut<T>(m: multiset<T>, t: T)
    ensures m[t := 0] + multiset{}[t := m[t]] == m
  {}

  lemma TerminateConserves<T>(s: State<T>, t: T)
    ensures Threads(Step(s, Terminate(t))) + Leaving(s, Terminate(t)) == Threads(s)
  {
    L.WithoutCounts(s.queue, t);
    TakenOut(multiset(s.queue), t);
  }

  lemma EnqueueConserves<T>(s: State<T>, t: T)
    ensures Threads(s.(queue := s.queue + [t])) == Threads(s) + multiset{t}
  {
    assert multiset(s.queue + [t]) == multiset(s.queue) + multiset{t};
  }

  lemma StepConserves<T>(s: State<T>, a: Action<T>)
    ensures Threads(Step(s, a)) + Leaving(s, a) == Threads(s) + Entering(a)
  {
    hide Threads;
    match a
    case Yield => YieldConserves(s);
    case Terminate(t) => TerminateConserves(s, t);
    case Resume(t) => EnqueueConserves(s, t);
    case Add(t) => EnqueueConserves(s, t);
  }

  lemma Balance<T>(t0: multiset<T>, e: multiset<T>, t1: multiset<T>, l: multiset<T>,
      t2: multiset<T>, l': multiset<T>, e': multiset<T>)
    requires t1 + l == t0 + e && t2 + l' == t1 + e'
    ensures t2 + (l + l') == t0 + (e + e')
  {
    assert t2 + (l + l') == (t2 + l') + l;
    assert (t1 + e') + l == (t1 + l) + e';
  }

  /** In every run the threads at the end and those that left are the threads at the start and those that entered. */
  lemma {:induction false} RunConserves<T>(s: State<T>, acts: seq<Action<T>>)
    ensures Threads(Run(s, acts)) + Left(s, acts) == Threads(s) + Entered(acts)
    decreases |acts|
  {
    hide Threads, Leaving, Entering, Step;
    if acts == [] {
    } else {
      var s', rest := Step(s, acts[0]), acts[1..];
      StepConserves(s, acts[0]);
      RunConserves(s', rest);
      Balance(Threads(s), Entering(acts[0]), Threads(s'), Leaving(s, acts[0]),
        Threads(Run(s', rest)), Left(s', rest), Entered(rest));
    }
  }

  // ---------------------------------------------------------------------------------------------
  // No thread is queued twice
  // ---------------------------------------------------------------------------------------------

  ghost predicate Distinct<T>(r: seq<T>) {
    forall i, j :: 0 <= i < j < |r| ==> r[i] != r[j]
  }

  /** Handing on keeps every thread in the ring at most once. */
  lemma PassOnDistinct<T>(s: State<T>)
    requires s.current.Some? && Distinct(Ring(s))
    ensures Distinct(Ring(PassOn(s)))
  {
    PassOnRotates(s);
    var r := Ring(s);
    assert forall i :: 0 <= i < |r| ==> Rotated(r, 1)[i] == if i + 1 < |r| then r[i + 1] else r[0];
  }

  lemma AppendDistinct<T>(q: seq<T>, t: T)
    requires Distinct(q)
    ensures Distinct(q + [t]) <==> t !in q
  {
    if t in q {
      var i :| 0 <= i < |q| && q[i] == t;
      assert (q + [t])[i] == (q + [t])[|q|];
    }
  }

  lemma WithoutDistinct<T>(q: seq<T>, t: T)
    requires Distinct(q)
    ensures Distinct(L.Without(q, t))
  {
    var at := L.WithoutEmbeds(q, t);
  }

  /** So does adding a thread, exactly when it is not there yet. */
  lemma AddDistinct<T>(s: State<T>, t: T)
    requires s.current.Some? && Distinct(Ring(s))
    ensures Distinct(Ring(Step(s, Add(t)))) <==> t !in Ring(s)
  {
    assert Ring(Step(s, Add(t))) == Ring(s) + [t];
    AppendDistinct(Ring(s), t);
  }

  /** And so does terminating any thread. */
  lemma TerminateDistinct<T>(s: State<T>, t: T)
    requires s.current.Some? && Distinct(Ring(s))
    ensures Distinct(Ring(Step(s, Terminate(t))))
  {
    var at := L.WithoutEmbeds(s.queue, t);
    var r, r' := Ring(s), Ring(Step(s, Terminate(t)));
    forall i, j | 0 <= i < j < |r'|
      ensures r'[i] != r'[j]
    {
      assert r'[j] == r[at[j - 1] + 1];
      assert r'[i] == if i == 0 then r[0] else r[at[i - 1] + 1];
    }
  }

  /** An action that queues a thread finds it not queued. */
  predicate QueuesNew<T(==)>(s: State<T>, a: Action<T>) {
    a.Add? || a.Resume? ==> a.t !in s.queue
  }

  predicate QueuesOnlyNew<T(==)>(s: State<T>, acts: seq<Action<T>>)
    decreases |acts|
  {
    acts == [] || (QueuesNew(s, acts[0]) && QueuesOnlyNew(Step(s, acts[0]), acts[1..]))
  }

  /** No state of the run has a thread queued twice. */
  ghost predicate AlwaysDistinct<T>(s: State<T>, acts: seq<Action<T>>)
    decreases |acts|
  {
    Distinct(s.queue) && (acts == [] || AlwaysDistinct(Step(s, acts[0]), acts[1..]))
  }

  lemma StepDistinct<T>(s: State<T>, a: Action<T>)
    requires Distinct(s.queue)
    ensures Distinct(Step(s, a).queue) <==> QueuesNew(s, a)
  {
    match a
    case Yield =>
    case Terminate(t) => WithoutDistinct(s.queue, t);
    case Resume(t) => AppendDistinct(s.queue, t);
    case Add(t) => AppendDistinct(s.queue, t);
  }

  /** In every run no thread is ever queued twice exactly when each one is queued only while it is not. */
  lemma {:induction false} RunDistinct<T>(s: State<T>, acts: seq<Action<T>>)
    requires Distinct(s.queue)
    ensures AlwaysDistinct(s, acts) <==> QueuesOnlyNew(s, acts)
    decreases |acts|
  {
    if acts == [] {
    } else {
      StepDistinct(s, acts[0]);
      if QueuesNew(s, acts[0]) {
        RunDistinct(Step(s, acts[0]), acts[1..]);
      } else {
        assert !AlwaysDistinct(Step(s, acts[0]), acts[1..]);
      }
    }
  }
}
