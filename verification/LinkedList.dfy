/** The doubly linked list of the ready queue. */
module LinkedList {
  import opened Kernel

  /** The elements of s other than v, in order. */
  function Without<T(==)>(s: seq<T>, v: T): seq<T> {
    if s == [] then []
    else Without(s[..|s| - 1], v) + if s[|s| - 1] == v then [] else [s[|s| - 1]]
  }

  /** s embeds into t in order: the positions in t of the elements of s. */
  ghost predicate Embeds<T>(s: seq<T>, t: seq<T>, at: seq<nat>) {
    && |at| == |s|
    && (forall i :: 0 <= i < |s| ==> at[i] < |t| && t[at[i]] == s[i])
    && (forall i, j :: 0 <= i < j < |s| ==> at[i] < at[j])
  }

  lemma CountsWithout<T>(s: seq<T>, x: T, v: T, w: seq<T>)
    requires multiset(w) == multiset(s)[v := 0]
    ensures multiset(w + if x == v then [] else [x]) == multiset(s + [x])[v := 0]
  {
    assert multiset(s + [x]) == multiset(s) + multiset{x};
    assert multiset(w + [x]) == multiset(w) + multiset{x};
    assert w + [] == w;
  }

  /** Every other element is still there as often as before. */
  lemma {:induction false} WithoutCounts<T>(s: seq<T>, v: T)
    ensures multiset(Without(s, v)) == multiset(s)[v := 0]
  {
    if s == [] {
    } else {
      var last := |s| - 1;
      WithoutCounts(s[..last], v);
      CountsWithout(s[..last], s[last], v, Without(s[..last], v));
      assert s == s[..last] + [s[last]];
    }
  }

  lemma EmbedsMore<T>(s: seq<T>, t: seq<T>, at: seq<nat>, x: T)
    requires Embeds(s, t, at)
    ensures Embeds(s, t + [x], at) && Embeds(s + [x], t + [x], at + [|t|])
  {}

  /** What is left is a subsequence: nothing changes places. */
  lemma {:induction false} WithoutEmbeds<T>(s: seq<T>, v: T) returns (at: seq<nat>)
    ensures Embeds(Without(s, v), s, at)
  {
    hide Embeds;
    if s == [] {
      at := EmbedsNothing(s);
    } else {
      var last: nat := |s| - 1;
      var r := WithoutEmbeds(s[..last], v);
      EmbedsMore(Without(s[..last], v), s[..last], r, s[last]);
      assert s[..last] + [s[last]] == s && Without(s[..last], v) + [] == Without(s[..last], v);
      at := if s[last] == v then r else r + [last];
    }
  }

  lemma EmbedsNothing<T>(t: seq<T>) returns (at: seq<nat>)
    ensures Embeds([], t, at)
  {
    at := [];
  }

  lemma {:induction false} WithoutAppend<T>(s: seq<T>, t: seq<T>, v: T)
    ensures Without(s + t, v) == Without(s, v) + Without(t, v)
  {
    if t == [] {
      assert s + t == s;
    } else {
      WithoutAppend(s, t[..|t| - 1], v);
      assert (s + t)[..|s + t| - 1] == s + t[..|t| - 1];
    }
  }

  /** Taking out one v does not change what is left without v. */
  lemma WithoutOne<T>(s: seq<T>, k: nat, v: T)
    requires k < |s| && s[k] == v
    ensures Without(s[..k] + s[k + 1..], v) == Without(s, v)
  {
    WithoutLast(s[..k + 1], v);
    assert s[..k + 1][..k] == s[..k];
    WithoutAppend(s[..k], s[k + 1..], v);
    WithoutAppend(s[..k + 1], s[k + 1..], v);
    assert s == s[..k + 1] + s[k + 1..];
  }

  lemma WithoutLast<T>(s: seq<T>, v: T)
    requires s != [] && s[|s| - 1] == v
    ensures Without(s, v) == Without(s[..|s| - 1], v)
  {}

  lemma {:induction false} WithoutNothing<T>(s: seq<T>, v: T)
    requires forall i :: 0 <= i < |s| ==> s[i] != v
    ensures Without(s, v) == s
  {
    if s == [] {
    } else {
      WithoutNothing(s[..|s| - 1], v);
    }
  }

  class Node<T> {
    var prev: Node?<T>
    var next: Node?<T>
    const data: T

    constructor (d: T)
      ensures data == d && prev == null && next == null
    {
      data := d;
      prev := null;
      next := null;
    }
  }

  class LinkedList<T(==)> {
    var len: nat
    var head: Node?<T>
    var tail: Node?<T>
    ghost var nodes: seq<Node<T>>
    ghost var repr: set<Node<T>>

    /** The nodes are distinct, linked to their neighbours in both directions, and the ends are marked by null. */
    ghost predicate Valid()
      reads this, repr
    {
      && (forall i :: 0 <= i < |nodes| ==> nodes[i] in repr)
      && len == |nodes|
      && (nodes == [] ==> head == null && tail == null)
      && (nodes != [] ==>
        && head == nodes[0] && nodes[0].prev == null
        && tail == nodes[|nodes| - 1] && nodes[|nodes| - 1].next == null)
      && (forall i {:trigger nodes[i].prev} :: 1 <= i < |nodes| ==> nodes[i].prev == nodes[i - 1])
      && (forall i {:trigger nodes[i].next} :: 0 <= i < |nodes| - 1 ==> nodes[i].next == nodes[i + 1])
      && (forall i, j :: 0 <= i < j < |nodes| ==> nodes[i] != nodes[j])
    }

    /** The elements, front first. */
    ghost function Contents(): (s: seq<T>)
      reads this
      ensures |s| == |nodes| && forall i :: 0 <= i < |s| ==> s[i] == nodes[i].data
    {
      seq(|nodes|, i requires 0 <= i < |nodes| reads this => nodes[i].data)
    }

    constructor ()
      ensures Valid() && repr == {} && Contents() == []
    {
      len := 0;
      head := null;
      tail := null;
      nodes := [];
      repr := {};
    }

    method PushBack(data: T)
      requires Valid()
      modifies this, repr
      ensures Valid() && fresh(repr - old(repr))
      ensures Contents() == old(Contents()) + [data]
    {
      var node := new Node(data);
      if len == 0 {
        head := node;
        tail := node;
      } else {
        node.prev := tail;
        tail.next := node;
        tail := node;
      }
      len := len + 1;
      nodes := nodes + [node];
      repr := repr + {node};
    }

    method PushFront(data: T)
      requires Valid()
      modifies this, repr
      ensures Valid() && fresh(repr - old(repr))
      ensures Contents() == [data] + old(Contents())
    {
      var node := new Node(data);
      if len == 0 {
        head := node;
        tail := node;
      } else {
        node.next := head;
        head.prev := node;
        head := node;
      }
      len := len + 1;
      nodes := [node] + nodes;
      repr := repr + {node};
    }

    method PopFront()
      requires Valid()
      modifies this, repr
      ensures Valid() && repr == old(repr)
      ensures Contents() == if old(Contents()) == [] then [] else old(Contents())[1..]
    {
      if len != 0 {
        if len == 1 {
          head := null;
          tail := null;
        } else {
          head := head.next;
          head.prev := null;
        }
        len := len - 1;
        nodes := nodes[1..];
      }
    }

    /** The source returns NULL for an empty list. */
    method Front() returns (r: Option<T>)
      requires Valid()
      ensures r == if Contents() == [] then None else Some(Contents()[0])
    {
      if head != null {
        return Some(head.data);
      }
      return None;
    }

    method Back() returns (r: Option<T>)
      requires Valid()
      ensures r == if Contents() == [] then None else Some(Contents()[|Contents()| - 1])
    {
      if tail != null {
        return Some(tail.data);
      }
      return None;
    }

    /** Unlinks the node at position k, whatever its place in the list. */
    method RemoveNode(node: Node<T>, ghost k: nat)
      requires Valid() && k < |nodes| && nodes[k] == node
      modifies this, repr
      ensures Valid() && nodes == old(nodes)[..k] + old(nodes)[k + 1..]
      ensures repr == old(repr)
      ensures Contents() == old(Contents())[..k] + old(Contents())[k + 1..]
    {
      hide Contents;
      if node == head && node == tail {
        head := null;
        tail := null;
      } else if node == head {
        head := head.next;
        head.prev := null;
      } else if node == tail {
        tail := tail.prev;
        tail.next := null;
      } else {
        node.prev.next := node.next;
        node.next.prev := node.prev;
      }
      len := len - 1;
      ghost var before := nodes;
      nodes := nodes[..k] + nodes[k + 1..];
      assert forall i {:trigger nodes[i]} :: 0 <= i < k ==> nodes[i] == before[i];
      assert forall i {:trigger nodes[i]} :: k <= i < |nodes| ==> nodes[i] == before[i + 1];
    }

    /** Removes every node that holds v, unlinking nodes while it walks over them. */
    method RemoveValue(v: T)
      requires Valid()
      modifies this, repr
      ensures Valid() && repr == old(repr)
      ensures Contents() == Without(old(Contents()), v)
    {
      var cur := head;
      ghost var k := 0;
      while cur != null
        invariant Valid() && repr == old(repr)
        invariant IsCursor(cur, k)
        invariant Without(Contents(), v) == old(Without(Contents(), v))
        invariant forall i :: 0 <= i < k ==> Contents()[i] != v
        decreases |nodes| - k
      {
        cur, k := Visit(cur, k, v);
      }
      WithoutNothing(Contents(), v);
    }

    /** The cursor stands at position k, or past the end. */
    ghost predicate IsCursor(cur: Node?<T>, k: nat)
      reads this
    {
      k <= |nodes| && cur == if k == |nodes| then null else nodes[k]
    }

    /** One turn of the walk: the cursor moves on before its node is unlinked. */
    method Visit(cur: Node<T>, ghost k: nat, v: T) returns (next: Node?<T>, ghost k': nat)
      requires Valid() && IsCursor(cur, k)
      modifies this, repr
      ensures Valid() && IsCursor(next, k') && repr == old(repr)
      ensures Without(Contents(), v) == old(Without(Contents(), v)) && |nodes| - k' == old(|nodes|) - k - 1
      ensures k <= k' <= k + 1 && (forall i :: 0 <= i < k ==> Contents()[i] == old(Contents())[i])
      ensures k' == k + 1 ==> Contents()[k] != v
    {
      next := cur.next;
      if cur.data == v {
        k' := k;
        WithoutOne(Contents(), k, v);
        RemoveNode(cur, k);
      } else {
        k' := k + 1;
      }
    }
  }
}
