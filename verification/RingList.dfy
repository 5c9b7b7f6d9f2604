/** edelib::list: a circular doubly linked list closed by a dummy node that is
    created with the first insertion. */
module RingList {
  import opened Wrappers
  import opened RingNodes
  import MergeSort
  import RingSort

  /** Release a node's memory: it must not have been released before. */
  method Delete<T>(n: Node<T>)
    requires !n.freed
    modifies n`freed
    ensures n.freed
  {
    ghost var gone := true;
    n.freed := gone;
  }

  /** The nodes of s are in use and hold the values vs, in order. */
  ghost predicate Holds<T>(s: seq<Node<T>>, vs: seq<T>)
    reads s`value, s`freed
  {
    && |s| == |vs|
    && (forall i {:trigger s[i].value} :: 0 <= i < |s| ==> s[i].value == Some(vs[i]))
    && (forall i {:trigger s[i].freed} :: 0 <= i < |s| ==> !s[i].freed)
  }

  ghost function Inserted<X>(s: seq<X>, k: nat, x: X): seq<X>
    requires k <= |s|
  {
    s[..k] + [x] + s[k..]
  }

  ghost function Removed<X>(s: seq<X>, k: nat): seq<X>
    requires k < |s|
  {
    s[..k] + s[k + 1..]
  }

  lemma InsertedAt<X>(s: seq<X>, k: nat, x: X, r: seq<X>)
    requires k <= |s| && r == Inserted(s, k, x)
    ensures |r| == |s| + 1
    ensures forall i {:trigger r[i]} :: 0 <= i < |r| ==> r[i] == if i < k then s[i] else if i == k then x else s[i - 1]
    ensures Distinct(s) && x !in s ==> Distinct(r)
  {
  }

  lemma InsertedKeeps<X>(s: seq<X>, k: nat, x: X)
    requires k <= |s|
    ensures forall m :: m in Inserted(s, k, x) <==> m == x || m in s
  {
    assert s == s[..k] + s[k..];
  }

  lemma RemovedKeeps<X>(s: seq<X>, k: nat)
    requires k < |s|
    ensures forall m :: m in s && m != s[k] ==> m in Removed(s, k)
    ensures forall m :: m in Removed(s, k) ==> m in s
  {
    assert s == s[..k] + [s[k]] + s[k + 1..];
  }

  lemma InsertedFront<X>(s: seq<X>, x: X)
    ensures Inserted(s, 0, x) == [x] + s
  {
  }

  lemma InsertedSnoc<X>(s: seq<X>, k: nat, x: X, last: X)
    requires k <= |s|
    ensures Inserted(s, k, x) + [last] == Inserted(s + [last], k, x)
    ensures s == [] ==> Inserted(s, k, x) == [x]
    ensures |Inserted(s, k, x)| == |s| + 1
  {
  }

  lemma HoldsLength<T>(s: seq<Node<T>>, vs: seq<T>)
    requires Holds(s, vs)
    ensures |s| == |vs|
  {
  }

  lemma HoldsInserted<T>(s: seq<Node<T>>, vs: seq<T>, k: nat, n: Node<T>, v: T)
    requires k <= |s| && Holds(s, vs) && n.value == Some(v) && !n.freed
    ensures Holds(Inserted(s, k, n), Inserted(vs, k, v))
  {
  }

  lemma HoldsRemoved<T>(s: seq<Node<T>>, vs: seq<T>, k: nat)
    requires k < |s| && Holds(s, vs)
    ensures |s| == |vs| && Holds(Removed(s, k), Removed(vs, k))
  {
  }

  lemma RemovedSnoc<X>(s: seq<X>, k: nat, last: X)
    requires k < |s|
    ensures Removed(s, k) + [last] == Removed(s + [last], k)
    ensures |Removed(s, k)| == |s| - 1
    ensures (s + [last])[k + 1] == (Removed(s, k) + [last])[k]
  {
  }

  lemma RingOfTwo<T>(n: Node<T>, t: Node<T>)
    requires n != t && n.next == n.prev == t && t.next == t.prev == n
    ensures Ring([n] + [t])
  {
  }

  lemma RemovedAt<X>(s: seq<X>, k: nat, r: seq<X>)
    requires k < |s| && r == Removed(s, k)
    ensures |r| == |s| - 1
    ensures forall i {:trigger r[i]} :: 0 <= i < |r| ==> r[i] == if i < k then s[i] else s[i + 1]
    ensures Distinct(s) ==> Distinct(r) && s[k] !in r
  {
  }

  ghost function Before(n: nat, k: nat): nat
    requires k < n
  {
    if k == 0 then n - 1 else k - 1
  }

  ghost function After(n: nat, k: nat): nat
    requires k < n
  {
    if k + 1 == n then 0 else k + 1
  }

  lemma RingGrows<T>(ring: seq<Node<T>>, k: nat, n: Node<T>, r: seq<Node<T>>)
    requires k < |ring| && |r| == |ring| + 1 && Distinct(r)
    requires forall i {:trigger r[i]} :: 0 <= i < |r| ==> r[i] == if i < k then ring[i] else if i == k then n else ring[i - 1]
    requires forall i {:trigger ring[i].next} :: 0 <= i < |ring| ==>
      ring[i].next == if i == Before(|ring|, k) then n else ring[After(|ring|, i)]
    requires forall i {:trigger ring[i].prev} :: 0 <= i < |ring| ==>
      ring[i].prev == if i == k then n else ring[Before(|ring|, i)]
    requires n.next == ring[k] && n.prev == ring[Before(|ring|, k)]
    ensures Ring(r)
  {
  }

  lemma RingLinks<T>(ring: seq<Node<T>>)
    requires Ring(ring)
    ensures forall i {:trigger ring[i].next} :: 0 <= i < |ring| ==> ring[i].next == ring[After(|ring|, i)]
    ensures forall i {:trigger ring[i].prev} :: 0 <= i < |ring| ==> ring[i].prev == ring[Before(|ring|, i)]
    ensures forall i :: 0 <= i < |ring| ==> ring[i] in ring
  {
  }

  /** Link n into the ring just before it. */
  method LinkBefore<T>(it: Node<T>, n: Node<T>, ghost ring: seq<Node<T>>, ghost k: nat)
    requires Ring(ring) && k < |ring| && ring[k] == it && n !in ring
    modifies ring`next, ring`prev, n`next, n`prev
    ensures Ring(Inserted(ring, k, n))
  {
    hide Inserted, Forward, Backward;
    RingLinks(ring);
    n.next := it;
    n.prev := it.prev;
    it.prev.next := n;
    it.prev := n;
    InsertedAt(ring, k, n, Inserted(ring, k, n));
    RingGrows(ring, k, n, Inserted(ring, k, n));
  }

  lemma RingShrinks<T>(ring: seq<Node<T>>, k: nat, r: seq<Node<T>>)
    requires k < |ring| && |r| == |ring| - 1 && r != [] && Distinct(r)
    requires forall i {:trigger r[i]} :: 0 <= i < |r| ==> r[i] == if i < k then ring[i] else ring[i + 1]
    requires forall i {:trigger ring[i].next} :: 0 <= i < |ring| && i != k ==>
      ring[i].next == ring[After(|ring|, if i == Before(|ring|, k) then k else i)]
    requires forall i {:trigger ring[i].prev} :: 0 <= i < |ring| && i != k ==>
      ring[i].prev == ring[Before(|ring|, if i == After(|ring|, k) then k else i)]
    ensures Ring(r)
  {
  }

  /** Unlink the node at it from its ring, which has at least one other node. */
  method Unlink<T>(it: Node<T>, ghost ring: seq<Node<T>>, ghost k: nat)
    requires Ring(ring) && |ring| > 1 && k < |ring| && ring[k] == it
    modifies ring`next, ring`prev
    ensures Ring(Removed(ring, k))
    ensures it.next == old(it.next)
  {
    hide Removed, Forward, Backward;
    RingLinks(ring);
    it.prev.next := it.next;
    it.next.prev := it.prev;
    RemovedAt(ring, k, Removed(ring, k));
    RingShrinks(ring, k, Removed(ring, k));
  }

  /** The node order that a comparison of values induces. */
  ghost function NodeOrder<T>(cmp: (T, T) -> bool, vals: map<Node<T>, T>): (Node<T>, Node<T>) -> bool {
    (x: Node<T>, y: Node<T>) => x in vals && y in vals && cmp(vals[x], vals[y])
  }

  ghost function ValueMap<T>(s: seq<Node<T>>): map<Node<T>, T>
    reads s`value
  {
    map n | n in s && n.value.Some? :: n.value.value
  }

  /** The outcome of a sort, on the values and on the nodes: the same node objects, and
      for a strict weak order no element less than an earlier one and every class of
      tied nodes reversed. */
  ghost predicate SortedInPlace<T>(cmp: (T, T) -> bool, vs0: seq<T>, vs: seq<T>,
                                   less: (Node<T>, Node<T>) -> bool, s0: seq<Node<T>>, s: seq<Node<T>>)
  {
    && multiset(s) == multiset(s0)
    && multiset(vs) == multiset(vs0)
    && (MergeSort.StrictWeakOrder(cmp, vs0) ==>
          && MergeSort.SortsReversingTies(cmp, vs0, vs)
          && MergeSort.SortsReversingTies(less, s0, s))
  }

  /** Sorting nodes by what they hold sorts what they hold. */
  lemma SortFacts<T>(cmp: (T, T) -> bool, s: seq<Node<T>>, vs: seq<T>)
    requires Holds(s, vs)
    ensures var less := NodeOrder(cmp, ValueMap(s));
      && RingSort.ComparesValues(cmp, less, s)
      && Holds(MergeSort.Sort(less, s), MergeSort.Sort(cmp, vs))
      && |s| == |vs| && |MergeSort.Sort(less, s)| == |s|
      && (|s| <= 1 ==> MergeSort.Sort(less, s) == s && MergeSort.Sort(cmp, vs) == vs)
      && (forall i :: 0 <= i < |s| ==> MergeSort.Sort(less, s)[i] in s)
      && SortedInPlace(cmp, vs, MergeSort.Sort(cmp, vs), less, s, MergeSort.Sort(less, s))
  {
    hide Holds, MergeSort.StrictWeakOrder, MergeSort.SortsReversingTies, MergeSort.Merge;
    var vals := ValueMap(s);
    var less := NodeOrder(cmp, vals);
    HoldsMap(s, vs);
    MergeSort.SortElements(less, s);
    MergeSort.SortElements(cmp, vs);
    MergeSort.SortWithin(less, s);
    MergeSort.SortImage(vals, less, cmp, s);
    ImageHolds(vals, MergeSort.Sort(less, s), s);
    if MergeSort.StrictWeakOrder(cmp, vs) {
      MergeSort.OrderThrough(vals, less, cmp, s);
      MergeSort.SortMeetsPromise(cmp, vs);
      MergeSort.SortMeetsPromise(less, s);
    }
  }

  lemma HoldsMap<T>(s: seq<Node<T>>, vs: seq<T>)
    requires Holds(s, vs)
    ensures forall n :: n in s ==> n in ValueMap(s) && n.value.Some? && !n.freed
    ensures MergeSort.Image(ValueMap(s), s) == vs
  {
    assert forall n :: n in s ==> exists i :: 0 <= i < |s| && s[i] == n;
  }

  lemma ImageHolds<T>(vals: map<Node<T>, T>, r: seq<Node<T>>, s: seq<Node<T>>)
    requires vals == ValueMap(s) && MergeSort.Within(r, s)
    requires forall n :: n in s ==> n in vals && n.value.Some? && !n.freed
    ensures Holds(r, MergeSort.Image(vals, r))
  {
  }

  /** Cut the ring open behind its last data node. */
  method Open<T>(tail: Node<T>, ghost s: seq<Node<T>>)
    requires Ring(s + [tail]) && s != []
    modifies s`next
    ensures tail.next == s[0] && tail !in s && Chain(s[0], s)
  {
    ghost var ring := s + [tail];
    assert forall i :: 0 <= i < |s| ==> ring[i] == s[i];
    assert ring[|s|].prev == s[|s| - 1] && ring[|s|] == tail;
    tail.prev.next := null;
  }

  /** Close a chain into a ring again: the dummy goes before its first node, and
      a walk to its last node finds where else it goes. */
  method Close<T>(nn: Node<T>, tail: Node<T>, ghost s: seq<Node<T>>)
    requires Chain(nn, s) && tail !in s
    modifies s`next, s`prev, tail`next, tail`prev
    ensures Ring(s + [tail])
  {
    tail.next := nn;
    nn.prev := tail;
    var p := nn;
    ghost var k := 0;
    while p.next != null
      invariant 0 <= k < |s| && p == s[k]
      decreases |s| - k
    {
      assert k < |s| - 1 && s[k].next == s[k + 1];
      p := p.next;
      k := k + 1;
    }
    p.next := tail;
    tail.prev := p;
  }

  /** Cut the ring, sort the chain, close it again. */
  method SortRing<T>(tail: Node<T>, cmp: (T, T) -> bool, ghost s: seq<Node<T>>, ghost less: (Node<T>, Node<T>) -> bool)
    requires Ring(s + [tail]) && s != [] && RingSort.ComparesValues(cmp, less, s)
    modifies s`next, s`prev, tail`next, tail`prev
    ensures Ring(MergeSort.Sort(less, s) + [tail])
  {
    hide Ring, MergeSort.Sort;
    ghost var r := MergeSort.Sort(less, s);
    MergeSort.SortWithin(less, s);
    assert forall i :: 0 <= i < |r| ==> r[i] in s;
    Open(tail, s);
    var nn := RingSort.MergeSortNodes(tail.next, cmp, s, less);
    Close(nn, tail, r);
  }

  class List<T> {
    var sz: nat
    var tail: Node?<T>
    ghost var Nodes: seq<Node<T>>  // the data nodes, first to last
    ghost var Contents: seq<T>     // what they hold

    /** The whole ring: the data nodes, then the dummy. */
    ghost function All(): (r: seq<Node<T>>)
      reads this
    {
      if tail == null then Nodes else Nodes + [tail]
    }

    ghost predicate Valid()
      reads this, Nodes, All()
    {
      && sz == |Nodes|
      && Holds(Nodes, Contents)
      && (tail == null ==> Nodes == [])
      && (tail != null ==> Ring(All()) && tail.value.None? && !tail.freed)
    }

    /** The position an iterator stands for; the end is |Nodes|. */
    ghost function At(it: Node?<T>): (k: nat)
      requires Valid() && (tail != null ==> it in All())
      reads this, Nodes, All()
      ensures k <= |Nodes|
      ensures tail != null ==> k < |All()| && All()[k] == it
    {
      if tail == null then 0
      else
        var k :| 0 <= k < |All()| && All()[k] == it;
        k
    }

    constructor ()
      ensures Valid() && Contents == [] && tail == null
    {
      sz, tail := 0, null;
      Nodes, Contents := [], [];
    }

    method Begin() returns (it: Node?<T>)
      requires Valid()
      ensures tail == null ==> it == null
      ensures tail != null ==> it in All() && At(it) == 0
    {
      it := if tail != null then tail.next else null;
    }

    method End() returns (it: Node?<T>)
      requires Valid()
      ensures tail == null ==> it == null
      ensures tail != null ==> it in All() && At(it) == |Nodes|
    {
      it := tail;
    }

    /** Insert v before the position of it; with no ring yet, it is not looked at. */
    method Insert(it: Node?<T>, v: T) returns (n: Node<T>)
      requires Valid() && (tail != null ==> it in All())
      modifies this, All()
      ensures Valid() && fresh(n)
      ensures if old(tail) == null then fresh(tail) else tail == old(tail)
      ensures Nodes == Inserted(old(Nodes), old(if tail == null then 0 else At(it)), n)
      ensures Contents == Inserted(old(Contents), old(if tail == null then 0 else At(it)), v)
      ensures forall m :: m in Nodes <==> m == n || m in old(Nodes)
      ensures forall m :: m in old(Nodes) ==> m.value == old(m.value)
    {
      hide Ring, Inserted, Holds;
      ghost var k := if tail == null then 0 else At(it);
      n := new Node<T>(Some(v));
      if tail == null {
        tail := new Node<T>(None);
        tail.next, tail.prev := n, n;
        n.next, n.prev := tail, tail;
        RingOfTwo(n, tail);
      } else {
        LinkBefore(it, n, All(), k);
      }
      HoldsLength(Nodes, Contents);
      InsertedSnoc<Node<T>>(Nodes, k, n, tail);
      HoldsInserted(Nodes, Contents, k, n, v);
      InsertedKeeps(Nodes, k, n);
      sz := sz + 1;
      Nodes := Inserted(Nodes, k, n);
      Contents := Inserted(Contents, k, v);
    }

    /** Remove the element at it; the result stands where it stood. */
    method Erase(it: Node<T>) returns (r: Node<T>)
      requires Valid() && it in Nodes
      modifies this, All()
      ensures Valid() && tail == old(tail) && tail != null
      ensures Nodes == Removed(old(Nodes), old(At(it)))
      ensures Contents == Removed(old(Contents), old(At(it)))
      ensures r in All() && At(r) == old(At(it))
      ensures it.freed && it !in All()
      ensures forall m :: m in Nodes <==> m != it && m in old(Nodes)
      ensures forall m :: m in old(Nodes) ==> m.value == old(m.value)
    {
      hide Ring, Removed, Holds;
      ghost var k, ring := At(it), All();
      ItsNode(it);
      Unlink(it, ring, k);
      r := it.next;
      sz := sz - 1;
      HoldsRemoved(Nodes, Contents, k);
      RemovedSnoc<Node<T>>(Nodes, k, tail);
      RemovedKeeps(Nodes, k);
      Nodes := Removed(Nodes, k);
      Contents := Removed(Contents, k);
      RemovedAt<Node<T>>(ring, k, Removed(ring, k));
      Delete(it);
      AtIs(r, k);
    }

    lemma AtIs(it: Node<T>, k: nat)
      requires Valid() && tail != null && k < |All()| && All()[k] == it
      ensures it in All() && At(it) == k
    {
    }

    lemma ItsNode(it: Node<T>)
      requires Valid() && it in Nodes
      ensures tail != null && Distinct(All())
      ensures it in All() && At(it) < |Nodes| && Nodes[At(it)] == it && !it.freed
      ensures it.next == All()[At(it) + 1]
    {
    }

    method PushBack(v: T)
      requires Valid()
      modifies this, All()
      ensures Valid() && Contents == old(Contents) + [v]
      ensures old(Nodes) <= Nodes
      ensures tail != null && (tail == old(tail) || fresh(tail))
      ensures forall m :: m in Nodes ==> m in old(Nodes) || fresh(m)
      ensures forall m :: m in old(Nodes) ==> m.value == old(m.value)
    {
      var it := End();
      var n := Insert(it, v);
      HoldsLength(Nodes, Contents);
    }

    method PushFront(v: T)
      requires Valid()
      modifies this, All()
      ensures Valid() && Contents == [v] + old(Contents)
      ensures Nodes != [] && Nodes[1..] == old(Nodes)
      ensures tail != null && (tail == old(tail) || fresh(tail))
      ensures forall m :: m in Nodes ==> m in old(Nodes) || fresh(m)
      ensures forall m :: m in old(Nodes) ==> m.value == old(m.value)
    {
      hide Ring, Holds, Inserted;
      var it := Begin();
      var n := Insert(it, v);
      InsertedFront<Node<T>>(old(Nodes), n);
      InsertedFront<T>(old(Contents), v);
    }

    /** ++it: one step along the ring. */
    method Next(it: Node<T>) returns (r: Node<T>)
      requires Valid() && tail != null && it in All()
      ensures r in All() && At(r) == After(|All()|, At(it))
      ensures r.prev == it
    {
      r := it.next;
      AtIs(r, After(|All()|, At(it)));
    }

    /** --it: one step back, so that the two directions mirror each other. */
    method Prev(it: Node<T>) returns (r: Node<T>)
      requires Valid() && tail != null && it in All()
      ensures r in All() && At(r) == Before(|All()|, At(it))
      ensures r.next == it
    {
      r := it.prev;
      AtIs(r, Before(|All()|, At(it)));
    }

    /** *it */
    method Get(it: Node<T>) returns (v: T)
      requires Valid() && it in Nodes
      ensures v == Contents[At(it)]
    {
      ItsNode(it);
      v := it.value.value;
    }

    /** *it = v */
    method Set(it: Node<T>, v: T)
      requires Valid() && it in Nodes
      modifies this`Contents, it`value
      ensures Valid() && Contents == old(Contents)[old(At(it)) := v]
    {
      ItsNode(it);
      ghost var k := At(it);
      assert forall i :: 0 <= i < |Nodes| ==> Nodes[i] == All()[i];
      Contents := Contents[k := v];
      it.value := Some(v);
    }

    method Size() returns (n: nat)
      requires Valid()
      ensures n == |Contents|
    {
      n := sz;
    }

    /** Free every data node once, then the dummy. */
    method Clear()
      requires Valid()
      modifies this, All()
      ensures Valid() && Contents == [] && tail == null
      ensures forall m :: m in old(All()) ==> m.freed
    {
      if tail == null {
        return;
      }
      ghost var ring, n := All(), |Nodes|;
      var p: Node<T> := tail.next;
      ghost var k := 0;
      while p != tail
        invariant 0 <= k <= n && p == ring[k] && tail == ring[n]
        invariant forall i {:trigger ring[i].next} :: 0 <= i < n ==> ring[i].next == ring[i + 1]
        invariant forall i {:trigger ring[i].freed} :: 0 <= i <= n ==> (ring[i].freed <==> i < k)
        decreases n - k
      {
        assert k < n && ring[k].next == ring[k + 1] && !ring[k].freed;
        var t: Node<T> := p.next;
        Delete(p);
        p := t;
        k := k + 1;
      }
      assert ring[n] == tail && !ring[n].freed;
      Delete(tail);
      assert forall i {:trigger ring[i]} :: 0 <= i <= n ==> ring[i].freed;
      sz, tail := 0, null;
      Nodes, Contents := [], [];
    }

    /** Elementwise comparison with the elements' own equality. */
    method Equals(other: List<T>, eq: (T, T) -> bool) returns (r: bool)
      requires Valid() && other.Valid()
      ensures r <==> |Contents| == |other.Contents| && forall i :: 0 <= i < |Contents| ==> eq(Contents[i], other.Contents[i])
    {
      if sz != other.sz {
        return false;
      }
      var it := Begin();
      var it2 := other.Begin();
      ghost var k := 0;
      while it != tail
        invariant k <= |Nodes|
        invariant it == if tail == null then null else All()[k]
        invariant it2 == if other.tail == null then null else other.All()[k]
        invariant forall i :: 0 <= i < k ==> eq(Contents[i], other.Contents[i])
        decreases |Nodes| - k
      {
        assert it == Nodes[k] && it2 == other.Nodes[k];
        if !eq(it.value.value, it2.value.value) {
          return false;
        }
        assert All()[k].next == All()[k + 1] && other.All()[k].next == other.All()[k + 1];
        it, it2 := it.next, it2.next;
        k := k + 1;
      }
      return true;
    }

    /** The nodes are relinked in the order of cmp; no value moves. For a strict weak
        order that leaves no element less than an earlier one and reverses every
        class of tied nodes. */
    method Sort(cmp: (T, T) -> bool)
      requires Valid()
      modifies this`Nodes, this`Contents, All()`next, All()`prev
      ensures Valid()
      ensures Contents == MergeSort.Sort(cmp, old(Contents))
      ensures Nodes == MergeSort.Sort(NodeOrder(cmp, old(ValueMap(Nodes))), old(Nodes))
      ensures SortedInPlace(cmp, old(Contents), Contents, NodeOrder(cmp, old(ValueMap(Nodes))), old(Nodes), Nodes)
    {
      hide Ring, Holds, NodeOrder, ValueMap, SortedInPlace, MergeSort.Sort;
      ghost var s, vs, less := Nodes, Contents, NodeOrder(cmp, ValueMap(Nodes));
      SortFacts(cmp, s, vs);
      if sz <= 1 {
        return;
      }
      ghost var r := MergeSort.Sort(less, s);
      assert All() == s + [tail] && tail in s + [tail];
      assert forall i :: 0 <= i < |s| ==> s[i] in s + [tail];
      SortRing(tail, cmp, s, less);
      Nodes, Contents := r, MergeSort.Sort(cmp, vs);
    }
  }
}
