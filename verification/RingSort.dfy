/** merge_nodes and mergesort of edelib::list, relinking nodes in place. */
module RingSort {
  import opened Wrappers
  import opened RingNodes
  import opened MergeSort

  /** less is the caller's comparison seen on nodes. */
  ghost predicate ComparesValues<T>(cmp: (T, T) -> bool, less: (Node<T>, Node<T>) -> bool, s: seq<Node<T>>)
    reads s`value
  {
    && (forall x :: x in s ==> x.value.Some?)
    && (forall x, y :: x in s && y in s ==> less(x, y) == cmp(x.value.value, y.value.value))
  }

  /** The chain merge_nodes has linked so far, hanging off its stack node head;
      c is its last node, cprev that node again, or null before the first step. */
  ghost predicate Built<T>(head: Node<T>, done: seq<Node<T>>, c: Node<T>, cprev: Node?<T>)
    reads head, done
  {
    && Distinct(done) && Forward(done) && Backward(done)
    && head !in done
    && (if done == [] then c == head && cprev == null
        else c == cprev == done[|done| - 1] && head.next == done[0])
  }

  lemma ChainTail<T>(h: Node<T>, s: seq<Node<T>>)
    requires Chain(h, s)
    ensures s != [] && s[0] == h && Chain(h.next, s[1..]) && h !in s[1..]
  {
  }

  /** One link of the merge: n follows c. */
  method Attach<T>(c: Node<T>, n: Node<T>, cprev: Node?<T>, ghost head: Node<T>, ghost done: seq<Node<T>>)
    requires Built(head, done, c, cprev)
    requires n !in done && n != head
    modifies c`next, n`prev
    ensures Built(head, done + [n], n, n)
  {
    c.next := n;
    n.prev := cprev;
  }

  /** The merge's last act: the chain that is left follows c. */
  method AttachRest<T>(c: Node<T>, rest: Node<T>, ghost cprev: Node?<T>,
                       ghost head: Node<T>, ghost done: seq<Node<T>>, ghost rs: seq<Node<T>>)
    requires done != [] && Built(head, done, c, cprev)
    requires Chain(rest, rs)
    requires Disjoint(done, rs) && head !in rs
    modifies c`next, rest`prev
    ensures Chain(head.next, done + rs)
  {
    assert c in done && c !in rs && rest in rs && rest !in done;
    c.next := rest;
    c.next.prev := c;
    ghost var all := done + rs;
    DistinctJoin(done, rs);
    assert rs[|rs| - 1] in rs;
    assert Forward(all) by {
      forall i | 0 <= i < |all| - 1
        ensures all[i].next == all[i + 1]
      {
        if i >= |done| {
          assert all[i] == rs[i - |done|];
        } else {
          assert all[i] == done[i];
        }
      }
    }
    assert Backward(all) by {
      forall i | 1 <= i < |all|
        ensures all[i].prev == all[i - 1]
      {
        if i > |done| {
          assert all[i] == rs[i - |done|];
        } else if i < |done| {
          assert all[i] == done[i] && done[i] in done;
        }
      }
    }
  }

  /** The chains still to be merged and the chain built so far share no node. */
  ghost predicate Merging<T>(head: Node<T>, a: Node?<T>, b: Node?<T>, c: Node<T>, cprev: Node?<T>,
                             ra: seq<Node<T>>, rb: seq<Node<T>>, done: seq<Node<T>>)
    reads head, ra, rb, done
  {
    && Chain(a, ra) && Chain(b, rb)
    && Built(head, done, c, cprev)
    && Disjoint(ra, rb) && Disjoint(done, ra) && Disjoint(done, rb)
    && head !in ra && head !in rb
  }

  /** One round of the loop when the next node n comes from the chain a. */
  method Take<T>(a: Node<T>, ghost b: Node?<T>, c: Node<T>, cprev: Node?<T>,
                 ghost head: Node<T>, ghost ra: seq<Node<T>>, ghost rb: seq<Node<T>>, ghost done: seq<Node<T>>)
    returns (a': Node?<T>)
    requires Merging(head, a, b, c, cprev, ra, rb, done)
    modifies c`next, a`prev
    ensures ra != [] && Merging(head, a', b, a, a, ra[1..], rb, done + [a])
  {
    ChainTail(a, ra);
    assert c == head || c in done;
    assert a in ra && c !in ra && c !in rb && a !in rb;
    a' := a.next;
    Attach(c, a, cprev, head, done);
  }

  lemma MergingStart<T>(head: Node<T>, a: Node<T>, b: Node<T>, ra: seq<Node<T>>, rb: seq<Node<T>>)
    requires Chain(a, ra) && Chain(b, rb) && Disjoint(ra, rb) && head !in ra && head !in rb
    ensures Merging(head, a, b, head, null, ra, rb, [])
  {
  }

  lemma MergingSwap<T>(head: Node<T>, a: Node?<T>, b: Node?<T>, c: Node<T>, cprev: Node?<T>,
                       ra: seq<Node<T>>, rb: seq<Node<T>>, done: seq<Node<T>>)
    requires Merging(head, a, b, c, cprev, ra, rb, done)
    ensures Merging(head, b, a, c, cprev, rb, ra, done)
  {
  }

  /** The loop body of merge_nodes: the smaller front node, or b's on a tie, is linked next. */
  method MergeStep<T>(a: Node<T>, b: Node<T>, c: Node<T>, cprev: Node?<T>, cmp: (T, T) -> bool,
                      ghost head: Node<T>, ghost ra: seq<Node<T>>, ghost rb: seq<Node<T>>, ghost done: seq<Node<T>>,
                      ghost less: (Node<T>, Node<T>) -> bool)
    returns (a': Node?<T>, b': Node?<T>, n: Node<T>, ghost ra': seq<Node<T>>, ghost rb': seq<Node<T>>)
    requires Merging(head, a, b, c, cprev, ra, rb, done)
    requires ComparesValues(cmp, less, ra + rb)
    modifies c`next, a`prev, b`prev
    ensures Merging(head, a', b', n, n, ra', rb', done + [n])
    ensures n in ra || n in rb
    ensures (ra' == ra && rb != [] && rb' == rb[1..]) || (rb' == rb && ra != [] && ra' == ra[1..])
    ensures (done + [n]) + Merge(less, ra', rb') == done + Merge(less, ra, rb)
  {
    assert a == (ra + rb)[0] && b == (ra + rb)[|ra|];
    assert a in ra + rb && b in ra + rb;
    MergeTakes(less, done, ra, rb);
    a', b', ra', rb' := a, b, ra, rb;
    if cmp(a.value.value, b.value.value) {
      n := a;
      a' := Take(a, b, c, cprev, head, ra, rb, done);
      ra' := ra[1..];
    } else {
      n := b;
      MergingSwap(head, a, b, c, cprev, ra, rb, done);
      b' := Take(b, a, c, cprev, head, rb, ra, done);
      rb' := rb[1..];
      MergingSwap(head, b', a, n, n, rb', ra, done + [n]);
    }
  }

  method MergeNodes<T>(a0: Node<T>, b0: Node<T>, cmp: (T, T) -> bool,
                       ghost as0: seq<Node<T>>, ghost bs0: seq<Node<T>>,
                       ghost less: (Node<T>, Node<T>) -> bool)
    returns (h: Node<T>)
    requires Chain(a0, as0) && Chain(b0, bs0) && Disjoint(as0, bs0)
    requires ComparesValues(cmp, less, as0 + bs0)
    modifies as0`next, as0`prev, bs0`next, bs0`prev
    ensures Chain(h, Merge(less, as0, bs0))
  {
    hide Forward, Backward, Distinct, ComparesValues, Merge;
    var a: Node?<T>, b: Node?<T> := a0, b0;
    var head := new Node<T>(None);
    MergingStart(head, a, b, as0, bs0);
    var c: Node<T>, cprev: Node?<T> := head, null;
    ghost var ra, rb := as0, bs0;
    ghost var done: seq<Node<T>> := [];
    while a != null && b != null
      invariant Merging(head, a, b, c, cprev, ra, rb, done)
      invariant Within(ra, as0) && Within(rb, bs0)
      invariant c == head || c in as0 || c in bs0
      invariant ra != [] || rb != []
      invariant done == [] ==> ra != [] && rb != []
      invariant done + Merge(less, ra, rb) == Merge(less, as0, bs0)
      decreases |ra| + |rb|
    {
      assert a == ra[0] && b == rb[0] && a in as0 && b in bs0;
      ComparesFewer(cmp, less, as0 + bs0, ra + rb);
      a, b, c, ra, rb := MergeStep(a, b, c, cprev, cmp, head, ra, rb, done, less);
      cprev := c;
      done := done + [c];
    }
    ghost var rs := if a == null then rb else ra;
    MergeRest(less, ra, rb);
    assert done + rs == Merge(less, as0, bs0);
    var rest: Node<T> := if a == null then b else a;
    assert rest == rs[0] && rest in rs;
    AttachRest(c, rest, cprev, head, done, rs);
    h := head.next;
  }

  lemma ComparesFewer<T>(cmp: (T, T) -> bool, less: (Node<T>, Node<T>) -> bool, s: seq<Node<T>>, t: seq<Node<T>>)
    requires ComparesValues(cmp, less, s) && Within(t, s)
    ensures ComparesValues(cmp, less, t)
  {
  }

  // ---- mergesort

  lemma ChainPart<T>(h: Node<T>, s: seq<Node<T>>, k: nat)
    requires Chain(h, s) && k < |s|
    ensures Chain(s[k], s[k..])
  {
  }

  /** Cutting a chain before node k leaves two chains. */
  method Cut<T>(c: Node<T>, ghost h: Node<T>, ghost s: seq<Node<T>>, ghost k: nat)
    returns (b: Node<T>)
    requires Chain(h, s) && 0 < k < |s| && c == s[k - 1]
    modifies c`next
    ensures Chain(h, s[..k]) && Chain(b, s[k..]) && Disjoint(s[..k], s[k..])
  {
    ChainPart(h, s, k);
    assert c !in s[k..] && s[k - 1].next == s[k];
    b := c.next;
    c.next := null;
  }

  /** The two-speed walk that finds the last node of the first half. */
  method FindHalf<T>(h: Node<T>, ghost s: seq<Node<T>>) returns (c: Node<T>)
    requires Chain(h, s) && |s| > 1
    ensures c == s[Half(|s|) - 1]
  {
    c := h;
    var b: Node?<T> := h.next;
    ghost var k := 0;
    while b != null && b.next != null
      invariant 0 <= k && 2 * k + 1 <= |s| && c == s[k]
      invariant b == if 2 * k + 1 < |s| then s[2 * k + 1] else null
      decreases |s| - k
    {
      assert b == s[2 * k + 1] && s[k].next == s[k + 1];
      assert 2 * k + 2 < |s| && b.next == s[2 * k + 2];
      c := c.next;
      b := b.next.next;
      k := k + 1;
    }
  }

  lemma ComparesPart<T>(cmp: (T, T) -> bool, less: (Node<T>, Node<T>) -> bool, s: seq<Node<T>>, k: nat)
    requires ComparesValues(cmp, less, s) && k <= |s|
    ensures ComparesValues(cmp, less, s[..k]) && ComparesValues(cmp, less, s[k..])
    ensures Within(s[..k], s) && Within(s[k..], s)
  {
  }

  method MergeSortNodes<T>(c0: Node<T>, cmp: (T, T) -> bool,
                           ghost s: seq<Node<T>>, ghost less: (Node<T>, Node<T>) -> bool)
    returns (h: Node<T>)
    requires Chain(c0, s) && ComparesValues(cmp, less, s)
    modifies s`next, s`prev
    ensures Chain(h, Sort(less, s))
    decreases |s|, 0
  {
    hide Forward, Backward, Distinct, ComparesValues, Merge;
    if c0.next == null {
      ChainEnd(c0, s);
      return c0;
    }
    ChainEnd(c0, s);
    var c := FindHalf(c0, s);
    ghost var lo, hi := s[..Half(|s|)], s[Half(|s|)..];
    ghost var sa, sb := Sort(less, lo), Sort(less, hi);
    ComparesPart(cmp, less, s, Half(|s|));
    assert c in s;
    var b := Cut(c, c0, s, Half(|s|));
    SortedParts(less, s, lo, hi);
    var a := SortHalf(c0, b, cmp, lo, hi, less);
    b := SortHalf(b, a, cmp, hi, sa, less);
    ComparesFewer(cmp, less, s, sa + sb);
    h := MergeNodes(a, b, cmp, sa, sb, less);
  }

  /** Sorting one chain leaves a disjoint one alone. */
  method SortHalf<T>(c0: Node<T>, ghost other: Node<T>, cmp: (T, T) -> bool,
                     ghost s: seq<Node<T>>, ghost rest: seq<Node<T>>, ghost less: (Node<T>, Node<T>) -> bool)
    returns (h: Node<T>)
    requires Chain(c0, s) && ComparesValues(cmp, less, s)
    requires Chain(other, rest) && Disjoint(rest, s)
    modifies s`next, s`prev
    ensures Chain(h, Sort(less, s)) && Chain(other, rest)
    decreases |s|, 1
  {
    h := MergeSortNodes(c0, cmp, s, less);
    assert forall x :: x in rest ==> x.next == old(x.next) && x.prev == old(x.prev);
  }

  lemma SortedParts<T>(less: (Node<T>, Node<T>) -> bool, s: seq<Node<T>>, lo: seq<Node<T>>, hi: seq<Node<T>>)
    requires Within(lo, s) && Within(hi, s) && Disjoint(lo, hi)
    ensures Within(Sort(less, lo), s) && Within(Sort(less, hi), s) && Within(Sort(less, lo) + Sort(less, hi), s)
    ensures forall i :: 0 <= i < |Sort(less, lo)| ==> Sort(less, lo)[i] in s
    ensures forall i :: 0 <= i < |Sort(less, hi)| ==> Sort(less, hi)[i] in s
    ensures Disjoint(Sort(less, lo), Sort(less, hi)) && Disjoint(hi, lo) && Disjoint(Sort(less, lo), hi)
  {
    SortWithin(less, lo);
    SortWithin(less, hi);
  }

  lemma ChainEnd<T>(h: Node<T>, s: seq<Node<T>>)
    requires Chain(h, s)
    ensures h.next == null <==> |s| == 1
  {
  }
}
