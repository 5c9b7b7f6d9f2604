/** The nodes of edelib::list and the shapes they are linked into. */
module RingNodes {
  import opened Wrappers

  /** A list node. The dummy node carries no value. */
  class Node<T> {
    var value: Option<T>
    var next: Node?<T>
    var prev: Node?<T>
    ghost var freed: bool

    constructor (value: Option<T>)
      ensures this.value == value && next == null && prev == null && !freed
    {
      this.value := value;
      next, prev, freed := null, null, false;
    }
  }

  ghost predicate Disjoint<X>(s: seq<X>, t: seq<X>) {
    forall x :: x in s ==> x !in t
  }

  lemma DistinctJoin<X>(s: seq<X>, t: seq<X>)
    requires Distinct(s) && Distinct(t) && Disjoint(s, t)
    ensures Distinct(s + t)
  {
    forall i, j | 0 <= i < j < |s + t|
      ensures (s + t)[i] != (s + t)[j]
    {
      if i < |s| <= j {
        assert s[i] in s && t[j - |s|] in t;
      }
    }
  }

  ghost predicate Forward<T>(s: seq<Node<T>>)
    reads s
  {
    forall i {:trigger s[i].next} :: 0 <= i < |s| - 1 ==> s[i].next == s[i + 1]
  }

  ghost predicate Backward<T>(s: seq<Node<T>>)
    reads s
  {
    forall i {:trigger s[i].prev} :: 1 <= i < |s| ==> s[i].prev == s[i - 1]
  }

  /** A null-terminated chain, as mergesort handles it. Nothing is said of the
      first node's prev, which the sort repairs last. */
  ghost predicate Chain<T>(h: Node?<T>, s: seq<Node<T>>)
    reads s
  {
    if s == [] then h == null
    else h == s[0] && Distinct(s) && Forward(s) && Backward(s) && s[|s| - 1].next == null
  }

  /** A closed ring: next and prev are mutually inverse. */
  ghost predicate Ring<T>(s: seq<Node<T>>)
    reads s
  {
    && s != []
    && Distinct(s) && Forward(s) && Backward(s)
    && s[|s| - 1].next == s[0]
    && s[0].prev == s[|s| - 1]
  }
}
