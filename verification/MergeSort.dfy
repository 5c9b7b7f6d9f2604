/** The order theory of list::sort, on sequences: what merging and sorting mean,
    independently of the nodes that carry the elements. */
module MergeSort {

  /** A comparison that list::sort accepts: a strict weak order on the elements at hand. */
  ghost predicate StrictWeakOrder<X>(less: (X, X) -> bool, dom: seq<X>) {
    && (forall x :: x in dom ==> !less(x, x))
    && (forall x, y, z :: x in dom && y in dom && z in dom && less(x, y) && less(y, z) ==> less(x, z))
    && (forall x, y, z :: x in dom && y in dom && z in dom && less(x, z) ==> less(x, y) || less(y, z))
  }

  ghost predicate Within<X>(s: seq<X>, dom: seq<X>) {
    forall x :: x in s ==> x in dom
  }

  predicate Tied<X>(less: (X, X) -> bool, x: X, y: X) {
    !less(x, y) && !less(y, x)
  }

  /** No later element is less than an earlier one. */
  ghost predicate Sorted<X>(less: (X, X) -> bool, s: seq<X>) {
    forall i, j :: 0 <= i < j < |s| ==> !less(s[j], s[i])
  }

  /** The elements of s that tie with x, in the order in which s has them. */
  function Ties<X>(less: (X, X) -> bool, x: X, s: seq<X>): seq<X> {
    if s == [] then []
    else if Tied(less, x, s[0]) then [s[0]] + Ties(less, x, s[1..])
    else Ties(less, x, s[1..])
  }

  function Reversed<X>(s: seq<X>): seq<X> {
    if s == [] then [] else Reversed(s[1..]) + [s[0]]
  }

  /** The order in which merge_nodes links two chains: a tie takes from b. */
  function Merge<X>(less: (X, X) -> bool, a: seq<X>, b: seq<X>): seq<X> {
    if a == [] then b
    else if b == [] then a
    else if less(a[0], b[0]) then [a[0]] + Merge(less, a[1..], b)
    else [b[0]] + Merge(less, a, b[1..])
  }

  /** One element taken: what is merged so far and what is left still make up the whole. */
  lemma MergeTakes<X>(less: (X, X) -> bool, done: seq<X>, a: seq<X>, b: seq<X>)
    requires a != [] && b != []
    ensures done + Merge(less, a, b)
         == if less(a[0], b[0]) then (done + [a[0]]) + Merge(less, a[1..], b)
            else (done + [b[0]]) + Merge(less, a, b[1..])
  {
  }

  lemma MergeRest<X>(less: (X, X) -> bool, a: seq<X>, b: seq<X>)
    ensures a == [] ==> Merge(less, a, b) == b
    ensures b == [] ==> Merge(less, a, b) == a
  {
  }

  /** The length of the first half that mergesort cuts off. */
  function Half(n: nat): nat {
    (n + 1) / 2
  }

  function Sort<X>(less: (X, X) -> bool, s: seq<X>): seq<X>
    decreases |s|
  {
    if |s| <= 1 then s
    else Merge(less, Sort(less, s[..Half(|s|)]), Sort(less, s[Half(|s|)..]))
  }

  /** What list::sort promises about its outcome: the same elements, in order,
      and every class of tied elements exactly reversed. */
  ghost predicate SortsReversingTies<X>(less: (X, X) -> bool, s: seq<X>, r: seq<X>) {
    && multiset(r) == multiset(s)
    && Sorted(less, r)
    && (forall x :: x in s ==> Ties(less, x, r) == Reversed(Ties(less, x, s)))
  }

  // ---- elements

  lemma {:induction false} MergeElements<X>(less: (X, X) -> bool, a: seq<X>, b: seq<X>)
    ensures multiset(Merge(less, a, b)) == multiset(a) + multiset(b)
  {
    if a == [] || b == [] {
    } else if less(a[0], b[0]) {
      MergeElements(less, a[1..], b);
      assert a == [a[0]] + a[1..];
    } else {
      MergeElements(less, a, b[1..]);
      assert b == [b[0]] + b[1..];
    }
  }

  lemma {:induction false} SortElements<X>(less: (X, X) -> bool, s: seq<X>)
    ensures multiset(Sort(less, s)) == multiset(s)
    decreases |s|
  {
    if |s| > 1 {
      var lo, hi := s[..Half(|s|)], s[Half(|s|)..];
      calc {
        multiset(Sort(less, s));
        multiset(Merge(less, Sort(less, lo), Sort(less, hi)));
        { MergeElements(less, Sort(less, lo), Sort(less, hi)); }
        multiset(Sort(less, lo)) + multiset(Sort(less, hi));
        { SortElements(less, lo); SortElements(less, hi); }
        multiset(lo) + multiset(hi);
        { assert s == lo + hi; }
        multiset(s);
      }
    }
  }

  lemma SameMembers<X>(s: seq<X>, t: seq<X>)
    requires multiset(s) == multiset(t)
    ensures Within(s, t) && Within(t, s) && |s| == |t|
  {
    forall x | x in s
      ensures x in t
    {
      assert x in multiset(t);
    }
    forall x | x in t
      ensures x in s
    {
      assert x in multiset(s);
    }
    assert |multiset(s)| == |multiset(t)|;
  }

  lemma SortWithin<X>(less: (X, X) -> bool, s: seq<X>)
    ensures Within(Sort(less, s), s) && Within(s, Sort(less, s)) && |Sort(less, s)| == |s|
  {
    SortElements(less, s);
    SameMembers(Sort(less, s), s);
  }

  // ---- order

  lemma SortedTail<X>(less: (X, X) -> bool, s: seq<X>)
    requires Sorted(less, s) && s != []
    ensures Sorted(less, s[1..])
    ensures forall x :: x in s[1..] ==> !less(x, s[0])
  {
  }

  lemma {:induction false} MergeSorted<X>(less: (X, X) -> bool, dom: seq<X>, a: seq<X>, b: seq<X>)
    requires StrictWeakOrder(less, dom) && Within(a, dom) && Within(b, dom)
    requires Sorted(less, a) && Sorted(less, b)
    ensures Sorted(less, Merge(less, a, b))
  {
    if a != [] && b != [] {
      SortedTail(less, a);
      SortedTail(less, b);
      var fromA := less(a[0], b[0]);
      var head := if fromA then a[0] else b[0];
      var a', b' := if fromA then a[1..] else a, if fromA then b else b[1..];
      MergeSorted(less, dom, a', b');
      MergeElements(less, a', b');
      var rest := Merge(less, a', b');
      forall x | x in rest
        ensures !less(x, head)
      {
        assert x in multiset(rest);
        assert x in a' || x in b';
        assert x == a[0] || x == b[0] || !less(x, a[0]) || !less(x, b[0]);
      }
    }
  }

  lemma {:induction false} SortSorted<X>(less: (X, X) -> bool, dom: seq<X>, s: seq<X>)
    requires StrictWeakOrder(less, dom) && Within(s, dom)
    ensures Sorted(less, Sort(less, s))
    decreases |s|
  {
    if |s| > 1 {
      var lo, hi := s[..Half(|s|)], s[Half(|s|)..];
      SortSorted(less, dom, lo);
      SortSorted(less, dom, hi);
      SortWithin(less, lo);
      SortWithin(less, hi);
      MergeSorted(less, dom, Sort(less, lo), Sort(less, hi));
    }
  }

  // ---- ties

  lemma {:induction false} TiesAppend<X>(less: (X, X) -> bool, x: X, s: seq<X>, t: seq<X>)
    ensures Ties(less, x, s + t) == Ties(less, x, s) + Ties(less, x, t)
  {
    if s == [] {
      assert s + t == t;
    } else {
      assert (s + t)[1..] == s[1..] + t;
      TiesAppend(less, x, s[1..], t);
    }
  }

  lemma {:induction false} NoTies<X>(less: (X, X) -> bool, x: X, s: seq<X>)
    requires forall y :: y in s ==> !Tied(less, x, y)
    ensures Ties(less, x, s) == []
  {
    if s != [] {
      NoTies(less, x, s[1..]);
    }
  }

  lemma {:induction false} ReversedAppend<X>(s: seq<X>, t: seq<X>)
    ensures Reversed(s + t) == Reversed(t) + Reversed(s)
  {
    if s == [] {
      assert s + t == t;
    } else {
      assert (s + t)[1..] == s[1..] + t;
      ReversedAppend(s[1..], t);
    }
  }

  /** A merge puts the ties that come from b before those that come from a. */
  lemma {:induction false} MergeTies<X>(less: (X, X) -> bool, dom: seq<X>, x: X, a: seq<X>, b: seq<X>)
    requires StrictWeakOrder(less, dom) && Within(a, dom) && Within(b, dom) && x in dom
    requires Sorted(less, a) && Sorted(less, b)
    ensures Ties(less, x, Merge(less, a, b)) == Ties(less, x, b) + Ties(less, x, a)
  {
    if a == [] || b == [] {
    } else if less(a[0], b[0]) {
      SortedTail(less, a);
      MergeTies(less, dom, x, a[1..], b);
      var rest := Merge(less, a[1..], b);
      assert ([a[0]] + rest)[1..] == rest;
      if Tied(less, x, a[0]) {
        forall y | y in b
          ensures !Tied(less, x, y)
        {
          assert !less(y, b[0]);
          assert less(a[0], y);
        }
        NoTies(less, x, b);
      }
    } else {
      SortedTail(less, b);
      MergeTies(less, dom, x, a, b[1..]);
      var rest := Merge(less, a, b[1..]);
      assert ([b[0]] + rest)[1..] == rest;
    }
  }

  lemma {:induction false} SortReversesTies<X>(less: (X, X) -> bool, dom: seq<X>, x: X, s: seq<X>)
    requires StrictWeakOrder(less, dom) && Within(s, dom) && x in dom
    ensures Ties(less, x, Sort(less, s)) == Reversed(Ties(less, x, s))
    decreases |s|
  {
    if |s| == 1 {
      assert s[1..] == [];
    } else if |s| > 1 {
      var lo, hi := s[..Half(|s|)], s[Half(|s|)..];
      SortReversesTies(less, dom, x, lo);
      SortReversesTies(less, dom, x, hi);
      TiesOfHalves(less, x, lo, hi);
      assert s == lo + hi;
      SortedHalf(less, dom, lo);
      SortedHalf(less, dom, hi);
      MergeTies(less, dom, x, Sort(less, lo), Sort(less, hi));
    }
  }

  lemma SortedHalf<X>(less: (X, X) -> bool, dom: seq<X>, s: seq<X>)
    requires StrictWeakOrder(less, dom) && Within(s, dom)
    ensures Sorted(less, Sort(less, s)) && Within(Sort(less, s), dom)
  {
    SortSorted(less, dom, s);
    SortWithin(less, s);
  }

  lemma TiesOfHalves<X>(less: (X, X) -> bool, x: X, lo: seq<X>, hi: seq<X>)
    ensures Reversed(Ties(less, x, lo + hi)) == Reversed(Ties(less, x, hi)) + Reversed(Ties(less, x, lo))
  {
    TiesAppend(less, x, lo, hi);
    ReversedAppend(Ties(less, x, lo), Ties(less, x, hi));
  }

  /** For every strict weak order the sort keeps the promise... */
  lemma SortMeetsPromise<X>(less: (X, X) -> bool, s: seq<X>)
    requires StrictWeakOrder(less, s)
    ensures SortsReversingTies(less, s, Sort(less, s))
  {
    SortElements(less, s);
    SortSorted(less, s, s);
    forall x | x in s
      ensures Ties(less, x, Sort(less, s)) == Reversed(Ties(less, x, s))
    {
      SortReversesTies(less, s, x, s);
    }
  }

  /** ...and the promise leaves no freedom: only one sequence meets it. */
  lemma PromiseIsExact<X>(less: (X, X) -> bool, s: seq<X>, r: seq<X>)
    requires StrictWeakOrder(less, s)
    requires SortsReversingTies(less, s, r)
    ensures r == Sort(less, s)
  {
    SortMeetsPromise(less, s);
    SameMembers(r, s);
    SortWithin(less, s);
    TiesDetermine(less, s, r, Sort(less, s));
  }

  lemma {:induction false} TiesMembers<X>(less: (X, X) -> bool, x: X, s: seq<X>)
    ensures forall y :: y in Ties(less, x, s) <==> y in s && Tied(less, x, y)
  {
    if s != [] {
      TiesMembers(less, x, s[1..]);
    }
  }

  lemma {:induction false} TiesDetermine<X>(less: (X, X) -> bool, dom: seq<X>, r: seq<X>, t: seq<X>)
    requires StrictWeakOrder(less, dom) && Within(r, dom) && Within(t, dom)
    requires Sorted(less, r) && Sorted(less, t)
    requires forall x :: x in dom ==> Ties(less, x, r) == Ties(less, x, t)
    ensures r == t
  {
    if r == [] || t == [] {
      if r != t {
        var x := if r == [] then t[0] else r[0];
        assert Tied(less, x, x);
        TiesMembers(less, x, r);
        TiesMembers(less, x, t);
      }
    } else {
      TiesMembers(less, r[0], r);
      TiesMembers(less, r[0], t);
      TiesMembers(less, t[0], r);
      TiesMembers(less, t[0], t);
      assert Tied(less, r[0], r[0]) && Tied(less, t[0], t[0]);
      assert r[0] in t && t[0] in r;
      SortedTail(less, r);
      SortedTail(less, t);
      assert Tied(less, r[0], t[0]);
      assert Ties(less, r[0], r)[0] == r[0] && Ties(less, r[0], t)[0] == t[0];
      forall x | x in dom
        ensures Ties(less, x, r[1..]) == Ties(less, x, t[1..])
      {
        assert Ties(less, x, r) == Ties(less, x, t);
        if Tied(less, x, r[0]) {
          assert Ties(less, x, r)[1..] == Ties(less, x, r[1..]);
          assert Ties(less, x, t)[1..] == Ties(less, x, t[1..]);
        }
      }
      TiesDetermine(less, dom, r[1..], t[1..]);
    }
  }

  // ---- elements seen through a map

  /** The elements of s as the map f shows them. */
  function Image<X, Y>(f: map<X, Y>, s: seq<X>): (r: seq<Y>)
    requires forall x :: x in s ==> x in f
    ensures |r| == |s|
    ensures forall i :: 0 <= i < |s| ==> r[i] == f[s[i]]
  {
    if s == [] then [] else [f[s[0]]] + Image(f, s[1..])
  }

  /** lessX compares what f shows of its arguments. */
  ghost predicate Through<X, Y>(f: map<X, Y>, lessX: (X, X) -> bool, lessY: (Y, Y) -> bool) {
    forall x, x' :: x in f && x' in f ==> lessX(x, x') == lessY(f[x], f[x'])
  }

  lemma {:induction false} MergeImage<X, Y>(f: map<X, Y>, lessX: (X, X) -> bool, lessY: (Y, Y) -> bool,
                                            a: seq<X>, b: seq<X>)
    requires Through(f, lessX, lessY)
    requires forall x :: x in a ==> x in f
    requires forall x :: x in b ==> x in f
    ensures forall x :: x in Merge(lessX, a, b) ==> x in f
    ensures Image(f, Merge(lessX, a, b)) == Merge(lessY, Image(f, a), Image(f, b))
  {
    if a == [] || b == [] {
    } else if lessX(a[0], b[0]) {
      MergeImage(f, lessX, lessY, a[1..], b);
      assert Image(f, a)[1..] == Image(f, a[1..]);
    } else {
      MergeImage(f, lessX, lessY, a, b[1..]);
      assert Image(f, b)[1..] == Image(f, b[1..]);
    }
  }

  lemma {:induction false} SortImage<X, Y>(f: map<X, Y>, lessX: (X, X) -> bool, lessY: (Y, Y) -> bool, s: seq<X>)
    requires Through(f, lessX, lessY)
    requires forall x :: x in s ==> x in f
    ensures forall x :: x in Sort(lessX, s) ==> x in f
    ensures Image(f, Sort(lessX, s)) == Sort(lessY, Image(f, s))
    decreases |s|
  {
    if |s| > 1 {
      var lo, hi := s[..Half(|s|)], s[Half(|s|)..];
      SortImage(f, lessX, lessY, lo);
      SortImage(f, lessX, lessY, hi);
      MergeImage(f, lessX, lessY, Sort(lessX, lo), Sort(lessX, hi));
      assert Image(f, s)[..Half(|s|)] == Image(f, lo);
      assert Image(f, s)[Half(|s|)..] == Image(f, hi);
    }
  }

  lemma OrderThrough<X, Y>(f: map<X, Y>, lessX: (X, X) -> bool, lessY: (Y, Y) -> bool, s: seq<X>)
    requires Through(f, lessX, lessY)
    requires forall x :: x in s ==> x in f
    requires StrictWeakOrder(lessY, Image(f, s))
    ensures StrictWeakOrder(lessX, s)
  {
    forall x | x in s
      ensures f[x] in Image(f, s)
    {
      var i :| 0 <= i < |s| && s[i] == x;
      assert Image(f, s)[i] == f[x];
    }
  }
}
