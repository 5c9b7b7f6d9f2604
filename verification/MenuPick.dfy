/** Picking in a menu: radio groups, toggles, and the array they are kept in. */
module MenuPick {
  import opened Wrappers
  import opened MenuTree

  predicate InGroup(c: Cell) {
    c.text.Some? && c.radio
  }

  /** i and j are in one radio group: a run of radio items with no divider between them. */
  predicate SameGroup(s: seq<Cell>, i: nat, j: nat)
    requires i < |s| && j < |s|
  {
    var lo, hi := if i <= j then i else j, if i <= j then j else i;
    && (forall k :: lo <= k <= hi ==> InGroup(s[k]))
    && (forall k :: lo <= k < hi ==> !s[k].divider)
  }

  /** No group has two items on. */
  ghost predicate AtMostOne(s: seq<Cell>) {
    forall i, j :: 0 <= i < j < |s| && s[i].on && s[j].on ==> !SameGroup(s, i, j)
  }

  /** s with i a radio item that is on. */
  function Chosen(s: seq<Cell>, i: nat): (r: seq<Cell>)
    requires i < |s|
    ensures |r| == |s|
  {
    s[i := s[i].(radio := true, on := true)]
  }

  /** setonly: i is turned on and the rest of its group off. */
  function Only(s: seq<Cell>, i: nat): (r: seq<Cell>)
    requires i < |s|
    ensures |r| == |s|
  {
    var c := Chosen(s, i);
    seq(|s|, k requires 0 <= k < |s| => if k != i && SameGroup(c, k, i) then c[k].(on := false) else c[k])
  }

  /** picked, as far as the entries go. */
  function Pick(s: seq<Cell>, v: nat): (r: seq<Cell>)
    requires v < |s|
    ensures |r| == |s|
  {
    if s[v].radio then (if s[v].on then s else Only(s, v))
    else if s[v].toggle then s[v := s[v].(on := !s[v].on)]
    else s
  }

  predicate InRange(s: seq<Cell>, vs: seq<nat>) {
    forall i :: 0 <= i < |vs| ==> vs[i] < |s|
  }

  function PickAll(s: seq<Cell>, vs: seq<nat>): (r: seq<Cell>)
    requires InRange(s, vs)
    ensures |r| == |s|
  {
    if vs == [] then s else Pick(PickAll(s, vs[..|vs| - 1]), vs[|vs| - 1])
  }

  /** t has s's labels, radio marks and dividers. */
  ghost predicate Alike(s: seq<Cell>, t: seq<Cell>) {
    |s| == |t| && forall k :: 0 <= k < |s| ==> t[k].(on := s[k].on) == s[k]
  }

  lemma AlikeGroups(s: seq<Cell>, t: seq<Cell>, i: nat, j: nat)
    requires Alike(s, t) && i < |s| && j < |s|
    ensures SameGroup(t, i, j) == SameGroup(s, i, j)
  {
    assert forall k :: 0 <= k < |s| ==> InGroup(t[k]) == InGroup(s[k]) && t[k].divider == s[k].divider by {
      forall k | 0 <= k < |s|
        ensures InGroup(t[k]) == InGroup(s[k]) && t[k].divider == s[k].divider
      {
        assert t[k].(on := s[k].on) == s[k];
      }
    }
  }

  lemma SameGroupInside(s: seq<Cell>, i: nat, m: nat, j: nat)
    requires i <= m <= j < |s| && SameGroup(s, i, j)
    ensures SameGroup(s, i, m) && SameGroup(s, m, j)
  {
  }

  /** Two items of a group that i is not in were in one group before i was chosen. */
  lemma OtherGroup(s: seq<Cell>, i: nat, a: nat, b: nat)
    requires i < |s| && a < b < |s| && SameGroup(Chosen(s, i), a, b) && !SameGroup(Chosen(s, i), a, i)
    ensures SameGroup(s, a, b)
  {
    var c := Chosen(s, i);
    if a <= i <= b {
      SameGroupInside(c, a, i, b);
    }
    assert forall k :: a <= k <= b ==> c[k] == s[k];
  }

  lemma OnlyAlike(s: seq<Cell>, i: nat)
    requires i < |s|
    ensures Alike(Chosen(s, i), Only(s, i))
  {
    hide SameGroup;
  }

  /** setonly keeps at most one on in every group, even where it makes two groups one. */
  lemma OnlyKeeps(s: seq<Cell>, i: nat)
    requires i < |s| && AtMostOne(s)
    ensures AtMostOne(Only(s, i))
  {
    hide SameGroup;
    var c, r := Chosen(s, i), Only(s, i);
    OnlyAlike(s, i);
    forall a, b | 0 <= a < b < |r| && r[a].on && r[b].on
      ensures !SameGroup(r, a, b)
    {
      AlikeGroups(c, r, a, b);
      if SameGroup(c, a, b) && a != i && b != i {
        OtherGroup(s, i, a, b);
      } else if SameGroup(c, a, b) && a == i {
        Symmetric(c, a, b);
      }
    }
  }

  lemma Symmetric(s: seq<Cell>, i: nat, j: nat)
    requires i < |s| && j < |s|
    ensures SameGroup(s, i, j) == SameGroup(s, j, i)
  {
  }

  lemma TogglesApart(s: seq<Cell>, v: nat)
    requires v < |s| && AtMostOne(s) && !s[v].radio
    ensures AtMostOne(s[v := s[v].(on := !s[v].on)])
  {
    var t := s[v := s[v].(on := !s[v].on)];
    assert Alike(s, t);
    forall a, b | 0 <= a < b < |t| && t[a].on && t[b].on
      ensures !SameGroup(t, a, b)
    {
      AlikeGroups(s, t, a, b);
    }
  }

  lemma PickKeeps(s: seq<Cell>, v: nat)
    requires v < |s| && AtMostOne(s)
    ensures AtMostOne(Pick(s, v))
  {
    hide SameGroup, AtMostOne, Only;
    if s[v].radio {
      OnlyKeeps(s, v);
    } else {
      TogglesApart(s, v);
    }
  }

  /** Whatever is picked and however often, no group ever has two items on. */
  lemma {:induction false} RunKeeps(s: seq<Cell>, vs: seq<nat>)
    requires AtMostOne(s) && InRange(s, vs)
    ensures AtMostOne(PickAll(s, vs))
  {
    hide AtMostOne, Pick;
    if vs != [] {
      RunKeeps(s, vs[..|vs| - 1]);
      PickKeeps(PickAll(s, vs[..|vs| - 1]), vs[|vs| - 1]);
    }
  }

  /** A picked radio item is on and alone in its group; all else is as before. */
  lemma PickSelects(s: seq<Cell>, v: nat)
    requires v < |s| && AtMostOne(s) && InGroup(s[v])
    ensures var r := Pick(s, v);
      && r[v].on && Alike(s, r)
      && (forall k :: 0 <= k < |s| && k != v && SameGroup(s, v, k) ==> !r[k].on)
      && (forall k :: 0 <= k < |s| && !SameGroup(s, v, k) ==> r[k] == s[k])
  {
    hide SameGroup;
    var c, r := Chosen(s, v), Pick(s, v);
    assert Alike(s, c);
    forall k | 0 <= k < |s|
      ensures k != v && SameGroup(s, v, k) ==> !r[k].on
      ensures !SameGroup(s, v, k) ==> r[k] == s[k]
    {
      AlikeGroups(s, c, k, v);
      Symmetric(s, v, k);
      SelfGroup(s, v);
    }
  }

  /** A picked toggle changes over, and back when it is picked again; an item that is neither
      radio nor toggle, and a radio item that is on, change nothing. */
  lemma PickToggles(s: seq<Cell>, v: nat)
    requires v < |s| && (!s[v].radio || s[v].on)
    ensures var r := Pick(s, v);
      && (r[v].on != s[v].on <==> s[v].toggle && !s[v].radio)
      && r[v].(on := s[v].on) == s[v]
      && (forall k :: 0 <= k < |s| && k != v ==> r[k] == s[k])
      && (s[v].toggle ==> Pick(r, v) == s)
  {
  }

  /** What setonly leaves, also of an item that was no radio item: it is one now, on, and
      alone in the group that it is in then. */
  lemma OnlySelects(s: seq<Cell>, i: nat)
    requires i < |s| && s[i].text.Some?
    ensures var c, r := s[i := s[i].(radio := true)], Only(s, i);
      && r[i] == s[i].(radio := true, on := true)
      && (forall k :: 0 <= k < |s| && k != i && SameGroup(c, k, i) ==> r[k] == s[k].(on := false))
      && (forall k :: 0 <= k < |s| && !SameGroup(c, k, i) ==> r[k] == s[k])
  {
    hide SameGroup;
    var c := s[i := s[i].(radio := true)];
    assert Alike(c, Chosen(s, i));
    forall k: nat | k < |s|
      ensures SameGroup(Chosen(s, i), k, i) == SameGroup(c, k, i)
    {
      AlikeGroups(c, Chosen(s, i), k, i);
    }
    SelfGroup(c, i);
  }

  lemma SelfGroup(s: seq<Cell>, v: nat)
    requires v < |s| && InGroup(s[v])
    ensures SameGroup(s, v, v)
  {
  }

  // ---- the array

  /** setonly's upward scan stops at c. */
  predicate Stops(c: Cell) {
    !InGroup(c) || c.divider
  }

  /** Some entry before i stops the upward scan. */
  predicate Guarded(s: seq<Cell>, i: nat)
    requires i < |s|
  {
    exists a :: 0 <= a < i && Stops(s[a])
  }

  /** hi is the last of i's group. */
  lemma GroupEnds(s: seq<Cell>, i: nat, hi: nat)
    requires i <= hi < |s| && (s[hi].divider || hi + 1 == |s| || !InGroup(s[hi + 1]))
    ensures forall k: nat :: hi < k < |s| ==> !SameGroup(s, k, i)
  {
  }

  /** lo is the first of i's group. */
  lemma GroupStarts(s: seq<Cell>, i: nat, lo: nat)
    requires 0 < lo <= i < |s| && Stops(s[lo - 1])
    ensures forall k: nat :: k < lo ==> !SameGroup(s, k, i)
  {
  }

  lemma GroupSpan(s: seq<Cell>, lo: nat, i: nat, hi: nat)
    requires lo <= i <= hi < |s|
    requires (forall k :: lo <= k <= hi ==> InGroup(s[k])) && forall k :: lo <= k < hi ==> !s[k].divider
    ensures forall k: nat :: lo <= k <= hi ==> SameGroup(s, k, i)
  {
  }

  lemma GuardKept(s: seq<Cell>, t: seq<Cell>, i: nat)
    requires i < |s| && i < |t| && Guarded(s, i) && forall k :: 0 <= k < i ==> t[k] == s[k]
    ensures Guarded(t, i)
  {
    hide Stops;
    var a :| 0 <= a < i && Stops(s[a]);
    assert Stops(t[a]);
  }

  /** The two scans together clear i's group. */
  lemma BothScans(s: seq<Cell>, i: nat, d: seq<Cell>, hi: nat, e: seq<Cell>, lo: nat)
    requires i < |s| == |d| == |e| && lo <= i <= hi < |s|
    requires forall k :: 0 <= k < |s| ==> d[k] == if i < k <= hi then Chosen(s, i)[k].(on := false) else Chosen(s, i)[k]
    requires forall k: nat :: k < |s| && k >= i ==> (SameGroup(Chosen(s, i), k, i) <==> k <= hi)
    requires forall k :: 0 <= k < |s| ==> e[k] == if lo <= k < i then d[k].(on := false) else d[k]
    requires forall k: nat :: k <= i ==> (SameGroup(d, k, i) <==> lo <= k)
    ensures e == Only(s, i)
  {
    hide SameGroup;
    var c := Chosen(s, i);
    assert Alike(c, d);
    forall k: nat | k < |s|
      ensures e[k] == Only(s, i)[k]
    {
      AlikeGroups(c, d, k, i);
    }
  }

  class MenuBase {
    var menu: array<Cell>
    var value: Option<nat>
    var changed: bool

    ghost predicate Valid()
      reads this, menu
    {
      menu.Length > 0 && menu[menu.Length - 1] == END
    }

    /** setonly's downward loop */
    method ClearDown(i: nat) returns (ghost hi: nat)
      requires Valid() && i < menu.Length && InGroup(menu[i])
      modifies menu
      ensures Valid() && i <= hi < menu.Length
      ensures forall k: nat :: i <= k <= hi ==> SameGroup(old(menu[..]), k, i)
      ensures forall k: nat :: hi < k < menu.Length ==> !SameGroup(old(menu[..]), k, i)
      ensures forall k :: 0 <= k < menu.Length ==>
        menu[k] == if i < k <= hi then old(menu[k]).(on := false) else old(menu[k])
    {
      hide SameGroup;
      ghost var s := menu[..];
      var j := i;
      hi := i;
      while true
        invariant i <= j == hi < menu.Length
        invariant (forall k :: i <= k <= j ==> InGroup(s[k])) && forall k :: i <= k < j ==> !s[k].divider
        invariant forall k :: 0 <= k < menu.Length ==> menu[k] == if i < k <= j then s[k].(on := false) else s[k]
        decreases menu.Length - j
      {
        if menu[j].divider {
          break;
        }
        j := j + 1;
        if menu[j].text == None || !menu[j].radio {
          break;
        }
        menu[j] := menu[j].(on := false);
        hi := j;
      }
      GroupEnds(s, i, hi);
      GroupSpan(s, i, i, hi);
    }

    /** setonly's upward loop */
    method ClearUp(i: nat) returns (ghost lo: nat)
      requires Valid() && i < menu.Length && InGroup(menu[i]) && Guarded(menu[..], i)
      modifies menu
      ensures Valid() && lo <= i
      ensures forall k: nat :: lo <= k <= i ==> SameGroup(old(menu[..]), k, i)
      ensures forall k: nat :: k < lo ==> !SameGroup(old(menu[..]), k, i)
      ensures forall k :: 0 <= k < menu.Length ==>
        menu[k] == if lo <= k < i then old(menu[k]).(on := false) else old(menu[k])
    {
      hide SameGroup;
      ghost var s := menu[..];
      ghost var a :| 0 <= a < i && Stops(s[a]);
      var j := i - 1;
      lo := i;
      while !(menu[j].text == None || menu[j].divider || !menu[j].radio)
        invariant a <= j < i && lo == j + 1
        invariant (forall k :: lo <= k <= i ==> InGroup(s[k])) && forall k :: lo <= k < i ==> !s[k].divider
        invariant forall k :: 0 <= k < menu.Length ==> menu[k] == if lo <= k < i then s[k].(on := false) else s[k]
        decreases j
      {
        menu[j] := menu[j].(on := false);
        lo := j;
        j := j - 1;
      }
      GroupStarts(s, i, lo);
      GroupSpan(s, lo, i, i);
    }

    method SetOnly(i: nat)
      requires Valid() && i < menu.Length && menu[i].text.Some? && Guarded(menu[..], i)
      modifies menu
      ensures Valid() && menu[..] == Only(old(menu[..]), i)
    {
      hide SameGroup, Guarded, Only;
      ghost var s := menu[..];
      menu[i] := menu[i].(radio := true, on := true);
      assert menu[..] == Chosen(s, i);
      ghost var hi := ClearDown(i);
      ghost var d := menu[..];
      GuardKept(s, d, i);
      ghost var lo := ClearUp(i);
      BothScans(s, i, d, hi, menu[..], lo);
    }

    /** picked, without the callbacks. */
    method Picked(v: nat)
      requires Valid() && v < menu.Length && menu[v].text.Some?
      requires menu[v].radio && !menu[v].on ==> Guarded(menu[..], v)
      modifies this`value, this`changed, menu
      ensures Valid() && menu[..] == Pick(old(menu[..]), v) && value == Some(v)
      ensures changed == (old(changed) || menu[..] != old(menu[..]) || (!menu[v].radio && old(value) != Some(v)))
    {
      hide SameGroup, Guarded, Only;
      if menu[v].radio {
        if !menu[v].on {
          changed := true;
          SetOnly(v);
          OnlyTurnsOn(old(menu[..]), v);
        }
      } else if menu[v].toggle {
        changed := true;
        menu[v] := menu[v].(on := !menu[v].on);
      } else if value != Some(v) {
        changed := true;
      }
      value := Some(v);
    }
  }

  lemma OnlyTurnsOn(s: seq<Cell>, v: nat)
    requires v < |s|
    ensures Only(s, v)[v].on && Only(s, v)[v].radio
  {
  }
}
