/** Menus: a forest laid out in an array in preorder, each level closed by an entry with
    no label, and the two walks that count nesting instead of following a tree. */
module MenuTree {
  import opened Wrappers

  /** MenuItem: the label and the flags that these walks read. */
  datatype Cell = Cell(text: Option<string>, submenu: bool, pointer: bool, radio: bool, toggle: bool, on: bool,
    divider: bool, invisible: bool)

  /** An entry of zeros. */
  const END: Cell := Cell(None, false, false, false, false, false, false, false)

  predicate Visible(c: Cell) {
    !c.invisible
  }

  /** One level, from some entry of it to its end. */
  datatype Menu =
    | End
    | Item(cell: Cell, rest: Menu)
    | Sub(cell: Cell, inside: Menu, rest: Menu)

  predicate WellFormed(m: Menu) {
    match m
    case End => true
    case Item(c, r) => c.text.Some? && !c.submenu && WellFormed(r)
    case Sub(c, i, r) => c.text.Some? && c.submenu && WellFormed(i) && WellFormed(r)
  }

  function Head(m: Menu): Cell {
    if m.End? then END else m.cell
  }

  /** The preorder array of a level. */
  function Flat(m: Menu): (s: seq<Cell>)
    ensures |s| > 0 && s[0] == Head(m)
  {
    match m
    case End => [END]
    case Item(c, r) => [c] + Flat(r)
    case Sub(c, i, r) => [c] + Flat(i) + Flat(r)
  }

  function Shift(s: seq<nat>, n: nat): (r: seq<nat>)
    ensures |r| == |s| && forall i :: 0 <= i < |s| ==> r[i] == s[i] + n
  {
    seq(|s|, i requires 0 <= i < |s| => s[i] + n)
  }

  /** Where the visible entries of this level, not of deeper ones, are in its array. */
  function VisibleAt(m: Menu): seq<nat> {
    match m
    case End => []
    case Item(c, r) => (if Visible(c) then [0] else []) + Shift(VisibleAt(r), 1)
    case Sub(c, i, r) => (if Visible(c) then [0] else []) + Shift(VisibleAt(r), 1 + |Flat(i)|)
  }

  /** The nth visible entry of the level, or its end. */
  function Nth(m: Menu, n: nat): nat {
    if n < |VisibleAt(m)| then VisibleAt(m)[n] else |Flat(m)| - 1
  }

  /** How far the next entry of the same level is. */
  function Stride(m: Menu): nat
    requires !m.End?
  {
    if m.Item? then 1 else 1 + |Flat(m.inside)|
  }

  lemma LevelStep(m: Menu)
    requires !m.End?
    ensures VisibleAt(m) == (if Visible(m.cell) then [0] else []) + Shift(VisibleAt(m.rest), Stride(m))
    ensures |Flat(m)| == Stride(m) + |Flat(m.rest)|
  {
  }

  lemma NthStep(m: Menu, n: nat)
    requires !m.End?
    ensures Nth(m, n) ==
      if Visible(m.cell) then (if n == 0 then 0 else Stride(m) + Nth(m.rest, n - 1))
      else Stride(m) + Nth(m.rest, n)
  {
    hide Flat, VisibleAt;
    LevelStep(m);
  }

  /** The arrays of these levels, one after the other. */
  function FlatAll(ms: seq<Menu>): seq<Cell> {
    if ms == [] then [] else Flat(ms[0]) + FlatAll(ms[1..])
  }

  ghost predicate AllWellFormed(ms: seq<Menu>) {
    forall i :: 0 <= i < |ms| ==> WellFormed(ms[i])
  }

  /** The levels, innermost first, that follow m's first entry. */
  ghost function Opened(m: Menu): seq<Menu> {
    match m
    case End => []
    case Item(_, r) => [r]
    case Sub(_, i, r) => [i, r]
  }

  /** What is left to walk once the first entry is passed. */
  ghost function Advance(ms: seq<Menu>): seq<Menu>
    requires ms != []
  {
    Opened(ms[0]) + ms[1..]
  }

  lemma {:induction false} FlatAllAppend(a: seq<Menu>, b: seq<Menu>)
    ensures FlatAll(a + b) == FlatAll(a) + FlatAll(b)
  {
    hide Flat;
    if a == [] {
      assert a + b == b;
    } else {
      assert (a + b)[0] == a[0] && (a + b)[1..] == a[1..] + b;
      FlatAllAppend(a[1..], b);
    }
  }

  lemma OpenedFlat(m: Menu)
    ensures Flat(m) == [Head(m)] + FlatAll(Opened(m))
  {
    match m {
      case End =>
      case Item(_, r) => FlatOne(r);
      case Sub(_, i, r) =>
        FlatOne(i);
        FlatOne(r);
        FlatAllAppend([i], [r]);
        assert [i] + [r] == [i, r];
    }
  }

  lemma OpenedWellFormed(m: Menu)
    requires WellFormed(m)
    ensures AllWellFormed(Opened(m))
  {
  }

  lemma AdvanceFlat(ms: seq<Menu>)
    requires ms != [] && AllWellFormed(ms)
    ensures FlatAll(ms) == [Head(ms[0])] + FlatAll(Advance(ms)) && AllWellFormed(Advance(ms))
  {
    hide FlatAll, WellFormed, Flat, Opened;
    OpenedWellFormed(ms[0]);
    OpenedFlat(ms[0]);
    FlatAllAppend(Opened(ms[0]), ms[1..]);
    FlatOne(ms[0]);
    assert ms == [ms[0]] + ms[1..];
    FlatAllAppend([ms[0]], ms[1..]);
  }

  lemma FlatOne(m: Menu)
    ensures FlatAll([m]) == Flat(m)
  {
    assert FlatAll([m]) == Flat(m) + FlatAll([m][1..]);
  }

  /** The cells from m on begin with this. */
  ghost predicate Holds(menu: array<Cell>, m: nat, s: seq<Cell>)
    reads menu
  {
    m + |s| <= menu.Length && menu[m..m + |s|] == s
  }

  lemma HoldsNext(menu: array<Cell>, m: nat, c: Cell, s: seq<Cell>)
    requires Holds(menu, m, [c] + s)
    ensures m < menu.Length && menu[m] == c && Holds(menu, m + 1, s)
  {
    var t := [c] + s;
    assert menu[m] == t[0];
    assert s == t[1..] == menu[m..m + |t|][1..] == menu[m + 1..m + |t|];
  }

  /** MenuItem::size: the level's whole array, its end and all that is nested included. */
  method Size(menu: array<Cell>, this_: nat, ghost level: Menu) returns (n: nat)
    requires WellFormed(level) && Holds(menu, this_, Flat(level))
    ensures n == |Flat(level)|
  {
    hide Flat, WellFormed, FlatAll, Holds, AllWellFormed, Advance;
    var m, nest := this_, 0;
    ghost var ms := [level];
    Single(level);
    while true
      invariant m >= this_ && |ms| == nest + 1 && AllWellFormed(ms)
      invariant Holds(menu, m, FlatAll(ms)) && m + |FlatAll(ms)| == this_ + |Flat(level)|
      decreases |FlatAll(ms)|
    {
      AdvanceFlat(ms);
      HoldsNext(menu, m, Head(ms[0]), FlatAll(Advance(ms)));
      Kind(ms);
      if menu[m].text == None {
        if nest == 0 {
          return m - this_ + 1;
        }
        nest := nest - 1;
      } else if menu[m].submenu {
        nest := nest + 1;
      }
      m := m + 1;
      ms := Advance(ms);
    }
  }

  lemma Single(level: Menu)
    requires WellFormed(level)
    ensures AllWellFormed([level]) && FlatAll([level]) == Flat(level)
  {
    FlatOne(level);
  }

  /** The first entry's label and flags tell how many levels are open after it. */
  lemma Kind(ms: seq<Menu>)
    requires ms != [] && AllWellFormed(ms)
    ensures Head(ms[0]).text == None <==> ms[0].End?
    ensures !ms[0].End? ==> (Head(ms[0]).submenu <==> ms[0].Sub?)
    ensures |Advance(ms)| == |ms| + if ms[0].End? then -1 else if ms[0].Item? then 0 else 1
    ensures ms[0].End? && |ms| == 1 ==> FlatAll(Advance(ms)) == []
  {
    assert WellFormed(ms[0]);
  }

  /** Where next's walk will stop, with n visible entries of the bottom level to go. */
  ghost function Goal(ms: seq<Menu>, n: nat): nat
    requires ms != []
  {
    var k := |ms| - 1;
    if k > 0 then |FlatAll(ms[..k])| + (if n == 0 then 0 else Nth(ms[k], n - 1))
    else if n == 0 || ms[0].End? then 0
    else Stride(ms[0]) + Nth(ms[0].rest, n - 1)
  }

  /** Arriving at an entry of the bottom level counts it if it is visible. */
  lemma Arrive(m: Menu, n: nat)
    ensures Nth(m, n) == Goal([m], if Visible(Head(m)) then n else n + 1)
  {
    hide Flat, VisibleAt;
    if m.End? {
      assert Nth(End, n) == 0 by {
        NthEnd(n);
      }
    } else {
      NthStep(m, n);
    }
  }

  lemma NthEnd(n: nat)
    ensures Nth(End, n) == 0
  {
  }

  /** A level that is walked inside others is passed as a whole. */
  lemma AdvanceFront(ms: seq<Menu>)
    requires |ms| > 1
    ensures var k := |ms| - 1;
      Advance(ms) == Advance(ms[..k]) + [ms[k]]
  {
    assert ms[..|ms| - 1][1..] == ms[1..][..|ms| - 2];
  }

  lemma GoalStep(ms: seq<Menu>, n: nat)
    requires ms != [] && AllWellFormed(ms) && n > 0 && Advance(ms) != []
    ensures var next := Advance(ms);
      Goal(ms, n) == 1 + Goal(next, if |next| == 1 && Visible(Head(next[0])) then n - 1 else n)
  {
    hide Flat, WellFormed, Nth;
    var k, next := |ms| - 1, Advance(ms);
    if k > 0 {
      AdvanceFront(ms);
      AdvanceFlat(ms[..k]);
      assert next[..|next| - 1] == Advance(ms[..k]);
    } else if ms[0].Sub? {
      assert next[..1] == [ms[0].inside];
      FlatOne(ms[0].inside);
    }
    if |next| == 1 {
      assert next == [next[0]];
      Arrive(next[0], n - 1);
    }
  }

  lemma HoldsHead(menu: array<Cell>, m: nat, level: Menu)
    requires Holds(menu, m, Flat(level))
    ensures m < menu.Length && menu[m] == Head(level)
  {
    hide Flat, Holds;
    assert Flat(level) == [Head(level)] + Flat(level)[1..];
    HoldsNext(menu, m, Head(level), Flat(level)[1..]);
  }

  lemma HeadFirst(ms: seq<Menu>)
    requires ms != []
    ensures FlatAll(ms) != [] && FlatAll(ms)[0] == Head(ms[0])
  {
  }

  /** MenuItem::next: the nth visible entry of the level, or its end if there are too
      few; None is the null that a negative n gives. */
  method Next(menu: array<Cell>, this_: nat, n: int, ghost level: Menu) returns (r: Option<nat>)
    requires WellFormed(level) && Holds(menu, this_, Flat(level))
    ensures r == if n < 0 then None else Some(this_ + Nth(level, n))
  {
    hide Flat, WellFormed, FlatAll, Holds, AllWellFormed, Advance, Goal, Nth;
    if n < 0 {
      return None;
    }
    var m, nest, left := this_, 0, n;
    ghost var ms := [level];
    Single(level);
    Arrive(level, n);
    HoldsHead(menu, m, level);
    if !Visible(menu[m]) {
      left := left + 1;
    }
    while left > 0
      invariant m >= this_ && |ms| == nest + 1 && AllWellFormed(ms) && left >= 0
      invariant left == 0 ==> nest == 0
      invariant Holds(menu, m, FlatAll(ms))
      invariant m + Goal(ms, left) == this_ + Nth(level, n)
      decreases |FlatAll(ms)|
    {
      AdvanceFlat(ms);
      HoldsNext(menu, m, Head(ms[0]), FlatAll(Advance(ms)));
      Kind(ms);
      if menu[m].text == None {
        if nest == 0 {
          AtEnd(ms, left);
          return Some(m);
        }
        nest := nest - 1;
      } else if menu[m].submenu {
        nest := nest + 1;
      }
      GoalStep(ms, left);
      m := m + 1;
      ms := Advance(ms);
      HeadFirst(ms);
      HoldsNext(menu, m, Head(ms[0]), FlatAll(ms)[1..]);
      if nest == 0 && Visible(menu[m]) {
        left := left - 1;
      }
    }
    AtEnd(ms, 0);
    return Some(m);
  }

  lemma AtEnd(ms: seq<Menu>, n: nat)
    requires |ms| == 1 && (n == 0 || ms[0].End?)
    ensures Goal(ms, n) == 0
  {
  }
}
