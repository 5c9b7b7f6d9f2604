/** ExpandableGroup: children flow from left to right into rows, and the scrollbar is kept
    last in the array of children. */
module Layout {
  import opened Wrappers

  const CHILD_OFFSET: int := 10
  const BORDER_OFFSET: int := 10

  datatype Box = Box(w: nat, h: nat, visible: bool)
  datatype Spot = Spot(x: int, y: int)

  /** The left edge, the first row's top and the width to flow into. */
  datatype Area = Area(x: int, y: int, w: int)

  /** Where the next child would go, the rows' height so far, and where the children are. */
  datatype Flow = Flow(px: int, py: int, height: int, spots: seq<Option<Spot>>)

  function Put(f: Flow, b: Box, a: Area): Flow {
    if !b.visible then f.(spots := f.spots + [None])
    else if f.px + b.w <= a.x + a.w then
      Flow(f.px + b.w + CHILD_OFFSET, f.py, f.height, f.spots + [Some(Spot(f.px, f.py))])
    else
      var y := f.py + b.h + CHILD_OFFSET;
      Flow(a.x + b.w + CHILD_OFFSET, y, f.height + b.h + CHILD_OFFSET, f.spots + [Some(Spot(a.x, y))])
  }

  /** The children placed in order, the first of all being first high. */
  function Laid(bs: seq<Box>, a: Area, first: nat): (f: Flow)
    ensures |f.spots| == |bs|
    ensures forall i :: 0 <= i < |bs| ==> (f.spots[i].Some? <==> bs[i].visible)
  {
    if bs == [] then Flow(a.x, a.y, BORDER_OFFSET + first, [])
    else Put(Laid(bs[..|bs| - 1], a, first), bs[|bs| - 1], a)
  }

  ghost predicate AllHigh(bs: seq<Box>, h: nat) {
    forall i :: 0 <= i < |bs| ==> bs[i].h == h
  }

  /** q is right of p in its row or in a row below, at least CHILD_OFFSET away. */
  predicate Follows(p: Spot, w: nat, h: nat, q: Spot) {
    || (q.y == p.y && q.x >= p.x + w + CHILD_OFFSET)
    || q.y >= p.y + h + CHILD_OFFSET
  }

  /** What one child placed at p leaves for the next. */
  predicate Past(p: Spot, b: Box, f: Flow) {
    Follows(p, b.w, b.h, Spot(f.px, f.py)) && p.y <= f.py
  }

  /** Child j does not fit in the row being filled. */
  predicate Breaks(bs: seq<Box>, a: Area, first: nat, j: nat)
    requires j < |bs|
  {
    bs[j].visible && Laid(bs[..j], a, first).px + bs[j].w > a.x + a.w
  }

  /** No child in the row that j leaves, or would leave, is higher than j. */
  predicate TopsRow(bs: seq<Box>, a: Area, first: nat, j: nat)
    requires j < |bs|
  {
    var f := Laid(bs[..j], a, first);
    forall i :: 0 <= i < j && bs[i].visible && f.spots[i].value.y == f.py ==> bs[i].h <= bs[j].h
  }

  /** The first child of each new row is at least as high as every child of the row before. */
  ghost predicate RowsRise(bs: seq<Box>, a: Area, first: nat) {
    forall j :: 0 <= j < |bs| && Breaks(bs, a, first, j) ==> TopsRow(bs, a, first, j)
  }

  ghost predicate AllApart(bs: seq<Box>, a: Area, first: nat) {
    var s := Laid(bs, a, first).spots;
    forall i, j :: 0 <= i < j < |bs| && bs[i].visible && bs[j].visible ==>
      Follows(s[i].value, bs[i].w, bs[i].h, s[j].value)
  }

  lemma FrontRises(bs: seq<Box>, a: Area, first: nat, n: nat)
    requires RowsRise(bs, a, first) && n <= |bs|
    ensures RowsRise(bs[..n], a, first)
  {
    forall j | 0 <= j < n && Breaks(bs[..n], a, first, j)
      ensures TopsRow(bs[..n], a, first, j)
    {
      assert bs[..n][..j] == bs[..j];
      assert Breaks(bs, a, first, j);
    }
  }

  lemma {:induction false} AllPast(bs: seq<Box>, a: Area, first: nat)
    requires RowsRise(bs, a, first)
    ensures var f := Laid(bs, a, first);
      forall i :: 0 <= i < |bs| && bs[i].visible ==> Past(f.spots[i].value, bs[i], f)
  {
    if bs != [] {
      var n := |bs| - 1;
      FrontRises(bs, a, first, n);
      AllPast(bs[..n], a, first);
      assert Breaks(bs, a, first, n) ==> TopsRow(bs, a, first, n);
    }
  }

  lemma {:induction false} Prefix(bs: seq<Box>, a: Area, first: nat, k: nat)
    requires k <= |bs|
    ensures Laid(bs[..k], a, first).spots == Laid(bs, a, first).spots[..k]
  {
    var n := |bs|;
    if k == n {
      assert bs[..k] == bs;
    } else {
      Prefix(bs[..n - 1], a, first, k);
      assert bs[..n - 1][..k] == bs[..k];
    }
  }

  /** Where b is put follows p, if it is no lower than what p shares a row with. */
  lemma PutFollows(f: Flow, p: Spot, c: Box, b: Box, a: Area)
    requires b.visible && Past(p, c, f)
    requires f.px + b.w > a.x + a.w && p.y == f.py ==> c.h <= b.h
    ensures var s := Put(f, b, a).spots;
      |s| == |f.spots| + 1 && s[|f.spots|].Some? && Follows(p, c.w, c.h, s[|f.spots|].value)
  {
  }

  lemma OneApart(bs: seq<Box>, a: Area, first: nat, i: nat, j: nat)
    requires RowsRise(bs, a, first) && i < j < |bs| && bs[i].visible && bs[j].visible
    ensures var s := Laid(bs, a, first).spots;
      Follows(s[i].value, bs[i].w, bs[i].h, s[j].value)
  {
    hide Laid, Put, Past, Follows;
    FrontRises(bs, a, first, j);
    AllPast(bs[..j], a, first);
    Prefix(bs, a, first, j);
    Prefix(bs, a, first, j + 1);
    OneMore(bs, a, first, j);
    var f := Laid(bs[..j], a, first);
    assert bs[..j][i] == bs[i];
    assert Past(f.spots[i].value, bs[i], f);
    assert Breaks(bs, a, first, j) ==> TopsRow(bs, a, first, j);
    PutFollows(f, f.spots[i].value, bs[i], bs[j], a);
  }

  lemma ApartRises(bs: seq<Box>, a: Area, first: nat, j: nat)
    requires AllApart(bs, a, first) && j < |bs| && Breaks(bs, a, first, j)
    ensures TopsRow(bs, a, first, j)
  {
    var f := Laid(bs[..j], a, first);
    Prefix(bs, a, first, j);
    Prefix(bs, a, first, j + 1);
    OneMore(bs, a, first, j);
    forall i | 0 <= i < j && bs[i].visible && f.spots[i].value.y == f.py
      ensures bs[i].h <= bs[j].h
    {
      var s := Laid(bs, a, first).spots;
      assert Follows(s[i].value, bs[i].w, bs[i].h, s[j].value);
    }
  }

  /** For all sizes: the children stand in reading order, every two of them apart, exactly
      if no row's first child is lower than a child of the row above. */
  lemma ApartIffRowsRise(bs: seq<Box>, a: Area, first: nat)
    ensures AllApart(bs, a, first) <==> RowsRise(bs, a, first)
  {
    if RowsRise(bs, a, first) {
      forall i, j | 0 <= i < j < |bs| && bs[i].visible && bs[j].visible
        ensures var s := Laid(bs, a, first).spots;
          Follows(s[i].value, bs[i].w, bs[i].h, s[j].value)
      {
        OneApart(bs, a, first, i, j);
      }
    }
    if AllApart(bs, a, first) {
      forall j | 0 <= j < |bs| && Breaks(bs, a, first, j)
        ensures TopsRow(bs, a, first, j)
      {
        ApartRises(bs, a, first, j);
      }
    }
  }

  lemma EvenRise(bs: seq<Box>, a: Area, h: nat)
    requires AllHigh(bs, h)
    ensures RowsRise(bs, a, h)
  {
  }

  /** So they do whenever all are of one height. */
  lemma InOrderAndApart(bs: seq<Box>, a: Area, h: nat)
    requires AllHigh(bs, h)
    ensures AllApart(bs, a, h)
  {
    EvenRise(bs, a, h);
    ApartIffRowsRise(bs, a, h);
  }

  /** A high child over a low one, in an area with room for one in a row. */
  lemma OverlapShown()
    ensures var bs := [Box(20, 50, true), Box(20, 10, true)];
      var s := Laid(bs, Area(0, 0, 20), 50).spots;
      && s == [Some(Spot(0, 0)), Some(Spot(0, 20))]
      && !AllApart(bs, Area(0, 0, 20), 50)
  {
    var b, c, a := Box(20, 50, true), Box(20, 10, true), Area(0, 0, 20);
    NoneLaid(a, 50);
    OneMore([b, c], a, 50, 0);
    OneMore([b, c], a, 50, 1);
    assert [b, c][..0] == [] && [b, c][..2] == [b, c];
    var s := Laid([b, c], a, 50).spots;
    assert !Follows(s[0].value, 20, 50, s[1].value);
    assert [b, c][0].h == 50;
  }

  /** No child reaches out at the left, nor at the right if it is not too wide itself. */
  lemma {:induction false} Inside(bs: seq<Box>, a: Area, first: nat, i: nat)
    requires i < |bs| && bs[i].visible
    ensures var p := Laid(bs, a, first).spots[i].value;
      p.x >= a.x && (bs[i].w <= a.w ==> p.x + bs[i].w <= a.x + a.w)
  {
    var n := |bs| - 1;
    FromLeft(bs[..n], a, first);
    if i < n {
      Inside(bs[..n], a, first, i);
    }
  }

  lemma {:induction false} FromLeft(bs: seq<Box>, a: Area, first: nat)
    ensures Laid(bs, a, first).px >= a.x
  {
    if bs != [] {
      FromLeft(bs[..|bs| - 1], a, first);
    }
  }

  ghost predicate NoneVisible(bs: seq<Box>, from: nat) {
    forall k :: from <= k < |bs| ==> !bs[k].visible
  }

  lemma {:induction false} AfterLast(bs: seq<Box>, a: Area, first: nat, i: nat)
    requires i < |bs| && bs[i].visible && NoneVisible(bs, i + 1)
    ensures var f := Laid(bs, a, first);
      f.spots[i] == Some(Spot(f.px - bs[i].w - CHILD_OFFSET, f.py))
  {
    var n := |bs| - 1;
    if i < n {
      AfterLast(bs[..n], a, first, i);
    }
  }

  /** A row is left exactly when the next visible child does not fit in it. */
  lemma RowBreaks(bs: seq<Box>, a: Area, first: nat, i: nat, j: nat)
    requires i < j < |bs| && bs[i].visible && bs[j].visible && NoneVisible(bs[..j], i + 1)
    ensures var s := Laid(bs, a, first).spots;
      var right := s[i].value.x + bs[i].w + CHILD_OFFSET;
      s[j].value ==
        if right + bs[j].w <= a.x + a.w then Spot(right, s[i].value.y)
        else Spot(a.x, s[i].value.y + bs[j].h + CHILD_OFFSET)
  {
    hide Laid, NoneVisible;
    AfterLast(bs[..j], a, first, i);
    Prefix(bs, a, first, j);
    Prefix(bs, a, first, j + 1);
    OneMore(bs, a, first, j);
    assert bs[..j][i] == bs[i];
  }

  /** The first child is put where the area begins, or, if it is too wide, in a row below. */
  lemma {:induction false} FirstPlaced(bs: seq<Box>, a: Area, first: nat, i: nat)
    requires i < |bs| && bs[i].visible && NoneVisible(bs[..i], 0)
    ensures Laid(bs, a, first).spots[i] ==
      Some(if bs[i].w <= a.w then Spot(a.x, a.y) else Spot(a.x, a.y + bs[i].h + CHILD_OFFSET))
  {
    var n := |bs| - 1;
    if i < n {
      assert bs[..n][..i] == bs[..i];
      FirstPlaced(bs[..n], a, first, i);
    } else {
      NonePlaced(bs[..n], a, first);
    }
  }

  lemma {:induction false} NonePlaced(bs: seq<Box>, a: Area, first: nat)
    requires NoneVisible(bs, 0)
    ensures var f := Laid(bs, a, first);
      f.px == a.x && f.py == a.y && f.height == BORDER_OFFSET + first
  {
    if bs != [] {
      NonePlaced(bs[..|bs| - 1], a, first);
    }
  }

  /** p, d further up. */
  function Up(p: Option<Spot>, d: int): Option<Spot> {
    if p.Some? then Some(Spot(p.value.x, p.value.y - d)) else None
  }

  /** Scrolling by d moves every child up by d and changes nothing else. */
  lemma {:induction false} ScrollShifts(bs: seq<Box>, a: Area, first: nat, d: int)
    ensures var f, g := Laid(bs, a, first), Laid(bs, a.(y := a.y - d), first);
      && g.px == f.px && g.py == f.py - d && g.height == f.height
      && forall i :: 0 <= i < |bs| ==> g.spots[i] == Up(f.spots[i], d)
  {
    if bs != [] {
      ScrollShifts(bs[..|bs| - 1], a, first, d);
    }
  }

  lemma {:induction false} HeightCounts(bs: seq<Box>, a: Area, first: nat)
    ensures var f := Laid(bs, a, first);
      f.height == BORDER_OFFSET + first + f.py - a.y
  {
    if bs != [] {
      HeightCounts(bs[..|bs| - 1], a, first);
    }
  }

  /** For all sizes: the height reaches from the border above the area to where the first
      child's height, put at the top of the last row, ends. */
  lemma HeightToLastRow(bs: seq<Box>, a: Area, first: nat, last: nat)
    requires last < |bs| && bs[last].visible && NoneVisible(bs, last + 1)
    ensures var f := Laid(bs, a, first);
      f.height == BORDER_OFFSET + (f.spots[last].value.y - a.y) + first
  {
    HeightCounts(bs, a, first);
    AfterLast(bs, a, first, last);
  }

  /** The height reaches exactly from the border above the area to the lowest child's
      bottom: for equal heights. */
  lemma HeightIsContent(bs: seq<Box>, a: Area, h: nat, last: nat)
    requires AllHigh(bs, h) && last < |bs| && bs[last].visible && NoneVisible(bs, last + 1)
    ensures var f := Laid(bs, a, h);
      && f.height == BORDER_OFFSET + (f.spots[last].value.y + h - a.y)
      && forall i :: 0 <= i < |bs| && bs[i].visible ==> f.spots[i].value.y <= f.spots[last].value.y
  {
    HeightToLastRow(bs, a, h, last);
    AfterLast(bs, a, h, last);
    EvenRise(bs, a, h);
    AllPast(bs, a, h);
  }

  // ---- the widgets

  class Widget {
    const box: Box
    var x: int
    var y: int

    constructor (box: Box)
      ensures this.box == box
    {
      this.box, x, y := box, 0, 0;
    }
  }

  function Boxes(ws: seq<Widget>): (bs: seq<Box>)
    ensures |bs| == |ws| && forall i :: 0 <= i < |ws| ==> bs[i] == ws[i].box
  {
    seq(|ws|, i requires 0 <= i < |ws| => ws[i].box)
  }

  class ExpandableGroup {
    var x: int
    var y: int
    var w: int
    var sval: int
    var areaX: int
    var areaY: int
    var areaW: int
    var areaH: int
    var px: int
    var py: int

    constructor (x: int, y: int, w: int)
      ensures this.x == x && this.y == y && this.w == w && sval == 0
    {
      this.x, this.y, this.w, sval := x, y, w, 0;
      areaX, areaY, areaW, areaH, px, py := x + BORDER_OFFSET, y + BORDER_OFFSET, w, 0, 0, 0;
    }

    /** Where the children flow to; they are shifted up by what is scrolled. */
    function Room(): Area
      reads this
    {
      Area(x + BORDER_OFFSET, y + BORDER_OFFSET - sval, w - BORDER_OFFSET)
    }

    /** One turn of reposition_childs' loop. */
    method PlaceChild(c: Widget, ghost f: Flow, ghost a: Area)
      requires areaX == a.x && areaW == a.w && px == f.px && py == f.py && areaH == f.height
      modifies this`px, this`py, this`areaH, c
      ensures var r := Put(f, c.box, a);
        && px == r.px && py == r.py && areaH == r.height
        && if c.box.visible then r.spots == f.spots + [Some(Spot(c.x, c.y))] else c.x == old(c.x) && c.y == old(c.y)
    {
      if !c.box.visible {
        return;
      }
      if px + c.box.w <= areaX + areaW {
        c.x, c.y := px, py;
      } else {
        px := areaX;
        py := py + c.box.h + CHILD_OFFSET;
        c.x, c.y := px, py;
        areaH := areaH + c.box.h + CHILD_OFFSET;
      }
      px := px + c.box.w + CHILD_OFFSET;
    }

    /** The same before scrolling. */
    function Home(): Area
      reads this
    {
      Area(x + BORDER_OFFSET, y + BORDER_OFFSET, w - BORDER_OFFSET)
    }

    /** reposition_childs, up to the scrollbar; ws are the children but the scrollbar. They
        flow from the group's corner, further up by what is scrolled, and stay inside its
        right edge if they are not too wide themselves. */
    method RepositionChilds(ws: seq<Widget>)
      requires Distinct(ws)
      modifies this`areaX, this`areaY, this`areaW, this`areaH, this`px, this`py, this`sval, ws
      ensures ws == [] ==> unchanged(this)
      ensures ws != [] ==> areaH == Laid(Boxes(ws), Home(), ws[0].box.h).height + BORDER_OFFSET && sval == 0
      ensures forall i :: 0 <= i < |ws| && ws[i].box.visible ==>
        Up(Laid(Boxes(ws), Home(), ws[0].box.h).spots[i], old(sval)) == Some(Spot(ws[i].x, ws[i].y))
      ensures forall i :: 0 <= i < |ws| && ws[i].box.visible && ws[i].box.w <= w - BORDER_OFFSET ==>
        x + BORDER_OFFSET <= ws[i].x <= ws[i].x + ws[i].box.w <= x + w
      ensures forall i :: 0 <= i < |ws| && !ws[i].box.visible ==> ws[i].x == old(ws[i].x) && ws[i].y == old(ws[i].y)
    {
      hide Laid, Put, Boxes, Distinct;
      if ws == [] {
        return;
      }
      areaX := x + BORDER_OFFSET;
      areaY := y + BORDER_OFFSET;
      areaW := w - BORDER_OFFSET;
      areaH := BORDER_OFFSET + ws[0].box.h;
      px := areaX;
      py := areaY;
      py := py - sval;
      ghost var bs, a, h := Boxes(ws), Room(), ws[0].box.h;
      NoneLaid(a, h);
      assert bs[..0] == [];
      for i := 0 to |ws|
        invariant areaX == a.x && areaW == a.w && sval == old(sval)
        invariant var f := Laid(bs[..i], a, h); f.px == px && f.py == py && f.height == areaH
        invariant forall k :: 0 <= k < i && ws[k].box.visible ==> Laid(bs[..i], a, h).spots[k] == Some(Spot(ws[k].x, ws[k].y))
        invariant forall k :: 0 <= k < |ws| && (k >= i || !ws[k].box.visible) ==> ws[k].x == old(ws[k].x) && ws[k].y == old(ws[k].y)
      {
        OneMore(bs, a, h, i);
        OthersDiffer(ws, i);
        PlaceChild(ws[i], Laid(bs[..i], a, h), a);
      }
      assert bs[..|ws|] == bs;
      ghost var home := Home();
      assert a == home.(y := home.y - sval);
      ScrollShifts(bs, home, h, sval);
      forall i | 0 <= i < |ws| && ws[i].box.visible && ws[i].box.w <= w - BORDER_OFFSET
        ensures x + BORDER_OFFSET <= ws[i].x <= ws[i].x + ws[i].box.w <= x + w
      {
        Inside(bs, a, h, i);
      }
      areaH := areaH + BORDER_OFFSET;
      sval := 0;
      assert Home() == home;
    }
  }

  lemma OthersDiffer(ws: seq<Widget>, i: nat)
    requires Distinct(ws) && i < |ws|
    ensures forall k :: 0 <= k < |ws| && k != i ==> ws[k] != ws[i]
  {
  }

  lemma NoneLaid(a: Area, h: nat)
    ensures Laid([], a, h) == Flow(a.x, a.y, BORDER_OFFSET + h, [])
  {
  }

  lemma OneMore(bs: seq<Box>, a: Area, h: nat, i: nat)
    requires i < |bs|
    ensures Laid(bs[..i + 1], a, h) == Put(Laid(bs[..i], a, h), bs[i], a)
    ensures Laid(bs[..i + 1], a, h).spots[..i] == Laid(bs[..i], a, h).spots
  {
    assert bs[..i + 1][..i] == bs[..i];
  }

  // ---- the scrollbar's place

  /** The others in their order. */
  function Without<T(==)>(s: seq<T>, x: T): seq<T> {
    if s == [] then [] else Without(s[..|s| - 1], x) + if s[|s| - 1] == x then [] else [s[|s| - 1]]
  }

  lemma {:induction false} WithoutLength<T>(s: seq<T>, x: T)
    requires Distinct(s)
    ensures |Without(s, x)| == |s| - if x in s then 1 else 0
  {
    if s != [] {
      WithoutLength(s[..|s| - 1], x);
    }
  }

  lemma WithoutNext<T>(s: seq<T>, j: nat, x: T)
    requires j < |s|
    ensures Without(s[..j + 1], x) == if s[j] == x then Without(s[..j], x) else Without(s[..j], x) + [s[j]]
  {
    assert s[..j + 1][..j] == s[..j];
  }

  /** fix_scrollbar_order: the array is compacted in place and the scrollbar put last. */
  method FixScrollbarOrder<T(==)>(arr: array<T>, scrollbar: T)
    requires Distinct(arr[..]) && scrollbar in arr[..]
    modifies arr
    ensures arr[..] == Without(old(arr[..]), scrollbar) + [scrollbar]
  {
    hide Without, Distinct;
    ghost var s := arr[..];
    var all := arr.Length;
    if arr[all - 1] == scrollbar {
      NoneTwice(s, scrollbar);
      return;
    }
    var i, j := 0, 0;
    assert s[..0] == [];
    WithoutAtMost(s[..0], scrollbar);
    while j < all
      invariant i <= j <= all && i == |Without(s[..j], scrollbar)|
      invariant forall k :: 0 <= k < i ==> arr[k] == Without(s[..j], scrollbar)[k]
      invariant forall k :: j <= k < all ==> arr[k] == s[k]
    {
      WithoutNext(s, j, scrollbar);
      if arr[j] != scrollbar {
        arr[i] := arr[j];
        i := i + 1;
      }
      j := j + 1;
    }
    assert s[..all] == s;
    WithoutLength(s, scrollbar);
    arr[i] := scrollbar;
  }

  lemma {:induction false} WithoutAtMost<T>(s: seq<T>, x: T)
    ensures |Without(s, x)| <= |s|
  {
    if s != [] {
      WithoutAtMost(s[..|s| - 1], x);
    }
  }

  lemma {:induction false} WithoutAbsent<T>(s: seq<T>, x: T)
    requires x !in s
    ensures Without(s, x) == s
  {
    if s != [] {
      WithoutAbsent(s[..|s| - 1], x);
    }
  }

  /** The others are those before x and those behind it. */
  lemma WithoutIs<T>(s: seq<T>, i: nat)
    requires Distinct(s) && i < |s|
    ensures Without(s, s[i]) == s[..i] + s[i + 1..]
  {
    hide Without, Distinct;
    OnceThere(s, i);
    WithoutAbsent(s[..i], s[i]);
    WithoutNext(s, i, s[i]);
    WithoutBehind(s, i + 1, s[i]);
  }

  lemma OnceThere<T>(s: seq<T>, i: nat)
    requires Distinct(s) && i < |s|
    ensures s[i] !in s[..i] && s[i] !in s[i + 1..]
  {
  }

  lemma {:induction false} WithoutBehind<T>(s: seq<T>, i: nat, x: T)
    requires i <= |s| && x !in s[i..]
    ensures Without(s, x) == Without(s[..i], x) + s[i..]
  {
    var n := |s| - 1;
    if i == |s| {
      assert s[..i] == s;
    } else {
      assert s[i..] == s[i..n] + [s[n]];
      assert s[..n][i..] == s[i..n] && s[..n][..i] == s[..i];
      WithoutBehind(s[..n], i, x);
    }
  }

  lemma NoneTwice<T>(s: seq<T>, x: T)
    requires Distinct(s) && s != [] && s[|s| - 1] == x
    ensures s == Without(s, x) + [x]
  {
    hide Without;
    var n := |s| - 1;
    assert x !in s[..n];
    WithoutAbsent(s[..n], x);
    assert s[..n + 1] == s;
    WithoutNext(s, n, x);
  }
}
