/** Menu paths: what item_pathname writes for an item, what find_item finds for a path,
    and when the second undoes the first. */
module MenuPath {
  import opened Wrappers
  import opened MenuTree

  const PATH_MAX: nat := 1024

  type Path = seq<string>

  /** The path of each entry of the level's array, from the labels above it; an end of a
      level has none. */
  function Paths(m: Menu, above: Path): (ps: seq<Option<Path>>)
    requires WellFormed(m)
    ensures |ps| == |Flat(m)|
  {
    match m
    case End => [None]
    case Item(c, r) => [Some(above + [c.text.value])] + Paths(r, above)
    case Sub(c, i, r) => [Some(above + [c.text.value])] + Paths(i, above + [c.text.value]) + Paths(r, above)
  }

  /** Labels with "/" between them. */
  function Text(p: Path): string {
    if |p| == 0 then "" else if |p| == 1 then p[0] else Text(p[..|p| - 1]) + "/" + p[|p| - 1]
  }

  /** What item_pathname writes for an item: a leading "/" if it is in no submenu. */
  function Pathname(p: Path): string {
    if |p| == 1 then "/" + p[0] else Text(p)
  }

  predicate GoodLabel(s: string) {
    s != "" && '/' !in s
  }

  ghost predicate GoodPath(p: Path) {
    p != [] && forall i :: 0 <= i < |p| ==> GoodLabel(p[i])
  }

  /** Every label is a good one, and no entry is a submenu pointer. */
  predicate GoodLabels(m: Menu)
    requires WellFormed(m)
  {
    match m
    case End => true
    case Item(c, r) => GoodLabel(c.text.value) && !c.pointer && GoodLabels(r)
    case Sub(c, i, r) => GoodLabel(c.text.value) && !c.pointer && GoodLabels(i) && GoodLabels(r)
  }

  // ---- texts of good paths

  lemma TextAppend(p: Path, l: string)
    ensures Text(p + [l]) == if p == [] then l else Text(p) + "/" + l
  {
    assert (p + [l])[..|p|] == p;
  }

  lemma {:induction false} TextStarts(p: Path)
    requires GoodPath(p)
    ensures Text(p) != "" && Text(p)[0] != '/'
  {
    if |p| > 1 {
      TextStarts(p[..|p| - 1]);
    }
  }

  lemma SlashNotLater(a: string, l: string, b: string, k: string)
    requires '/' !in l && a + "/" + l == b + "/" + k
    ensures |b| <= |a|
  {
    assert (b + "/" + k)[|b|] == '/';
  }

  /** A "/" is found by the last one: two texts that end alike after it begin alike. */
  lemma LastSlash(a: string, l: string, b: string, k: string)
    requires '/' !in l && '/' !in k && a + "/" + l == b + "/" + k
    ensures a == b && l == k
  {
    var s := a + "/" + l;
    SlashNotLater(a, l, b, k);
    SlashNotLater(b, k, a, l);
    assert a == s[..|a|] && b == s[..|b|] && l == s[|a| + 1..] && k == s[|b| + 1..];
  }

  lemma SlashInText(p: Path)
    requires |p| > 1
    ensures '/' in Text(p)
  {
    assert Text(p)[|Text(p[..|p| - 1])|] == '/';
  }

  /** Good paths with the same text are the same. */
  lemma {:induction false} TextInjective(p: Path, q: Path)
    requires GoodPath(p) && GoodPath(q) && Text(p) == Text(q)
    ensures p == q
    decreases |p|
  {
    var m, n := |p| - 1, |q| - 1;
    if m > 0 && n > 0 {
      LastSlash(Text(p[..m]), p[m], Text(q[..n]), q[n]);
      TextInjective(p[..m], q[..n]);
      assert p == p[..m] + [p[m]] && q == q[..n] + [q[n]];
    } else if m > 0 {
      SlashInText(p);
      assert false;
    } else if n > 0 {
      SlashInText(q);
      assert false;
    }
  }

  /** strrchr and the cut: what remains when the last label is taken off. */
  function Pop(s: string): string {
    if s == "" then "" else if s[|s| - 1] == '/' then s[..|s| - 1] else Pop(s[..|s| - 1])
  }

  lemma {:induction false} PopTail(a: string, l: string)
    requires '/' !in l
    ensures Pop(a + l) == Pop(a)
  {
    if l == "" {
      assert a + l == a;
    } else {
      var n := |l| - 1;
      assert (a + l)[..|a + l| - 1] == a + l[..n];
      PopTail(a, l[..n]);
    }
  }

  lemma PopText(p: Path)
    requires GoodPath(p)
    ensures Pop(Text(p)) == Text(p[..|p| - 1])
  {
    var n := |p| - 1;
    if n == 0 {
      PopTail("", p[0]);
      assert "" + p[0] == p[0];
    } else {
      PopTail(Text(p[..n]) + "/", p[n]);
      assert (Text(p[..n]) + "/")[..|Text(p[..n])|] == Text(p[..n]);
    }
  }

  // ---- walking the array with the labels above

  function Up(above: Path): Path {
    if above == [] then [] else above[..|above| - 1]
  }

  /** The paths of what is left to walk. */
  ghost function PathsAll(ms: seq<Menu>, above: Path): (ps: seq<Option<Path>>)
    requires AllWellFormed(ms)
  {
    if ms == [] then [] else Paths(ms[0], above) + PathsAll(ms[1..], Up(above))
  }

  /** The path of the entry met, and the labels above the next one. */
  ghost function Met(m: Menu, above: Path): Option<Path>
    requires WellFormed(m)
  {
    if m.End? then None else Some(above + [m.cell.text.value])
  }

  ghost function Next(m: Menu, above: Path): Path
    requires WellFormed(m)
  {
    match m
    case End => Up(above)
    case Item(_, _) => above
    case Sub(c, _, _) => above + [c.text.value]
  }

  lemma PathsCons(m: Menu, ms: seq<Menu>, above: Path)
    requires WellFormed(m) && AllWellFormed(ms) && AllWellFormed([m] + ms)
    ensures PathsAll([m] + ms, above) == Paths(m, above) + PathsAll(ms, Up(above))
  {
    assert ([m] + ms)[1..] == ms;
  }

  lemma OpenedPaths(m: Menu, rest: seq<Menu>, above: Path)
    requires WellFormed(m) && AllWellFormed(rest) && AllWellFormed(Opened(m) + rest)
    ensures Paths(m, above) + PathsAll(rest, Up(above)) == [Met(m, above)] + PathsAll(Opened(m) + rest, Next(m, above))
  {
    hide Flat, FlatAll, PathsAll, AllWellFormed;
    match m {
      case End =>
        assert Opened(m) + rest == rest;
      case Item(_, r) =>
        PathsCons(r, rest, above);
      case Sub(c, i, r) =>
        assert Opened(m) + rest == [i] + ([r] + rest);
        RestWellFormed(Opened(m) + rest, [r] + rest);
        PathsCons(r, rest, above);
        PathsCons(i, [r] + rest, above + [c.text.value]);
        Regroup([Met(m, above)], Paths(i, above + [c.text.value]), Paths(r, above), PathsAll(rest, Up(above)));
    }
  }

  lemma RestWellFormed(ms: seq<Menu>, rest: seq<Menu>)
    requires AllWellFormed(ms) && ms != [] && rest == ms[1..]
    ensures AllWellFormed(rest)
  {
  }

  lemma Regroup<T>(a: seq<T>, b: seq<T>, c: seq<T>, d: seq<T>)
    ensures a + b + c + d == a + (b + (c + d))
  {
  }

  lemma AdvancePaths(ms: seq<Menu>, above: Path)
    requires ms != [] && AllWellFormed(ms) && AllWellFormed(Advance(ms))
    ensures PathsAll(ms, above) == [Met(ms[0], above)] + PathsAll(Advance(ms), Next(ms[0], above))
  {
    hide Flat, FlatAll, PathsAll, Paths, Opened;
    assert ms == [ms[0]] + ms[1..];
    RestWellFormed(ms, ms[1..]);
    PathsCons(ms[0], ms[1..], above);
    OpenedPaths(ms[0], ms[1..], above);
  }

  /** The walk is at entry t. */
  ghost predicate At(level: Menu, t: nat, ms: seq<Menu>, above: Path)
    requires WellFormed(level)
  {
    && AllWellFormed(ms) && |ms| == (if ms == [] then 0 else |above| + 1) && t <= |Flat(level)|
    && PathsAll(ms, above) == Paths(level, [])[t..] && FlatAll(ms) == Flat(level)[t..]
  }

  lemma AtStart(level: Menu)
    requires WellFormed(level)
    ensures At(level, 0, [level], [])
  {
    hide Flat, Paths;
    Single(level);
    PathsCons(level, [], []);
    assert [level] + [] == [level];
  }

  /** One step of the walk. */
  lemma AtNext(level: Menu, t: nat, ms: seq<Menu>, above: Path)
    requires WellFormed(level) && At(level, t, ms, above) && t < |Flat(level)|
    ensures ms != [] && WellFormed(ms[0]) && Flat(level)[t] == Head(ms[0]) && Paths(level, [])[t] == Met(ms[0], above)
    ensures At(level, t + 1, Advance(ms), Next(ms[0], above))
  {
    hide Flat, Paths, PathsAll, Opened, WellFormed, FlatAll, AllWellFormed;
    Something(ms);
    FirstWellFormed(ms);
    AdvanceFlat(ms);
    AdvancePaths(ms, above);
    Depth(ms, above);
    Behead(Flat(level), t, Head(ms[0]), FlatAll(Advance(ms)));
    Behead(Paths(level, []), t, Met(ms[0], above), PathsAll(Advance(ms), Next(ms[0], above)));
  }

  lemma Something(ms: seq<Menu>)
    ensures FlatAll(ms) != [] ==> ms != []
  {
  }

  lemma FirstWellFormed(ms: seq<Menu>)
    requires ms != [] && AllWellFormed(ms)
    ensures WellFormed(ms[0])
  {
  }

  lemma Depth(ms: seq<Menu>, above: Path)
    requires ms != [] && |ms| == |above| + 1 && WellFormed(ms[0])
    ensures var n := Advance(ms);
      |n| == if n == [] then 0 else |Next(ms[0], above)| + 1
  {
  }

  lemma Behead<T>(s: seq<T>, t: nat, x: T, rest: seq<T>)
    requires t <= |s| && s[t..] == [x] + rest
    ensures t < |s| && s[t] == x && s[t + 1..] == rest
  {
    assert s[t] == s[t..][0] && s[t + 1..] == s[t..][1..];
  }

  ghost predicate AllGood(ms: seq<Menu>) {
    forall i :: 0 <= i < |ms| ==> WellFormed(ms[i]) && GoodLabels(ms[i])
  }

  /** The labels to come and those above are good. */
  ghost predicate Tracks(ms: seq<Menu>, above: Path) {
    AllGood(ms) && (above != [] ==> GoodPath(above))
  }

  lemma TracksNext(ms: seq<Menu>, above: Path)
    requires ms != [] && Tracks(ms, above)
    ensures Tracks(Advance(ms), Next(ms[0], above))
    ensures !ms[0].End? ==> GoodPath(above + [ms[0].cell.text.value]) && !ms[0].cell.pointer
  {
    assert WellFormed(ms[0]) && GoodLabels(ms[0]);
  }

  /** A label put behind a path, with a "/" if there is one to put it behind. */
  function Extend(s: string, l: string): string {
    (if s == "" then "" else s + "/") + l
  }

  lemma ExtendText(above: Path, l: string)
    requires above != [] ==> GoodPath(above)
    ensures Extend(Text(above), l) == Text(above + [l])
  {
    TextAppend(above, l);
    if above != [] {
      TextStarts(above);
    }
  }

  /** What the walks do to their buffer follows the labels above. */
  lemma BufferNext(ms: seq<Menu>, above: Path)
    requires ms != [] && WellFormed(ms[0]) && Tracks(ms, above)
    ensures Tracks(Advance(ms), Next(ms[0], above))
    ensures ms[0].End? ==> Text(Next(End, above)) == Pop(Text(above))
    ensures !ms[0].End? ==> Met(ms[0], above).Some? && GoodPath(Met(ms[0], above).value)
    ensures !ms[0].End? ==> Text(Met(ms[0], above).value) == Extend(Text(above), ms[0].cell.text.value)
  {
    hide AllGood, Text, Pop, Extend;
    TracksNext(ms, above);
    if ms[0].End? {
      if above == [] {
        PopNothing();
      } else {
        PopText(above);
      }
    } else {
      ExtendText(above, ms[0].cell.text.value);
    }
  }

  lemma PopNothing()
    ensures Pop(Text([])) == Text([]) == ""
  {
  }

  /** edelib_strlcat into a buffer of PATH_MAX. */
  function Strlcat(d: string, s: string): (r: string)
    requires |d| < PATH_MAX
    ensures |r| < PATH_MAX
  {
    if |d + s| < PATH_MAX then d + s else (d + s)[..PATH_MAX - 1]
  }

  function ExtendBuffer(s: string, l: string): (r: string)
    requires |s| < PATH_MAX
    ensures |r| < PATH_MAX && (|Extend(s, l)| < PATH_MAX ==> r == Extend(s, l))
  {
    Strlcat(if s == "" then "" else Strlcat(s, "/"), l)
  }

  /** Good labels and paths that fit find_item's buffers. */
  ghost predicate Addressable(level: Menu)
    requires WellFormed(level)
  {
    && GoodLabels(level)
    && forall t :: 0 <= t < |Paths(level, [])| && Paths(level, [])[t].Some? ==> |Text(Paths(level, [])[t].value)| < PATH_MAX
  }

  ghost predicate Named(level: Menu, t: nat, name: string)
    requires WellFormed(level) && t < |Flat(level)|
  {
    Paths(level, [])[t].Some? && Text(Paths(level, [])[t].value) == name
  }

  /** r is the first entry of that name, if there is one. */
  ghost predicate IsFirst(level: Menu, name: string, r: Option<nat>)
    requires WellFormed(level)
  {
    match r
    case Some(t) => t < |Flat(level)| && Named(level, t, name) && forall u: nat :: u < t ==> !Named(level, u, name)
    case None => forall u: nat :: u < |Flat(level)| ==> !Named(level, u, name)
  }

  lemma HoldsAt(menu: array<Cell>, s: seq<Cell>, t: nat)
    requires Holds(menu, 0, s) && t < |s|
    ensures t < menu.Length && menu[t] == s[t]
  {
    assert menu[0..|s|][t] == menu[t];
  }

  lemma GoodStart(level: Menu)
    requires WellFormed(level) && GoodLabels(level)
    ensures Tracks([level], [])
  {
  }

  /** find_item, the array's size being computed once. */
  method FindItem(menu: array<Cell>, name: string, ghost level: Menu) returns (r: Option<nat>)
    requires WellFormed(level) && Holds(menu, 0, Flat(level))
    ensures Addressable(level) ==> IsFirst(level, name, r)
  {
    hide Flat, Paths, WellFormed, Holds, At, Tracks, Advance, Text, Pop, Extend, ExtendBuffer, GoodLabels, GoodPath;
    var size := Size(menu, 0, level);
    var menupath, t := "", 0;
    ghost var ms, above, fine := [level], [], Addressable(level);
    AtStart(level);
    PopNothing();
    if fine {
      GoodStart(level);
    }
    while t < size
      invariant t <= size && At(level, t, ms, above) && |menupath| < PATH_MAX
      invariant fine ==> Tracks(ms, above) && menupath == Text(above)
      invariant fine ==> forall u: nat :: u < t ==> !Named(level, u, name)
    {
      AtNext(level, t, ms, above);
      HoldsAt(menu, Flat(level), t);
      FirstKind(ms[0]);
      if fine {
        BufferNext(ms, above);
      }
      if menu[t].submenu {
        menupath := ExtendBuffer(menupath, menu[t].text.value);
        if menupath == name {
          return Some(t);
        }
      } else if menu[t].text == None {
        menupath := PopBuffer(menupath);
      } else {
        var itempath := ExtendBuffer(menupath, menu[t].text.value);
        if itempath == name {
          return Some(t);
        }
      }
      ms, above := Advance(ms), Next(ms[0], above);
      t := t + 1;
    }
    return None;
  }

  function PopBuffer(s: string): (r: string)
    ensures |r| <= |s| && r == Pop(s)
  {
    PopShorter(s);
    Pop(s)
  }

  lemma {:induction false} PopShorter(s: string)
    ensures |Pop(s)| <= |s|
  {
    if s != "" {
      PopShorter(s[..|s| - 1]);
    }
  }

  lemma FirstKind(m: Menu)
    requires WellFormed(m)
    ensures Head(m).text == None <==> m.End?
    ensures !m.End? ==> (Head(m).submenu <==> m.Sub?)
    ensures m.End? ==> !Head(m).submenu && !Head(m).pointer
  {
  }

  // ---- item_pathname

  ghost predicate IsItem(level: Menu, x: Option<nat>)
  {
    x.Some? && x.value < |Flat(level)| && Flat(level)[x.value].text.Some? && !Flat(level)[x.value].submenu
  }

  /** Entry t, on the way to x, gives a name that namelen cannot hold. */
  ghost predicate TooLong(level: Menu, namelen: nat, x: Option<nat>, t: nat)
    requires WellFormed(level) && t < |Flat(level)|
  {
    Paths(level, [])[t].Some? &&
    if Flat(level)[t].submenu then (IsItem(level, x) ==> t < x.value) && |Text(Paths(level, [])[t].value)| >= namelen
    else x == Some(t) && |Pathname(Paths(level, [])[t].value)| >= namelen
  }

  ghost predicate Fits(level: Menu, namelen: nat, x: Option<nat>)
    requires WellFormed(level)
  {
    forall t: nat :: t < |Flat(level)| ==> !TooLong(level, namelen, x, t)
  }

  /** 0 and the item's name; -1 if there is no such item; -2 if a name does not fit. */
  ghost predicate Printed(level: Menu, namelen: nat, x: Option<nat>, ret: int, name: string)
    requires WellFormed(level)
  {
    if !Fits(level, namelen, x) then ret == -2 && name == ""
    else if IsItem(level, x) then
      ret == 0 && Paths(level, [])[x.value].Some? && name == Pathname(Paths(level, [])[x.value].value)
    else ret == -1 && name == ""
  }

  /** SAFE_STRCAT: len counts what is to be written before anything is. */
  method SafeStrcat(name: string, len: nat, s: string, namelen: nat) returns (r: Option<string>, total: nat)
    requires len == |name|
    ensures total == len + |s|
    ensures r == if |name + s| >= namelen then None else Some(name + s)
  {
    total := len + |s|;
    r := if total >= namelen then None else Some(name + s);
  }

  /** A label put behind the name, with a "/" if slash. */
  method Write(name: string, len: nat, slash: bool, label_: string, namelen: nat) returns (r: Option<string>, total: nat)
    requires len == |name|
    ensures var s := (if slash then name + "/" else name) + label_;
      r == (if |s| >= namelen then None else Some(s)) && (r.Some? ==> total == |s|)
  {
    r, total := Some(name), len;
    if slash {
      r, total := SafeStrcat(name, len, "/", namelen);
    }
    if r.Some? {
      r, total := SafeStrcat(r.value, total, label_, namelen);
    }
  }

  /** item_pathname, for the item that x points to. */
  method ItemPathname(menu: array<Cell>, namelen: nat, x: Option<nat>, ghost level: Menu) returns (ret: int, name: string)
    requires WellFormed(level) && Holds(menu, 0, Flat(level)) && namelen > 0
    ensures GoodLabels(level) ==> Printed(level, namelen, x, ret, name)
  {
    hide Flat, Paths, WellFormed, Holds, At, Tracks, Advance, Text, Pop, Extend, GoodLabels, GoodPath, Pathname;
    var size := Size(menu, 0, level);
    var len, t := 0, 0;
    name := "";
    ghost var ms, above, fine := [level], [], GoodLabels(level);
    AtStart(level);
    PopNothing();
    if fine {
      GoodStart(level);
    }
    while t < size
      invariant t <= size && At(level, t, ms, above) && len == |name|
      invariant fine ==> Tracks(ms, above) && name == Text(above)
      invariant fine ==> forall u: nat :: u < t ==> !TooLong(level, namelen, x, u)
      invariant fine && IsItem(level, x) ==> t <= x.value
    {
      AtNext(level, t, ms, above);
      HoldsAt(menu, Flat(level), t);
      FirstKind(ms[0]);
      if fine {
        BufferNext(ms, above);
        TracksNext(ms, above);
        Separators(above, ms[0]);
      }
      if menu[t].submenu || menu[t].pointer {
        var written, total := Write(name, len, name != "", menu[t].text.value, namelen);
        if written == None {
          assert fine ==> TooLong(level, namelen, x, t);
          return -2, "";
        }
        name, len := written.value, total;
      } else if menu[t].text.Some? {
        if x == Some(t) {
          var written, _ := Write(name, len, true, menu[t].text.value, namelen);
          if written == None {
            assert fine ==> TooLong(level, namelen, x, t);
            return -2, "";
          }
          return 0, written.value;
        }
      } else {
        name := Pop(name);
        len := |name|;
      }
      ms, above := Advance(ms), Next(ms[0], above);
      t := t + 1;
    }
    return -1, "";
  }

  /** Which text a label completes behind a separator. */
  lemma Separators(above: Path, m: Menu)
    requires WellFormed(m) && !m.End? ==> GoodPath(above + [m.cell.text.value])
    ensures WellFormed(m) && !m.End? ==>
      var l := m.cell.text.value;
      && Extend(Text(above), l) == (if Text(above) != "" then Text(above) + "/" else Text(above)) + l
      && Pathname(above + [l]) == Text(above) + "/" + l
  {
    if WellFormed(m) && !m.End? {
      TextAppend(above, m.cell.text.value);
    }
  }

  // ---- printing and finding again

  lemma {:induction false} PathsGood(m: Menu, above: Path)
    requires WellFormed(m) && GoodLabels(m) && (above != [] ==> GoodPath(above))
    ensures forall t :: 0 <= t < |Paths(m, above)| && Paths(m, above)[t].Some? ==> GoodPath(Paths(m, above)[t].value)
  {
    match m {
      case End =>
      case Item(c, r) => PathsGood(r, above);
      case Sub(c, i, r) =>
        PathsGood(i, above + [c.text.value]);
        PathsGood(r, above);
    }
  }

  /** An entry has a path exactly if it has a label. */
  lemma {:induction false} LabelledHasPath(m: Menu, above: Path)
    requires WellFormed(m)
    ensures forall t :: 0 <= t < |Flat(m)| ==> (Paths(m, above)[t].Some? <==> Flat(m)[t].text.Some?)
  {
    match m {
      case End =>
      case Item(c, r) => LabelledHasPath(r, above);
      case Sub(c, i, r) =>
        LabelledHasPath(i, above + [c.text.value]);
        LabelledHasPath(r, above);
    }
  }

  /** No entry before x has x's path. */
  ghost predicate FirstOfPath(level: Menu, x: nat)
    requires WellFormed(level) && x < |Flat(level)|
  {
    forall u: nat :: u < x ==> Paths(level, [])[u] != Paths(level, [])[x]
  }

  /** Looking for the name that was printed for an item gives that item, exactly when the
      item is in some submenu and no entry before it has the same path. */
  lemma FoundIff(level: Menu, x: nat, r: Option<nat>)
    requires WellFormed(level) && GoodLabels(level) && IsItem(level, Some(x)) && Paths(level, [])[x].Some?
    requires IsFirst(level, Pathname(Paths(level, [])[x].value), r)
    ensures r == Some(x) <==> |Paths(level, [])[x].value| > 1 && FirstOfPath(level, x)
    ensures |Paths(level, [])[x].value| == 1 ==> r == None
  {
    hide Flat, Paths, WellFormed, GoodLabels, GoodPath, Text;
    var p := Paths(level, [])[x].value;
    var name := Pathname(p);
    PathsGood(level, []);
    assert GoodPath(p);
    NamesOfPaths(level, p);
    assert Named(level, x, name) <==> |p| > 1;
  }

  /** An entry goes by p's printed name exactly if p is its path and has labels above. */
  lemma NamesOfPaths(level: Menu, p: Path)
    requires WellFormed(level) && GoodLabels(level) && GoodPath(p)
    ensures forall u: nat :: u < |Flat(level)| ==> (Named(level, u, Pathname(p)) <==> |p| > 1 && Paths(level, [])[u] == Some(p))
  {
    hide Flat, Paths, WellFormed, GoodLabels, Text;
    PathsGood(level, []);
    forall u: nat | u < |Flat(level)|
      ensures Named(level, u, Pathname(p)) <==> |p| > 1 && Paths(level, [])[u] == Some(p)
    {
      var q := Paths(level, [])[u];
      if q.Some? {
        TextStarts(q.value);
        if Text(q.value) == Text(p) {
          TextInjective(q.value, p);
        }
      }
    }
  }

  /** The one item of a menu bar is printed with a "/" under which it is not found. */
  lemma TopLevelLost(r: Option<nat>)
    requires IsFirst(Item(END.(text := Some("Quit")), End), "/Quit", r)
    ensures Pathname(["Quit"]) == "/Quit" && r == None
  {
    var level := Item(END.(text := Some("Quit")), End);
    assert WellFormed(level);
    assert [] + ["Quit"] == ["Quit"] && Paths(End, []) == [None];
    assert Paths(level, []) == [Some(["Quit"])] + Paths(End, []);
    assert "/Quit"[0] != "Quit"[0];
  }

  /** The two walks, one after the other. */
  method PrintAndFind(menu: array<Cell>, namelen: nat, x: nat, ghost level: Menu) returns (ret: int, r: Option<nat>)
    requires WellFormed(level) && Holds(menu, 0, Flat(level)) && namelen > 0
    requires Addressable(level) && IsItem(level, Some(x))
    ensures ret == 0 <==> Fits(level, namelen, Some(x))
    ensures Paths(level, [])[x].Some?
    ensures ret == 0 ==> (r == Some(x) <==> |Paths(level, [])[x].value| > 1 && FirstOfPath(level, x))
  {
    hide Flat, Paths, WellFormed, GoodLabels, Text, Pathname, TooLong, FirstOfPath, Fits;
    LabelledHasPath(level, []);
    var name;
    ret, name := ItemPathname(menu, namelen, Some(x), level);
    r := FindItem(menu, name, level);
    if ret == 0 {
      FoundIff(level, x, r);
    }
  }
}
