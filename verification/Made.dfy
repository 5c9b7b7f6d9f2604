/** What every value that a program can put together is like: arrays hold one type of
    element, dicts are uniform, at every depth, whatever is shared. */
module Made {
  import opened Values
  import DictRuns
  import opened Handles

  /** Elements of one outer type. */
  ghost predicate OneType(xs: seq<Value>) {
    forall x, y :: x in xs && y in xs ==> TypeOf(x) == TypeOf(y)
  }

  ghost predicate WellMade(v: Value) {
    match v
    case Invalid => true
    case Scalar(_) => true
    case Array(xs) => OneType(xs) && forall x :: x in xs ==> WellMade(x)
    case Struct(xs) => forall x :: x in xs ==> WellMade(x)
    case Dict(es) => DictRuns.Uniform(es) && forall e :: e in es ==> WellMade(e.value)
    case Variant(x) => WellMade(x)
  }

  /** An object of the program, as the value that boxing it would make. */
  ghost predicate WellMadeView(w: View) {
    match w
    case VData(v) => WellMade(v)
    case VDict(es) => WellMade(Dict(es))
    case VList(isArray, xs) => WellMade(if isArray then Array(xs) else Struct(xs))
    case VDead => true
  }

  ghost predicate AllWellMade(vs: seq<View>) {
    forall i :: 0 <= i < |vs| ==> WellMadeView(vs[i])
  }

  // ---- lists

  /** append changes an array exactly if it is empty or already holds an element of that
      type, and a struct always; then the value is its last element. */
  lemma AppendTakesIff(isArray: bool, xs: seq<Value>, v: Value)
    requires isArray ==> OneType(xs)
    ensures var r := Values.ListAppend(isArray, xs, v);
      && (r != xs <==> !isArray || xs == [] || exists x :: x in xs && TypeOf(x) == TypeOf(v))
      && (r != xs ==> r == xs + [v])
  {
    hide TypeOf;
    if xs != [] {
      assert xs[0] in xs;
    }
  }

  /** Whatever is taken out of a list, the rest was in it. */
  lemma SomeOf(isArray: bool, xs: seq<Value>, r: seq<Value>)
    requires WellMadeView(VList(isArray, xs)) && forall x :: x in r ==> x in xs
    ensures WellMadeView(VList(isArray, r))
  {
    hide TypeOf;
  }

  lemma AppendedList(isArray: bool, xs: seq<Value>, v: Value)
    requires WellMadeView(VList(isArray, xs)) && WellMade(v)
    ensures WellMadeView(VList(isArray, Values.ListAppend(isArray, xs, v)))
  {
    hide TypeOf;
    if xs != [] {
      assert xs[0] in xs;
    }
  }

  lemma {:induction false} LeftIn(xs: seq<Value>, v: Value, r: seq<Value>)
    requires MayLeave(xs, v, r)
    ensures forall x :: x in r ==> x in xs
  {
    hide Equal, Loose;
    if xs != [] {
      var n, m := |xs| - 1, |r| - 1;
      if Loose(xs[n], v) && MayLeave(xs[..n], v, r) {
        LeftIn(xs[..n], v, r);
      } else {
        LeftIn(xs[..n], v, r[..m]);
        assert r == r[..m] + [r[m]];
      }
    }
  }

  // ---- dicts

  lemma AppendedDict(es: seq<Entry>, k: Value, v: Value)
    requires WellMade(Dict(es)) && WellMade(v)
    ensures WellMade(Dict(Values.DictAppend(es, k, v)))
  {
    hide DictRuns.Uniform, DictAccepts, Equal, KeyAt;
    DictRuns.StepUniform(es, DictRuns.Append(k, v));
    var r := Values.DictAppend(es, k, v);
    forall e | e in r
      ensures WellMade(e.value)
    {
      var i :| 0 <= i < |r| && r[i] == e;
      assert i < |es| ==> es[i] in es;
    }
  }

  lemma RemovedDict(es: seq<Entry>, k: Value)
    requires WellMade(Dict(es))
    ensures WellMade(Dict(Values.DictRemove(es, k)))
  {
    hide DictRuns.Uniform, Equal, KeyAt;
    DictRuns.StepUniform(es, DictRuns.Remove(k));
  }

  lemma FoundMade(es: seq<Entry>, k: Value)
    requires WellMade(Dict(es))
    ensures WellMade(Values.DictFind(es, k))
  {
    hide DictRuns.Uniform, Equal, KeyAt;
    var i := KeyAt(es, k);
    assert i < |es| ==> es[i] in es;
  }

  lemma NothingMade()
    ensures WellMadeView(VDict([])) && WellMadeView(VList(true, [])) && WellMadeView(VList(false, []))
  {
  }

  // ---- runs

  /** The views a command makes anew or changes are well made. */
  lemma MayWellMade(vs: seq<View>, c: Command, r: seq<View>)
    requires AllWellMade(vs) && Ready(vs, c) && May(vs, c, r)
    ensures AllWellMade(r)
  {
    hide WellMade, MayFind, MayLeave, CutAt, IsBasic, Values.ListAppend, Values.DictAppend, Values.DictRemove, Values.DictFind;
    match c
    case ListRemove(i, w) =>
      assert WellMadeView(vs[i]);
      var n: nat :| MayFind(vs[i].xs, vs[w].v, n) && r == vs[i := VList(vs[i].isArray, CutAt(vs[i].xs, n))];
      CutIn(vs[i].xs, n);
      SomeOf(vs[i].isArray, vs[i].xs, CutAt(vs[i].xs, n));
    case ListRemoveAll(i, w) =>
      assert WellMadeView(vs[i]);
      var xs :| MayLeave(vs[i].xs, vs[w].v, xs) && r == vs[i := VList(vs[i].isArray, xs)];
      LeftIn(vs[i].xs, vs[w].v, xs);
      SomeOf(vs[i].isArray, vs[i].xs, xs);
    case _ => ApplyWellMade(vs, c);
  }

  lemma CutIn(xs: seq<Value>, n: nat)
    ensures forall x :: x in CutAt(xs, n) ==> x in xs
  {
  }

  lemma ApplyWellMade(vs: seq<View>, c: Command)
    requires AllWellMade(vs) && Ready(vs, c) && !c.ListRemove? && !c.ListRemoveAll?
    ensures AllWellMade(Apply(vs, c))
  {
    hide WellMade, IsBasic, Values.ListAppend, Values.DictAppend, Values.DictRemove, Values.DictFind;
    NothingMade();
    match c
    case NewBasic(v) => BasicMade(v);
    case Box(i) => BoxedMade(vs[i]);
    case BoxVariant(i) => VariantMade(vs[i].v);
    case Unbox(i) => UnboxedMade(vs[i].v);
    case DictAppend(i, k, w) => AppendedDict(vs[i].es, vs[k].v, vs[w].v);
    case DictRemove(i, k) => RemovedDict(vs[i].es, vs[k].v);
    case DictFind(i, k) => FoundMade(vs[i].es, vs[k].v);
    case ListAppend(i, w) => AppendedList(vs[i].isArray, vs[i].xs, vs[w].v);
    case ListGet(i, n) => ElementMade(vs[i].isArray, vs[i].xs, n);
    case _ =>
  }

  lemma BasicMade(v: Value)
    requires IsBasic(v)
    ensures WellMade(v)
  {
  }

  lemma BoxedMade(w: View)
    requires (w.VDict? || w.VList?) && WellMadeView(w)
    ensures WellMadeView(Boxed(w))
  {
  }

  lemma VariantMade(x: Value)
    requires WellMade(x)
    ensures WellMade(Variant(x))
  {
  }

  lemma UnboxedMade(v: Value)
    requires !IsBasic(v) && WellMade(v)
    ensures WellMadeView(Unboxed(v))
  {
  }

  lemma ElementMade(isArray: bool, xs: seq<Value>, n: nat)
    requires WellMadeView(VList(isArray, xs)) && n < |xs|
    ensures WellMade(xs[n])
  {
  }

  /** After every run, all that any object shows is well made. */
  lemma {:induction false} RunWellMade(vs: seq<View>, cs: seq<Command>, end: seq<View>)
    requires AllWellMade(vs) && Reaches(vs, cs, end)
    ensures AllWellMade(end)
    decreases |cs|
  {
    hide AllWellMade, May, Ready;
    if cs != [] {
      var r :| May(vs, cs[0], r) && Reaches(r, cs[1..], end);
      MayWellMade(vs, cs[0], r);
      RunWellMade(r, cs[1..], end);
    }
  }

  /** In particular of a program that starts with no objects. */
  lemma ProgramWellMade(cs: seq<Command>, end: seq<View>)
    requires Reaches([], cs, end)
    ensures AllWellMade(end)
  {
    RunWellMade([], cs, end);
  }
}
