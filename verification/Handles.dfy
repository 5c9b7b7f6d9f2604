/** What a program sees: its own EdbusData, EdbusDict and EdbusList objects, and what
    they would hold if every copy were a deep copy. */
module Handles {
  import opened Values
  import opened Blocks

  /** One of the program's objects. An EdbusVariant is its one EdbusData. */
  datatype Handle = DataH(p: Ptr) | DictH(p: Ptr) | ListH(isArray: bool, p: Ptr) | Dead

  /** The value such an object holds. */
  datatype View = VData(v: Value) | VDict(es: seq<Entry>) | VList(isArray: bool, xs: seq<Value>) | VDead

  function PtrOf(h: Handle): multiset<Ptr> {
    if h.Dead? then multiset{} else multiset{h.p}
  }

  function Refs(hs: seq<Handle>): multiset<Ptr> {
    if hs == [] then multiset{} else Refs(hs[..|hs| - 1]) + PtrOf(hs[|hs| - 1])
  }

  ghost predicate Fits(h: Handle, val: seq<Abs>) {
    match h
    case DataH(p) => p < |val| && val[p].Data?
    case DictH(p) => p < |val| && val[p].Entries?
    case ListH(_, p) => p < |val| && val[p].Items?
    case Dead => true
  }

  ghost function ViewOf(h: Handle, val: seq<Abs>): View
    requires Fits(h, val)
  {
    match h
    case DataH(p) => VData(val[p].v)
    case DictH(p) => VDict(val[p].es)
    case ListH(isArray, p) => VList(isArray, val[p].xs)
    case Dead => VDead
  }

  // ---- the reference semantics: values only, nothing shared

  datatype Command =
    | NewBasic(v: Value)
    | NewDict
    | NewList(isArray: bool)
    | Copy(i: nat)
    | Assign(i: nat, j: nat)
    | Destroy(i: nat)
    | Box(i: nat)
    | BoxVariant(i: nat)
    | Unbox(i: nat)
    | DictAppend(i: nat, k: nat, w: nat)
    | DictRemove(i: nat, k: nat)
    | DictClear(i: nat)
    | DictFind(i: nat, k: nat)
    | ListAppend(i: nat, w: nat)
    | ListRemove(i: nat, w: nat)
    | ListRemoveAll(i: nat, w: nat)
    | ListClear(i: nat)
    | ListGet(i: nat, n: nat)

  predicate IsDict(vs: seq<View>, i: nat) { i < |vs| && vs[i].VDict? }
  predicate IsList(vs: seq<View>, i: nat) { i < |vs| && vs[i].VList? }
  predicate IsDatum(vs: seq<View>, i: nat) { i < |vs| && vs[i].VData? }

  predicate OnDict(c: Command) {
    c.DictAppend? || c.DictRemove? || c.DictClear? || c.DictFind?
  }

  predicate OnList(c: Command) {
    c.ListAppend? || c.ListRemove? || c.ListRemoveAll? || c.ListClear? || c.ListGet?
  }

  predicate SameClass(a: View, b: View) {
    (a.VData? && b.VData?) || (a.VDict? && b.VDict?) || (a.VList? && b.VList?)
  }

  /** What the C++ types and the E_ASSERTs of the to_ functions ask of a caller. */
  predicate Ready(vs: seq<View>, c: Command) {
    match c
    case NewBasic(v) => IsBasic(v)
    case NewDict => true
    case NewList(_) => true
    case Copy(i) => i < |vs| && !vs[i].VDead?
    case Assign(i, j) => i < |vs| && j < |vs| && SameClass(vs[i], vs[j])
    case Destroy(i) => i < |vs| && !vs[i].VDead?
    case Box(i) => IsDict(vs, i) || IsList(vs, i)
    case BoxVariant(i) => IsDatum(vs, i)
    case Unbox(i) => IsDatum(vs, i) && !IsBasic(vs[i].v)
    case DictAppend(i, k, w) => IsDict(vs, i) && IsDatum(vs, k) && IsDatum(vs, w)
    case DictRemove(i, k) => IsDict(vs, i) && IsDatum(vs, k)
    case DictClear(i) => IsDict(vs, i)
    case DictFind(i, k) => IsDict(vs, i) && IsDatum(vs, k)
    case ListAppend(i, w) => IsList(vs, i) && IsDatum(vs, w)
    case ListRemove(i, w) => IsList(vs, i) && IsDatum(vs, w)
    case ListRemoveAll(i, w) => IsList(vs, i) && IsDatum(vs, w)
    case ListClear(i) => IsList(vs, i)
    case ListGet(i, n) => IsList(vs, i) && n < |vs[i].xs|
  }

  function Boxed(w: View): View
    requires w.VDict? || w.VList?
  {
    if w.VDict? then VData(Dict(w.es))
    else VData(if w.isArray then Array(w.xs) else Struct(w.xs))
  }

  function Unboxed(v: Value): View
    requires !IsBasic(v)
  {
    match v
    case Array(xs) => VList(true, xs)
    case Struct(xs) => VList(false, xs)
    case Dict(es) => VDict(es)
    case Variant(x) => VData(x)
  }

  /** A container taken out of data is the one that was put in, and data made of what was
      taken out is the data that it was taken from. */
  lemma BoxUnbox(w: View, v: Value)
    requires w.VDict? || w.VList?
    ensures Boxed(w).VData? && !IsBasic(Boxed(w).v) && Unboxed(Boxed(w).v) == w
    ensures v.Array? || v.Struct? || v.Dict? ==> !IsBasic(v) && !Unboxed(v).VDead? && !Unboxed(v).VData? && Boxed(Unboxed(v)) == VData(v)
  {
  }

  /** The effect of a command on the objects' values: a new object at the end, or
      one object changed. */
  function Apply(vs: seq<View>, c: Command): seq<View>
    requires Ready(vs, c)
  {
    match c
    case NewBasic(v) => vs + [VData(v)]
    case NewDict => vs + [VDict([])]
    case NewList(isArray) => vs + [VList(isArray, [])]
    case Copy(i) => vs + [vs[i]]
    case Assign(i, j) => vs[i := vs[j]]
    case Destroy(i) => vs[i := VDead]
    case Box(i) => vs + [Boxed(vs[i])]
    case BoxVariant(i) => vs + [VData(Variant(vs[i].v))]
    case Unbox(i) => vs + [Unboxed(vs[i].v)]
    case DictAppend(i, k, w) => vs[i := VDict(Values.DictAppend(vs[i].es, vs[k].v, vs[w].v))]
    case DictRemove(i, k) => vs[i := VDict(Values.DictRemove(vs[i].es, vs[k].v))]
    case DictClear(i) => vs[i := VDict([])]
    case DictFind(i, k) => vs + [VData(Values.DictFind(vs[i].es, vs[k].v))]
    case ListAppend(i, w) => vs[i := VList(vs[i].isArray, Values.ListAppend(vs[i].isArray, vs[i].xs, vs[w].v))]
    case ListRemove(i, w) => vs[i := VList(vs[i].isArray, Values.ListRemove(vs[i].xs, vs[w].v))]
    case ListRemoveAll(i, w) => vs[i := VList(vs[i].isArray, Values.ListRemoveAll(vs[i].xs, vs[w].v))]
    case ListClear(i) => vs[i := VList(vs[i].isArray, [])]
    case ListGet(i, n) => vs + [VData(vs[i].xs[n])]
  }

  /** A removal by a firm value, or any other command: sharing cannot matter. */
  predicate Steady(vs: seq<View>, c: Command)
    requires Ready(vs, c)
  {
    c.ListRemove? || c.ListRemoveAll? ==> Firm(vs[c.w].v)
  }

  /** The effects that a command may have. A removal by a value that is not firm may or may
      not take an element for it, as they share or not; nothing else is open. */
  ghost predicate May(vs: seq<View>, c: Command, r: seq<View>)
    requires Ready(vs, c)
  {
    match c
    case ListRemove(i, w) =>
      exists n: nat :: MayFind(vs[i].xs, vs[w].v, n) && r == vs[i := VList(vs[i].isArray, CutAt(vs[i].xs, n))]
    case ListRemoveAll(i, w) =>
      exists xs :: MayLeave(vs[i].xs, vs[w].v, xs) && r == vs[i := VList(vs[i].isArray, xs)]
    case _ => r == Apply(vs, c)
  }

  lemma ApplyMay(vs: seq<View>, c: Command)
    requires Ready(vs, c)
    ensures May(vs, c, Apply(vs, c))
  {
    hide MayFind, MayLeave, CutAt, ItemAt, Values.ListRemoveAll;
    if c.ListRemove? {
      ItemAtMayFind(vs[c.i].xs, vs[c.w].v);
    }
    if c.ListRemoveAll? {
      RemoveAllMayLeave(vs[c.i].xs, vs[c.w].v);
    }
  }

  lemma SteadyMay(vs: seq<View>, c: Command, r: seq<View>)
    requires Ready(vs, c) && Steady(vs, c) && May(vs, c, r)
    ensures r == Apply(vs, c)
  {
    hide MayFind, MayLeave, CutAt, ItemAt, Values.ListRemoveAll, Firm;
    if c.ListRemove? {
      var n: nat :| MayFind(vs[c.i].xs, vs[c.w].v, n) && r == vs[c.i := VList(vs[c.i].isArray, CutAt(vs[c.i].xs, n))];
      MayFindFirm(vs[c.i].xs, vs[c.w].v, n);
    }
    if c.ListRemoveAll? {
      var xs :| MayLeave(vs[c.i].xs, vs[c.w].v, xs) && r == vs[c.i := VList(vs[c.i].isArray, xs)];
      MayLeaveFirm(vs[c.i].xs, vs[c.w].v, xs);
    }
  }

  /** Whatever the earlier commands do, each command is one that a caller may give. */
  ghost predicate AllReady(vs: seq<View>, cs: seq<Command>)
    decreases |cs|
  {
    cs == [] || (Ready(vs, cs[0]) && forall r :: May(vs, cs[0], r) ==> AllReady(r, cs[1..]))
  }

  /** The objects' values that a run may end with. */
  ghost predicate Reaches(vs: seq<View>, cs: seq<Command>, end: seq<View>)
    decreases |cs|
  {
    if cs == [] then end == vs
    else Ready(vs, cs[0]) && exists r :: May(vs, cs[0], r) && Reaches(r, cs[1..], end)
  }

  /** No command of the run removes by a value that is not firm. */
  predicate AllSteady(vs: seq<View>, cs: seq<Command>)
    decreases |cs|
  {
    cs == [] || (Ready(vs, cs[0]) && Steady(vs, cs[0]) && AllSteady(Apply(vs, cs[0]), cs[1..]))
  }

  function ApplyAll(vs: seq<View>, cs: seq<Command>): seq<View>
    requires AllSteady(vs, cs)
    decreases |cs|
  {
    if cs == [] then vs else ApplyAll(Apply(vs, cs[0]), cs[1..])
  }

  /** A run of such commands has one end. */
  lemma {:induction false} SteadyReaches(vs: seq<View>, cs: seq<Command>, end: seq<View>)
    requires AllSteady(vs, cs) && Reaches(vs, cs, end)
    ensures end == ApplyAll(vs, cs)
    decreases |cs|
  {
    hide Ready, Steady, May, Apply;
    if cs != [] {
      var r :| May(vs, cs[0], r) && Reaches(r, cs[1..], end);
      SteadyMay(vs, cs[0], r);
      SteadyReaches(r, cs[1..], end);
    }
  }

  // ---- counting the program's handles

  lemma {:induction false} RefsUpdate(hs: seq<Handle>, i: nat, h: Handle)
    requires i < |hs|
    ensures Refs(hs[i := h]) + PtrOf(hs[i]) == Refs(hs) + PtrOf(h)
  {
    hide PtrOf;
    var n := |hs| - 1;
    var r := hs[i := h];
    if i == n {
      assert r[..n] == hs[..n];
    } else {
      assert r[..n] == hs[..n][i := h] && r[n] == hs[n];
      RefsUpdate(hs[..n], i, h);
      Exchange(Refs(hs[..n][i := h]), PtrOf(hs[i]), Refs(hs[..n]), PtrOf(h), PtrOf(hs[n]));
    }
  }

  lemma RefsSnoc(hs: seq<Handle>, h: Handle)
    ensures Refs(hs + [h]) == Refs(hs) + PtrOf(h)
  {
    assert (hs + [h])[..|hs|] == hs;
  }

  lemma {:induction false} RefsHas(hs: seq<Handle>, i: nat)
    requires i < |hs| && !hs[i].Dead?
    ensures hs[i].p in Refs(hs)
  {
    if i < |hs| - 1 {
      RefsHas(hs[..|hs| - 1], i);
    }
  }

  lemma MoveOver(a: multiset<Ptr>, x: multiset<Ptr>, b: multiset<Ptr>, y: multiset<Ptr>)
    requires a + x == b + y && x <= b
    ensures a == b - x + y
  {
    forall p
      ensures a[p] == (b - x + y)[p]
    {
      assert (a + x)[p] == (b + y)[p];
    }
  }

  lemma RefsReplace(hs: seq<Handle>, i: nat, h: Handle)
    requires i < |hs|
    ensures Refs(hs[i := h]) == Refs(hs) - PtrOf(hs[i]) + PtrOf(h)
  {
    RefsUpdate(hs, i, h);
    if !hs[i].Dead? {
      RefsHas(hs, i);
    }
    MoveOver(Refs(hs[i := h]), PtrOf(hs[i]), Refs(hs), PtrOf(h));
  }

  /** Another object's handle is still counted when one object's handle is taken away. */
  lemma RefsOther(hs: seq<Handle>, i: nat, j: nat)
    requires i < |hs| && j < |hs| && i != j && !hs[j].Dead?
    ensures hs[j].p in Refs(hs) - PtrOf(hs[i])
  {
    RefsReplace(hs, i, Dead);
    RefsHas(hs[i := Dead], j);
  }

  // ---- what the program's objects show

  ghost predicate AllFit(hs: seq<Handle>, val: seq<Abs>) {
    forall i :: 0 <= i < |hs| ==> Fits(hs[i], val)
  }

  ghost function Views(hs: seq<Handle>, val: seq<Abs>): (r: seq<View>)
    requires AllFit(hs, val)
    ensures |r| == |hs|
    ensures forall i :: 0 <= i < |hs| ==> r[i] == ViewOf(hs[i], val)
  {
    if hs == [] then [] else [ViewOf(hs[0], val)] + Views(hs[1..], val)
  }

  lemma ViewsPush(hs: seq<Handle>, h: Handle, val: seq<Abs>, val': seq<Abs>)
    requires AllFit(hs, val) && Fits(h, val')
    requires |val| <= |val'| && forall p :: 0 <= p < |val| ==> val'[p] == val[p]
    ensures AllFit(hs + [h], val') && Views(hs + [h], val') == Views(hs, val) + [ViewOf(h, val')]
  {
    forall i | 0 <= i < |hs|
      ensures Fits(hs[i], val') && ViewOf(hs[i], val') == ViewOf(hs[i], val)
    {
      assert Fits(hs[i], val);
    }
  }

  lemma ViewsReplace(hs: seq<Handle>, i: nat, h: Handle, val: seq<Abs>, val': seq<Abs>)
    requires AllFit(hs, val) && i < |hs| && Fits(h, val')
    requires forall p :: p in Refs(hs) - PtrOf(hs[i]) ==> p < |val| && p < |val'| && val'[p] == val[p]
    ensures AllFit(hs[i := h], val') && Views(hs[i := h], val') == Views(hs, val)[i := ViewOf(h, val')]
  {
    forall j | 0 <= j < |hs| && j != i
      ensures Fits(hs[j], val') && ViewOf(hs[j], val') == ViewOf(hs[j], val)
    {
      assert Fits(hs[j], val);
      if !hs[j].Dead? {
        RefsOther(hs, i, j);
      }
    }
  }
}
