/** A program's EdbusData, EdbusDict and EdbusList objects over shared memory. */
module Store {
  import opened Values
  import opened Blocks
  import opened Memory
  import opened Handles
  import Containers
  import Ownership

  lemma Traded(ext: multiset<Ptr>, p: Ptr, q: Ptr)
    requires p in ext
    ensures ext + multiset{q} - multiset{p} == ext - multiset{p} + multiset{q}
    ensures p in ext + multiset{q}
  {
  }

  lemma BoxDenotes(h: Handle, val: seq<Abs>)
    requires Fits(h, val)
    ensures h.DictH? ==> Boxed(ViewOf(h, val)).VData? && Denotes(DictBox(h.p), Data(Boxed(ViewOf(h, val)).v), val)
    ensures h.ListH? ==> Boxed(ViewOf(h, val)).VData? && Denotes(ListBox(h.isArray, h.p), Data(Boxed(ViewOf(h, val)).v), val)
  {
  }

  class Program {
    const heap: Heap
    var handles: seq<Handle>

    ghost predicate Valid()
      reads this, heap
    {
      heap.Ok(Refs(handles)) && AllFit(handles, heap.val)
    }

    /** What each object holds. */
    ghost function Shows(): (r: seq<View>)
      requires Valid()
      reads this, heap
    {
      Views(handles, heap.val)
    }

    constructor ()
      ensures Valid() && Shows() == [] && fresh(heap)
    {
      heap := new Heap();
      handles := [];
    }

    /** A new object at the end. */
    method Push(h: Handle, ghost val: seq<Abs>)
      requires heap.Ok(Refs(handles) + PtrOf(h)) && AllFit(handles, val) && Fits(h, heap.val)
      requires |val| <= |heap.val| && forall p :: 0 <= p < |val| ==> heap.val[p] == val[p]
      modifies `handles
      ensures Valid() && Shows() == old(Views(handles, val)) + [ViewOf(h, heap.val)]
      ensures handles == old(handles) + [h]
    {
      hide Inv, Views, Fits, ViewOf;
      RefsSnoc(handles, h);
      ViewsPush(handles, h, val, heap.val);
      handles := handles + [h];
    }

    /** One object changed. */
    method Replace(i: nat, h: Handle, ghost val: seq<Abs>)
      requires i < |handles| && AllFit(handles, val) && Fits(h, heap.val)
      requires heap.Ok(Refs(handles) - PtrOf(handles[i]) + PtrOf(h))
      requires forall p :: p in Refs(handles) - PtrOf(handles[i]) ==>
        p < |val| && p < |heap.val| && heap.val[p] == val[p]
      modifies `handles
      ensures Valid() && Shows() == old(Views(handles, val))[i := ViewOf(h, heap.val)]
      ensures handles == old(handles)[i := h]
    {
      hide Inv, Views, Fits, ViewOf;
      RefsReplace(handles, i, h);
      ViewsReplace(handles, i, h, val, heap.val);
      handles := handles[i := h];
    }

    lemma Own(i: nat)
      requires Valid() && i < |handles| && !handles[i].Dead?
      ensures handles[i].p in Refs(handles) && Live(heap.blocks, handles[i].p)
      ensures |heap.val| == |heap.blocks| && handles[i].p < |heap.val|
      ensures Fits(handles[i], heap.val) && Shows()[i] == ViewOf(handles[i], heap.val)
    {
      RefsHas(handles, i);
    }

    method NewBasic(v: Value)
      requires Valid() && IsBasic(v)
      modifies this, heap
      ensures Valid() && Shows() == old(Shows()) + [VData(v)]
    {
      hide Inv, Views, TypeOf;
      ghost var val := heap.val;
      heap.OkSizes(Refs(handles));
      assert Refs(handles) + Children(Plain(v)) == Refs(handles);
      var p := heap.Alloc(Plain(v), Data(v), Refs(handles));
      Push(DataH(p), val);
    }

    method NewDict()
      requires Valid()
      modifies this, heap
      ensures Valid() && Shows() == old(Shows()) + [VDict([])]
    {
      hide Inv, Views;
      ghost var val := heap.val;
      heap.OkSizes(Refs(handles));
      assert Refs(handles) + Children(DictCells([])) == Refs(handles);
      var p := heap.Alloc(DictCells([]), Entries([]), Refs(handles));
      Push(DictH(p), val);
    }

    /** Object i is a list and its elements are handles to the blocks ps. */
    ghost predicate Elements(i: nat, ps: seq<Ptr>)
      reads this, heap
    {
      && i < |handles| && handles[i].ListH?
      && Containers.Holds(heap.blocks, handles[i].p) && heap.blocks[handles[i].p].body.items == ps
    }

    method NewList(isArray: bool)
      requires Valid()
      modifies this, heap
      ensures Valid() && Shows() == old(Shows()) + [VList(isArray, [])]
      ensures |handles| == |old(handles)| + 1 && Elements(|old(handles)|, [])
      ensures forall n :: 0 <= n < |old(handles)| ==> handles[n] == old(handles)[n]
    {
      hide Inv, Views, Refs, AllFit;
      ghost var val := heap.val;
      heap.OkSizes(Refs(handles));
      assert Refs(handles) + Children(ListCells([])) == Refs(handles);
      var p := heap.Alloc(ListCells([]), Items([]), Refs(handles));
      Push(ListH(isArray, p), val);
    }

    /** The copy constructors. */
    method Copy(i: nat)
      requires Valid() && i < |Shows()| && !Shows()[i].VDead?
      modifies this, heap
      ensures Valid() && Shows() == old(Shows()) + [old(Shows())[i]]
      ensures handles == old(handles) + [old(handles)[i]]
    {
      hide Inv, Views;
      Own(i);
      heap.Retain(handles[i].p, Refs(handles));
      Push(handles[i], heap.val);
    }

    /** operator=, where j may be i. */
    method Assign(i: nat, j: nat)
      requires Valid() && i < |Shows()| && j < |Shows()| && SameClass(Shows()[i], Shows()[j])
      modifies this, heap
      ensures Valid() && Shows() == old(Shows())[i := old(Shows())[j]]
    {
      hide Inv, Views;
      Own(i);
      Own(j);
      ghost var ext := Refs(handles);
      var p, q := handles[i].p, handles[j].p;
      heap.HandlesSized(ext);
      heap.Retain(q, ext);
      Traded(ext, p, q);
      heap.Release(p, ext + multiset{q});
      assert forall x :: x in ext - PtrOf(handles[i]) ==> x in ext;
      Replace(i, handles[j], heap.val);
    }

    /** The destructors. */
    method Destroy(i: nat)
      requires Valid() && i < |Shows()| && !Shows()[i].VDead?
      modifies this, heap
      ensures Valid() && Shows() == old(Shows())[i := VDead]
    {
      hide Inv, Views;
      Own(i);
      ghost var ext := Refs(handles);
      heap.Release(handles[i].p, ext);
      heap.HandlesSized(ext - multiset{handles[i].p});
      assert ext - multiset{handles[i].p} + multiset{} == ext - multiset{handles[i].p};
      Replace(i, Dead, heap.val);
    }

    /** EdbusData from a dict or a list: the new block takes a handle to the container. */
    method Box(i: nat)
      requires Valid() && i < |Shows()| && (Shows()[i].VDict? || Shows()[i].VList?)
      modifies this, heap
      ensures Valid() && Shows() == old(Shows()) + [Boxed(old(Shows())[i])]
    {
      hide Inv, Views, Denotes, Boxed;
      Own(i);
      var c := handles[i].p;
      BoxDenotes(handles[i], heap.val);
      match handles[i]
      case DictH(_) => Wrap(c, DictBox(c), Boxed(Shows()[i]).v);
      case ListH(isArray, _) => Wrap(c, ListBox(isArray, c), Boxed(Shows()[i]).v);
    }

    /** A new block that takes one handle to c. */
    method Wrap(c: Ptr, body: Body, ghost v: Value)
      requires Valid() && Live(heap.blocks, c)
      requires Children(body) == multiset{c} && Denotes(body, Data(v), heap.val) && !body.Gone?
      modifies this, heap
      ensures Valid() && Shows() == old(Shows()) + [VData(v)]
    {
      hide Inv, Views, Children, Denotes;
      ghost var ext, val := Refs(handles), heap.val;
      heap.OkSizes(ext);
      heap.Retain(c, ext);
      var p := heap.Alloc(body, Data(v), ext);
      Push(DataH(p), val);
    }

    /** EdbusData from a variant. */
    method BoxVariant(i: nat)
      requires Valid() && i < |Shows()| && Shows()[i].VData?
      modifies this, heap
      ensures Valid() && Shows() == old(Shows()) + [VData(Variant(old(Shows())[i].v))]
    {
      hide Inv, Views;
      Own(i);
      Wrap(handles[i].p, VariantBox(handles[i].p), Variant(Shows()[i].v));
    }

    /** to_dict, to_array, to_struct and to_variant: a handle to what the block shares. */
    method Unbox(i: nat)
      requires Valid() && i < |Shows()| && Shows()[i].VData? && !IsBasic(Shows()[i].v)
      modifies this, heap
      ensures Valid() && Shows() == old(Shows()) + [Unboxed(old(Shows())[i].v)]
    {
      hide Inv, Views;
      Own(i);
      var p := handles[i].p;
      Inside(p, Shows()[i].v);
      match heap.blocks[p].body
      case VariantBox(d) => Share(DataH(d));
      case DictBox(c) => Share(DictH(c));
      case ListBox(isArray, c) => Share(ListH(isArray, c));
    }

    /** The handle a container value's block owns, and what it shows. */
    ghost predicate Holds(h: Handle, w: View)
      reads heap
    {
      !h.Dead? && Live(heap.blocks, h.p) && Fits(h, heap.val) && ViewOf(h, heap.val) == w
    }

    lemma Inside(p: Ptr, v: Value)
      requires Valid() && Live(heap.blocks, p) && IsData(heap.val, p, v) && !IsBasic(v)
      ensures var b := heap.blocks[p].body;
        && (b.VariantBox? || b.DictBox? || b.ListBox?)
        && (b.VariantBox? ==> Holds(DataH(b.data), Unboxed(v)))
        && (b.DictBox? ==> Holds(DictH(b.cont), Unboxed(v)))
        && (b.ListBox? ==> Holds(ListH(b.isArray, b.cont), Unboxed(v)))
    {
      hide Inv, Views, Children;
      heap.ContentDenotes(p, Refs(handles));
      heap.ContentLive(p, Refs(handles));
    }

    /** A new object that shares a block. */
    method Share(h: Handle)
      requires Valid() && !h.Dead? && Live(heap.blocks, h.p) && Fits(h, heap.val)
      modifies this, heap
      ensures Valid() && Shows() == old(Shows()) + [old(ViewOf(h, heap.val))]
    {
      hide Inv, Views, Fits, ViewOf;
      heap.Retain(h.p, Refs(handles));
      Push(h, heap.val);
    }

    method DictAppend(i: nat, k: nat, w: nat)
      requires Valid() && IsDict(Shows(), i) && IsDatum(Shows(), k) && IsDatum(Shows(), w)
      modifies this, heap
      ensures Valid() && Shows() == old(Shows())[i :=
        VDict(Values.DictAppend(old(Shows())[i].es, old(Shows())[k].v, old(Shows())[w].v))]
    {
      hide Inv, Views, Values.DictAppend;
      Own(i);
      Own(k);
      Own(w);
      ghost var vs, val := Shows(), heap.val;
      var q := Containers.DictAppend(heap, handles[i].p, handles[k].p, handles[w].p,
                                     vs[i].es, vs[k].v, vs[w].v, Refs(handles));
      Replace(i, DictH(q), val);
    }

    method DictRemove(i: nat, k: nat)
      requires Valid() && IsDict(Shows(), i) && IsDatum(Shows(), k)
      modifies this, heap
      ensures Valid() && Shows() == old(Shows())[i := VDict(Values.DictRemove(old(Shows())[i].es, old(Shows())[k].v))]
    {
      hide Inv, Views, Values.DictRemove;
      Own(i);
      Own(k);
      ghost var vs, val := Shows(), heap.val;
      var q := Containers.DictRemove(heap, handles[i].p, handles[k].p, vs[i].es, vs[k].v, Refs(handles));
      Replace(i, DictH(q), val);
    }

    method DictClear(i: nat)
      requires Valid() && IsDict(Shows(), i)
      modifies this, heap
      ensures Valid() && Shows() == old(Shows())[i := VDict([])]
    {
      hide Inv, Views;
      Own(i);
      ghost var vs, val := Shows(), heap.val;
      var q := Containers.DictClear(heap, handles[i].p, vs[i].es, Refs(handles));
      Replace(i, DictH(q), val);
    }

    /** find: a handle to the stored value, or to a new invalid one. */
    method DictFind(i: nat, k: nat)
      requires Valid() && IsDict(Shows(), i) && IsDatum(Shows(), k)
      modifies this, heap
      ensures Valid() && Shows() == old(Shows()) + [VData(Values.DictFind(old(Shows())[i].es, old(Shows())[k].v))]
    {
      hide Inv, Views, Equal, TypeOf;
      Own(i);
      Own(k);
      ghost var vs, ext := Shows(), Refs(handles);
      var at := Containers.FindCell(heap, handles[i].p, handles[k].p, vs[i].es, vs[k].v, ext);
      heap.ContentDenotes(handles[i].p, ext);
      heap.ContentLive(handles[i].p, ext);
      var cells := heap.blocks[handles[i].p].body.cells;
      if at < |cells| {
        assert IsData(heap.val, cells[at].value, vs[i].es[at].value);
        heap.Retain(cells[at].value, ext);
        Push(DataH(cells[at].value), heap.val);
      } else {
        InvalidIsBasic();
        NewBasic(Invalid);
      }
    }

    lemma InvalidIsBasic()
      ensures IsBasic(Invalid)
    {
    }

    method ListAppend(i: nat, w: nat)
      requires Valid() && IsList(Shows(), i) && IsDatum(Shows(), w)
      modifies this, heap
      ensures Valid() && Shows() == old(Shows())[i := VList(old(Shows())[i].isArray,
        Values.ListAppend(old(Shows())[i].isArray, old(Shows())[i].xs, old(Shows())[w].v))]
      ensures forall ps :: old(Elements(i, ps)) && !old(Shows())[i].isArray ==> Elements(i, ps + [old(handles)[w].p])
      ensures handles[w] == old(handles)[w]
    {
      hide Inv, Views, Values.ListAppend, Refs, AllFit;
      Own(i);
      Own(w);
      ghost var vs, val := Shows(), heap.val;
      var q := Containers.ListAppend(heap, handles[i].p, handles[i].isArray, handles[w].p,
                                     vs[i].xs, vs[w].v, Refs(handles));
      Replace(i, ListH(handles[i].isArray, q), val);
    }

    method ListRemove(i: nat, w: nat) returns (ghost at: nat)
      requires Valid() && IsList(Shows(), i) && IsDatum(Shows(), w)
      modifies this, heap
      ensures Valid() && MayFind(old(Shows())[i].xs, old(Shows())[w].v, at)
      ensures Shows() == old(Shows())[i := VList(old(Shows())[i].isArray, CutAt(old(Shows())[i].xs, at))]
      ensures if at < |old(Shows())[i].xs| then Shifted(old(Shows())[i].xs, at, Shows()[i].xs) else Shows() == old(Shows())
      ensures forall ps :: old(Elements(i, ps)) ==> |ps| == |old(Shows())[i].xs|
      ensures forall ps, j :: old(Elements(i, ps)) && 0 <= j < at ==> IsBasic(old(Shows())[w].v) || ps[j] != old(handles)[w].p
    {
      hide Inv, Views, MayFind, CutAt, Shifted;
      Own(i);
      Own(w);
      ghost var vs, val := Shows(), heap.val;
      var q;
      q, at := Containers.ListRemove(heap, handles[i].p, handles[w].p, vs[i].xs, vs[w].v, Refs(handles));
      CutShifts(vs[i].xs, at);
      Replace(i, ListH(handles[i].isArray, q), val);
    }

    method ListRemoveAll(i: nat, w: nat) returns (ghost left: seq<Value>)
      requires Valid() && IsList(Shows(), i) && IsDatum(Shows(), w)
      modifies this, heap
      ensures Valid() && MayLeave(old(Shows())[i].xs, old(Shows())[w].v, left)
      ensures Shows() == old(Shows())[i := VList(old(Shows())[i].isArray, left)]
    {
      hide Inv, Views, MayLeave;
      Own(i);
      Own(w);
      ghost var vs, val := Shows(), heap.val;
      var q;
      q, left := Containers.ListRemoveAll(heap, handles[i].p, handles[w].p, vs[i].xs, vs[w].v, Refs(handles));
      Replace(i, ListH(handles[i].isArray, q), val);
    }

    /** operator== of two of the program's EdbusData objects. */
    method Compare(i: nat, k: nat) returns (r: bool)
      requires Valid() && IsDatum(Shows(), i) && IsDatum(Shows(), k)
      ensures Equal(Shows()[i].v, Shows()[k].v) ==> r
      ensures r ==> i == k || Loose(Shows()[i].v, Shows()[k].v)
      ensures i != k && Firm(Shows()[k].v) ==> r == Equal(Shows()[i].v, Shows()[k].v)
      ensures i == k || (handles[i].p == handles[k].p && !IsBasic(Shows()[i].v)) ==> r
    {
      hide Inv, Views, Equal, Loose, IsBasic, Firm;
      Own(i);
      Own(k);
      r := Containers.DataEqual(heap, handles[i].p, handles[k].p, i == k, Shows()[i].v, Shows()[k].v, Refs(handles));
      if i != k && r && Firm(Shows()[k].v) {
        LooseOnFirm(Shows()[i].v, Shows()[k].v);
      }
    }

    /** A copy and its source compare as equal unless they are NaN. That is how their value
        compares with itself exactly if it is firm: otherwise they betray that they share. */
    method CompareCopy(i: nat) returns (r: bool)
      requires Valid() && IsDatum(Shows(), i)
      modifies this, heap
      ensures Valid() && Shows() == old(Shows()) + [old(Shows())[i]]
      ensures r == !IsNaN(old(Shows())[i].v)
      ensures r == Equal(old(Shows())[i].v, old(Shows())[i].v) <==> Firm(old(Shows())[i].v)
    {
      hide Inv, Views, Equal, Loose, NoNaN;
      EqualSelf(Shows()[i].v);
      BasicSelf(Shows()[i].v);
      Copy(i);
      r := Compare(i, |handles| - 1);
    }

    lemma BasicSelf(v: Value)
      ensures IsBasic(v) ==> (NoNaN(v) <==> !IsNaN(v))
      ensures !IsBasic(v) ==> !IsNaN(v)
    {
    }

    /** A new list with one element that shares w's block. */
    method ListOf(w: nat) returns (l: nat)
      requires Valid() && IsDatum(Shows(), w)
      modifies this, heap
      ensures Valid() && l == |old(handles)| && Shows() == old(Shows()) + [VList(false, [old(Shows())[w].v])]
      ensures w < l && l < |handles| && !handles[w].Dead? && Elements(l, [handles[w].p])
    {
      hide Inv, Views, Values.ListAppend, Elements;
      Own(w);
      FirstElement(Shows()[w].v);
      l := |handles|;
      NewList(false);
      ListAppend(l, w);
      assert [] + [handles[w].p] == [handles[w].p];
    }

    lemma FirstElement(v: Value)
      ensures Values.ListAppend(false, [], v) == [v]
    {
    }

    /** A value is put into a list of its own and removed from it again, which fails only for
        NaN. On values that share nothing it has that outcome exactly for the firm ones. */
    method RemoveOwn(w: nat)
      requires Valid() && IsDatum(Shows(), w)
      modifies this, heap
      ensures Valid()
      ensures var v := old(Shows())[w].v;
        Shows() == old(Shows()) + [VList(false, if IsNaN(v) then [v] else [])]
      ensures var v := old(Shows())[w].v;
        (if IsNaN(v) then [v] else []) == Values.ListRemove([v], v) <==> Firm(v)
    {
      hide Inv, Views, Equal, Loose, IsBasic, MayFind, CutAt, Elements, NoNaN, Values.ListRemove;
      ghost var v := Shows()[w].v;
      EqualSelf(v);
      BasicSelf(v);
      RemovedAlone(v);
      var l := ListOf(w);
      ghost var p := handles[w].p;
      ghost var ps := [p];
      assert Elements(l, ps) && ps[0] == p;
      ghost var at := ListRemove(l, w);
      OneFound(v, at);
    }

    lemma RemovedAlone(v: Value)
      ensures Values.ListRemove([v], v) == if Equal(v, v) then [] else [v]
    {
      hide Equal;
      assert [v][0] == v && [v][1..] == [];
    }

    lemma OneFound(v: Value, at: nat)
      requires MayFind([v], v, at) && (at > 0 ==> IsBasic(v))
      ensures CutAt([v], at) == if Equal(v, v) || !IsBasic(v) then [] else [v]
    {
      hide Equal, Loose, IsBasic;
      if at == 0 {
        assert CutAt([v], 0) == [];
        if IsBasic(v) {
          LooseOnBasic(v, v);
        }
      } else {
        assert !Equal([v][0], v);
      }
    }

    method ListClear(i: nat)
      requires Valid() && IsList(Shows(), i)
      modifies this, heap
      ensures Valid() && Shows() == old(Shows())[i := VList(old(Shows())[i].isArray, [])]
    {
      hide Inv, Views;
      Own(i);
      ghost var vs, val := Shows(), heap.val;
      var q := Containers.ListClear(heap, handles[i].p, vs[i].xs, Refs(handles));
      Replace(i, ListH(handles[i].isArray, q), val);
    }

    /** A copy of the element at a const iterator. */
    method ListGet(i: nat, n: nat)
      requires Valid() && IsList(Shows(), i) && n < |Shows()[i].xs|
      modifies this, heap
      ensures Valid() && Shows() == old(Shows()) + [VData(old(Shows())[i].xs[n])]
    {
      hide Inv, Views;
      Own(i);
      ghost var vs, ext := Shows(), Refs(handles);
      heap.ContentDenotes(handles[i].p, ext);
      heap.ContentLive(handles[i].p, ext);
      var ps := heap.blocks[handles[i].p].body.items;
      assert IsData(heap.val, ps[n], vs[i].xs[n]);
      heap.Retain(ps[n], ext);
      Push(DataH(ps[n]), heap.val);
    }

    method ExecObject(c: Command)
      requires Valid() && Ready(Shows(), c) && !OnDict(c) && !OnList(c)
      modifies this, heap
      ensures Valid() && Shows() == Apply(old(Shows()), c)
    {
      hide Inv, Views, Fits, ViewOf;
      match c
      case NewBasic(v) => NewBasic(v);
      case NewDict => NewDict();
      case NewList(isArray) => NewList(isArray);
      case Copy(i) => Copy(i);
      case Assign(i, j) => Assign(i, j);
      case Destroy(i) => Destroy(i);
      case Box(i) => Box(i);
      case BoxVariant(i) => BoxVariant(i);
      case Unbox(i) => Unbox(i);
    }

    method ExecDict(c: Command)
      requires Valid() && Ready(Shows(), c) && OnDict(c)
      modifies this, heap
      ensures Valid() && Shows() == Apply(old(Shows()), c)
    {
      hide Inv, Views, Fits, ViewOf, Values.DictAppend, Values.DictRemove, Values.DictFind;
      match c
      case DictAppend(i, k, w) => DictAppend(i, k, w);
      case DictRemove(i, k) => DictRemove(i, k);
      case DictClear(i) => DictClear(i);
      case DictFind(i, k) => DictFind(i, k);
    }

    method ExecList(c: Command)
      requires Valid() && Ready(Shows(), c) && OnList(c)
      modifies this, heap
      ensures Valid() && May(old(Shows()), c, Shows())
    {
      hide Inv, Views, Fits, ViewOf, Values.ListAppend, MayFind, MayLeave, CutAt;
      match c
      case ListAppend(i, w) => ListAppend(i, w);
      case ListRemove(i, w) => var at := ListRemove(i, w);
      case ListRemoveAll(i, w) => var left := ListRemoveAll(i, w);
      case ListClear(i) => ListClear(i);
      case ListGet(i, n) => ListGet(i, n);
    }

    /** Each command has the effect it has on values that share nothing, but for a removal
        by a value that is not firm. */
    method Exec(c: Command)
      requires Valid() && Ready(Shows(), c)
      modifies this, heap
      ensures Valid() && May(old(Shows()), c, Shows())
      ensures Steady(old(Shows()), c) ==> Shows() == Apply(old(Shows()), c)
    {
      hide Inv, Views, AllFit, Apply, Ready, May, Steady;
      ghost var vs := Shows();
      if OnDict(c) {
        ExecDict(c);
        ApplyMay(vs, c);
      } else if OnList(c) {
        ExecList(c);
      } else {
        ExecObject(c);
        ApplyMay(vs, c);
      }
      if Steady(vs, c) {
        SteadyMay(vs, c, Shows());
      }
    }

    /** Every run: the counts stay exact, no handle dangles, and unless the run removes by a
        value that is not firm, sharing is never seen: each object holds what it
        would hold if every copy were a deep copy. */
    method Run(cs: seq<Command>)
      requires Valid() && AllReady(Shows(), cs)
      modifies this, heap
      ensures Valid() && Reaches(old(Shows()), cs, Shows())
      ensures AllSteady(old(Shows()), cs) ==> Shows() == ApplyAll(old(Shows()), cs)
      decreases |cs|
    {
      hide Inv, Views, AllFit, Apply, Ready, May, Steady;
      ghost var vs := Shows();
      if cs != [] {
        Exec(cs[0]);
        Run(cs[1..]);
      }
      if AllSteady(vs, cs) {
        SteadyReaches(vs, cs, Shows());
      }
    }

    /** Some chain of handles leads from one of the program's objects to p. */
    ghost predicate InReach(p: Ptr)
      reads this, heap
    {
      exists ps :: Ownership.Path(heap.blocks, ps) && ps[0] in Refs(handles) && ps[|ps| - 1] == p
    }

    /** In every valid state, so after every run: each count is exact, no chain of handles
        comes back to where it began, and the blocks not yet given back are exactly those
        within reach. */
    lemma GraphIsSound()
      requires Valid()
      ensures forall p: nat :: p < |heap.blocks| ==> heap.blocks[p].refs == Refs(handles)[p] + Owners(heap.blocks, p)
      ensures forall ps :: Ownership.Path(heap.blocks, ps) && |ps| > 1 ==> ps[0] != ps[|ps| - 1]
      ensures forall p: nat :: Live(heap.blocks, p) <==> InReach(p)
    {
      hide Denoted, Refs, Owners, AllFit;
      forall ps | Ownership.Path(heap.blocks, ps) && |ps| > 1
        ensures ps[0] != ps[|ps| - 1]
      {
        Ownership.Acyclic(heap.blocks, heap.val, Refs(handles), ps);
      }
      forall p: nat
        ensures Live(heap.blocks, p) <==> InReach(p)
      {
        if Live(heap.blocks, p) {
          var ps := Ownership.Reached(heap.blocks, heap.val, Refs(handles), p);
        }
        if InReach(p) {
          var ps :| Ownership.Path(heap.blocks, ps) && ps[0] in Refs(handles) && ps[|ps| - 1] == p;
          Ownership.ReachedIsLive(heap.blocks, heap.val, Refs(handles), ps);
        }
      }
    }

    /** Once every object is destroyed, every block has been given back. */
    lemma AllGivenBack()
      requires Valid() && forall i :: 0 <= i < |handles| ==> handles[i].Dead?
      ensures forall p :: 0 <= p < |heap.blocks| ==> heap.blocks[p] == Block(0, Gone)
    {
      NoRefs(handles);
      Ownership.NothingLeft(heap.blocks, heap.val);
    }

    lemma {:induction false} NoRefs(hs: seq<Handle>)
      requires forall i :: 0 <= i < |hs| ==> hs[i].Dead?
      ensures Refs(hs) == multiset{}
    {
      if hs != [] {
        NoRefs(hs[..|hs| - 1]);
      }
    }
  }
}
