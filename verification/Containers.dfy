/** EdbusDict and EdbusList on shared blocks, each operation tied to what it does
    to the value the handle stands for. */
module Containers {
  import opened Values
  import opened Blocks
  import opened Memory

  /** The handle c became the handle q; no other handle outside the blocks reads anything new. */
  ghost predicate OthersKeep(before: seq<Abs>, after: seq<Abs>, ext: multiset<Ptr>, c: Ptr) {
    forall p :: p in ext - multiset{c} ==> p < |before| && p < |after| && after[p] == before[p]
  }

  // ---- equality

  /** EdbusData::operator== of two objects with the blocks p and q; same says that they are
      one object. Between the two answers that values allow, sharing decides. */
  method DataEqual(h: Heap, p: Ptr, q: Ptr, same: bool, ghost a: Value, ghost b: Value, ghost ext: multiset<Ptr>)
    returns (r: bool)
    requires h.Ok(ext) && Live(h.blocks, p) && Live(h.blocks, q) && (same ==> p == q)
    requires IsData(h.val, p, a) && IsData(h.val, q, b)
    ensures Equal(a, b) ==> r
    ensures r ==> same || Loose(a, b)
    ensures same || (p == q && !IsBasic(a)) ==> r
    decreases a, 0
  {
    hide Inv, Children, TypeOf;
    if same {
      return true;
    }
    h.ContentDenotes(p, ext);
    h.ContentDenotes(q, ext);
    BodyTypeIs(h.blocks[p].body, a, h.val);
    BodyTypeIs(h.blocks[q].body, b, h.val);
    h.ContentLive(p, ext);
    h.ContentLive(q, ext);
    if BodyType(h.blocks[p].body) != BodyType(h.blocks[q].body) {
      TypesDiffer(a, b);
      return false;
    }
    EqualByType(a, b);
    match h.blocks[p].body
    case Plain(v) => r := PlainEqual(v, h.blocks[q].body.v);
    case VariantBox(d) => r := DataEqual(h, d, h.blocks[q].body.data, p == q, a.value, b.value, ext);
    case DictBox(_) => r := true;
    case ListBox(_, c) => r := ItemsEqual(h, c, h.blocks[q].body.cont, a.elems, b.elems, ext);
  }

  /** The branches that compare numbers and strings. */
  predicate PlainEqual(v: Value, w: Value)
    requires IsBasic(v) && TypeOf(v) == TypeOf(w)
  {
    v.Scalar? ==> SameBasic(v.basic, w.basic)
  }

  lemma TypesDiffer(a: Value, b: Value)
    requires TypeOf(a) != TypeOf(b)
    ensures !Equal(a, b)
  {
  }

  lemma EqualByType(a: Value, b: Value)
    requires TypeOf(a) == TypeOf(b)
    ensures IsBasic(a) ==> IsBasic(b) && (Equal(a, b) <==> PlainEqual(a, b)) && (Loose(a, b) <==> PlainEqual(a, b))
    ensures a.Variant? ==> b.Variant? && !IsBasic(a)
    ensures a.Variant? ==> Equal(a, b) == Equal(a.value, b.value) && (Loose(a, b) <==> a.value == b.value || Loose(a.value, b.value))
    ensures a.Dict? ==> b.Dict? && Equal(a, b) && Loose(a, b) && !IsBasic(a)
    ensures a.Array? || a.Struct? ==> (b.Array? || b.Struct?) && !IsBasic(a)
    ensures a.Array? || a.Struct? ==> (Equal(a, b) <==> AllEqual(a.elems, b.elems)) && (Loose(a, b) <==> AllLoose(a.elems, b.elems))
    ensures a.Array? <==> b.Array?
  {
  }

  predicate AllEqual(xs: seq<Value>, ys: seq<Value>) {
    |xs| == |ys| && forall i :: 0 <= i < |xs| ==> Equal(xs[i], ys[i])
  }

  predicate AllLoose(xs: seq<Value>, ys: seq<Value>) {
    |xs| == |ys| && forall i :: 0 <= i < |xs| ==> xs[i] == ys[i] || Loose(xs[i], ys[i])
  }

  /** list::operator== on the elements, which are the same objects if it is one list. */
  method ItemsEqual(h: Heap, c: Ptr, d: Ptr, ghost xs: seq<Value>, ghost ys: seq<Value>, ghost ext: multiset<Ptr>)
    returns (r: bool)
    requires h.Ok(ext) && Live(h.blocks, c) && Live(h.blocks, d)
    requires c < |h.val| && h.val[c] == Items(xs) && d < |h.val| && h.val[d] == Items(ys)
    ensures AllEqual(xs, ys) ==> r
    ensures r ==> AllLoose(xs, ys)
    ensures c == d ==> r
    decreases xs
  {
    hide Inv, Children, TypeOf, Equal, Loose, IsBasic;
    h.ContentDenotes(c, ext);
    h.ContentDenotes(d, ext);
    h.ContentLive(c, ext);
    h.ContentLive(d, ext);
    var ps, qs := h.blocks[c].body.items, h.blocks[d].body.items;
    if |ps| != |qs| {
      return false;
    }
    var i := 0;
    while i < |ps|
      invariant i <= |ps|
      invariant forall j :: 0 <= j < i ==> xs[j] == ys[j] || Loose(xs[j], ys[j])
    {
      assert IsData(h.val, ps[i], xs[i]) && IsData(h.val, qs[i], ys[i]);
      var e := DataEqual(h, ps[i], qs[i], c == d, xs[i], ys[i], ext);
      if !e {
        return false;
      }
      i := i + 1;
    }
    return true;
  }

  // ---- EdbusDict

  /** The handle c became the handle q, which stands for a, and no other handle
      outside the blocks reads anything new. */
  ghost predicate Became(before: seq<Abs>, after: seq<Abs>, ext: multiset<Ptr>, c: Ptr, q: Ptr, a: Abs) {
    && q < |after| && after[q] == a
    && OthersKeep(before, after, ext, c)
  }

  method FindCell(h: Heap, c: Ptr, k: Ptr, ghost es: seq<Entry>, ghost kv: Value, ghost ext: multiset<Ptr>)
    returns (i: nat)
    requires h.Ok(ext) && Live(h.blocks, c) && c < |h.val| && h.val[c] == Entries(es)
    requires Live(h.blocks, k) && IsData(h.val, k, kv)
    ensures i == KeyAt(es, kv)
    ensures h.blocks[c].body.DictCells? && |h.blocks[c].body.cells| == |es|
  {
    hide Inv, Children, TypeOf, Equal, Loose, IsBasic;
    h.ContentDenotes(c, ext);
    h.ContentLive(c, ext);
    var cells := h.blocks[c].body.cells;
    i := 0;
    while i < |cells|
      invariant i <= |cells|
      invariant forall j :: 0 <= j < i ==> !Equal(es[j].key, kv)
    {
      assert IsData(h.val, cells[i].key, es[i].key) && IsBasic(es[i].key);
      LooseOnBasic(es[i].key, kv);
      var e := DataEqual(h, cells[i].key, k, false, es[i].key, kv, ext);
      if e {
        break;
      }
      i := i + 1;
    }
  }

  lemma BasicTypes(b: Body, v: Value, val: seq<Abs>)
    requires Denotes(b, Data(v), val) && !b.Gone?
    ensures IsBasic(v) <==> BodyType(b) !in {ArrayT, StructT, DictT, VariantT}
    ensures BodyType(b) == TypeOf(v)
  {
  }

  /** The test that append makes before it writes. */
  method DictTakes(h: Heap, c: Ptr, k: Ptr, v: Ptr, ghost es: seq<Entry>, ghost kv: Value, ghost vv: Value,
                   ghost ext: multiset<Ptr>)
    returns (ok: bool)
    requires h.Ok(ext) && Live(h.blocks, c) && c < |h.val| && h.val[c] == Entries(es)
    requires Live(h.blocks, k) && IsData(h.val, k, kv) && Live(h.blocks, v) && IsData(h.val, v, vv)
    ensures ok <==> DictAccepts(es, kv, vv)
    ensures h.blocks[c].body.DictCells?
  {
    hide Inv, Children, TypeOf, IsBasic;
    h.ContentDenotes(c, ext);
    h.ContentLive(c, ext);
    h.ContentDenotes(k, ext);
    h.ContentDenotes(v, ext);
    BasicTypes(h.blocks[k].body, kv, h.val);
    BasicTypes(h.blocks[v].body, vv, h.val);
    if BodyType(h.blocks[k].body) in {ArrayT, StructT, DictT, VariantT} {
      return false;
    }
    var cells := h.blocks[c].body.cells;
    if |cells| > 0 {
      assert IsData(h.val, cells[0].key, es[0].key) && IsData(h.val, cells[0].value, es[0].value);
      h.ContentDenotes(cells[0].key, ext);
      h.ContentDenotes(cells[0].value, ext);
      BasicTypes(h.blocks[cells[0].key].body, es[0].key, h.val);
      BasicTypes(h.blocks[cells[0].value].body, es[0].value, h.val);
      if BodyType(h.blocks[k].body) != BodyType(h.blocks[cells[0].key].body)
         || BodyType(h.blocks[v].body) != BodyType(h.blocks[cells[0].value].body) {
        return false;
      }
    }
    return true;
  }

  /** The block of an unshared dict, ready to be written. */
  ghost predicate OwnDict(h: Heap, q: Ptr, es: seq<Entry>, ext: multiset<Ptr>)
    reads h
  {
    && h.Ok(ext) && q in ext && q < |h.blocks| == |h.val|
    && h.blocks[q].refs == 1 && h.val[q] == Entries(es)
    && h.blocks[q].body.DictCells? && |h.blocks[q].body.cells| == |es|
    && Denotes(h.blocks[q].body, Entries(es), h.val)
  }

  lemma PutCell(cells: seq<Cell>, es: seq<Entry>, val: seq<Abs>, i: nat, v: Ptr, vv: Value)
    requires Denotes(DictCells(cells), Entries(es), val) && i < |cells| && IsData(val, v, vv)
    ensures |es| == |cells|
    ensures Denotes(DictCells(cells[i := Cell(cells[i].key, v)]), Entries(es[i := Entry(es[i].key, vv)]), val)
    ensures Children(DictCells(cells[i := Cell(cells[i].key, v)])) + multiset{cells[i].value}
         == Children(DictCells(cells)) + multiset{v}
  {
    hide CellPtrs;
    PutPtrs(cells, i, v);
  }

  lemma PutPtrs(cells: seq<Cell>, i: nat, v: Ptr)
    requires i < |cells|
    ensures CellPtrs(cells[i := Cell(cells[i].key, v)]) + multiset{cells[i].value} == CellPtrs(cells) + multiset{v}
  {
    hide CellPtrs;
    var c, c' := cells[i], Cell(cells[i].key, v);
    CellPtrsUpdate(cells, i, c');
    assert Pair(c) == multiset{c.key} + multiset{c.value};
    assert Pair(c') == multiset{c.key} + multiset{v};
    Cancel(CellPtrs(cells[i := Cell(cells[i].key, v)]), multiset{cells[i].value},
           CellPtrs(cells), multiset{v}, multiset{cells[i].key});
  }

  lemma Cancel(a: multiset<Ptr>, x: multiset<Ptr>, b: multiset<Ptr>, y: multiset<Ptr>, k: multiset<Ptr>)
    requires a + (k + x) == b + (k + y)
    ensures a + x == b + y
  {
    forall p
      ensures (a + x)[p] == (b + y)[p]
    {
      assert (a + (k + x))[p] == (b + (k + y))[p];
    }
  }

  lemma NewCell(cells: seq<Cell>, es: seq<Entry>, val: seq<Abs>, k: Ptr, kv: Value, v: Ptr, vv: Value)
    requires Denotes(DictCells(cells), Entries(es), val) && IsData(val, k, kv) && IsData(val, v, vv) && IsBasic(kv)
    ensures Denotes(DictCells(cells + [Cell(k, v)]), Entries(es + [Entry(kv, vv)]), val)
    ensures Children(DictCells(cells + [Cell(k, v)])) + multiset{} == Children(DictCells(cells)) + multiset([k, v])
  {
    assert (cells + [Cell(k, v)])[..|cells|] == cells;
    Two(Cell(k, v));
  }

  lemma CutCell(cells: seq<Cell>, es: seq<Entry>, val: seq<Abs>, i: nat)
    requires Denotes(DictCells(cells), Entries(es), val) && i < |cells|
    ensures |es| == |cells|
    ensures Denotes(DictCells(cells[..i] + cells[i + 1..]), Entries(es[..i] + es[i + 1..]), val)
    ensures Children(DictCells(cells[..i] + cells[i + 1..])) + multiset([cells[i].key, cells[i].value])
         == Children(DictCells(cells)) + multiset{}
  {
    hide CellPtrs, Pair;
    CellPtrsRemove(cells, i);
    Two(cells[i]);
  }

  /** (*it).value = value */
  method ReplaceValue(h: Heap, q: Ptr, i: nat, v: Ptr, ghost es: seq<Entry>, ghost vv: Value, ghost ext: multiset<Ptr>)
    requires OwnDict(h, q, es, ext) && i < |es|
    requires v in ext && IsData(h.val, v, vv)
    modifies h
    ensures h.Ok(ext) && h.val == old(h.val)[q := Entries(es[i := Entry(es[i].key, vv)])]
  {
    hide Inv, Children, Denotes;
    var cells := h.blocks[q].body.cells;
    var oldv := cells[i].value;
    PutCell(cells, es, h.val, i, v, vv);
    LiveHandle(h, v, ext);
    h.Retain(v, ext);
    h.Rewrite(q, DictCells(cells[i := Cell(cells[i].key, v)]), Entries(es[i := Entry(es[i].key, vv)]),
              ext, multiset{v}, multiset{oldv});
    assert ext + multiset{oldv} - multiset{oldv} == ext;
    h.Release(oldv, ext + multiset{oldv});
  }

  lemma LiveHandle(h: Heap, p: Ptr, ext: multiset<Ptr>)
    requires h.Ok(ext) && p in ext
    ensures Live(h.blocks, p)
  {
  }

  /** push_back of a new entry */
  method PushCell(h: Heap, q: Ptr, k: Ptr, v: Ptr, ghost es: seq<Entry>, ghost kv: Value, ghost vv: Value,
                  ghost ext: multiset<Ptr>)
    requires OwnDict(h, q, es, ext) && IsBasic(kv)
    requires k in ext && IsData(h.val, k, kv) && v in ext && IsData(h.val, v, vv)
    modifies h
    ensures h.Ok(ext) && h.val == old(h.val)[q := Entries(es + [Entry(kv, vv)])]
  {
    hide Inv, Children, Denotes;
    var cells := h.blocks[q].body.cells;
    NewCell(cells, es, h.val, k, kv, v, vv);
    LiveHandle(h, k, ext);
    LiveHandle(h, v, ext);
    h.RetainItems([k, v], ext);
    h.Rewrite(q, DictCells(cells + [Cell(k, v)]), Entries(es + [Entry(kv, vv)]), ext, multiset([k, v]), multiset{});
    assert ext + multiset{} == ext;
  }

  /** EdbusContainer::unhook of a dict that is about to be written. */
  method UnhookDict(h: Heap, c: Ptr, ghost es: seq<Entry>, ghost ext: multiset<Ptr>) returns (q: Ptr)
    requires h.Ok(ext) && c in ext && c < |h.val| && h.val[c] == Entries(es)
    modifies h
    ensures OwnDict(h, q, es, ext - multiset{c} + multiset{q})
    ensures |old(h.val)| <= |h.val| && forall p :: 0 <= p < |old(h.val)| ==> h.val[p] == old(h.val)[p]
    ensures q !in ext - multiset{c}
  {
    hide Inv, Children;
    LiveHandle(h, c, ext);
    h.ContentDenotes(c, ext);
    q := h.Unhook(c, ext);
    h.ContentDenotes(q, ext - multiset{c} + multiset{q});
    SoleHandle(h, q, ext - multiset{c});
  }

  lemma SoleHandle(h: Heap, q: Ptr, ext: multiset<Ptr>)
    requires h.Ok(ext + multiset{q}) && q < |h.blocks| && h.blocks[q].refs == 1
    ensures q !in ext
  {
  }

  lemma Written(before: seq<Abs>, mid: seq<Abs>, ext: multiset<Ptr>, c: Ptr, q: Ptr, a: Abs)
    requires |before| <= |mid| && forall p :: 0 <= p < |before| ==> mid[p] == before[p]
    requires q < |mid| && q !in ext - multiset{c}
    requires forall p :: p in ext ==> p < |before|
    ensures Became(before, mid[q := a], ext, c, q, a)
  {
  }

  lemma TakesBasic(es: seq<Entry>, k: Value, v: Value)
    ensures DictAccepts(es, k, v) ==> IsBasic(k)
  {
  }

  /** EdbusDict::append, where c, k and v are handles outside the blocks. */
  method DictAppend(h: Heap, c: Ptr, k: Ptr, v: Ptr, ghost es: seq<Entry>, ghost kv: Value, ghost vv: Value,
                    ghost ext: multiset<Ptr>)
    returns (q: Ptr)
    requires h.Ok(ext) && c in ext && k in ext && v in ext
    requires c < |h.val| && h.val[c] == Entries(es) && IsData(h.val, k, kv) && IsData(h.val, v, vv)
    modifies h
    ensures h.Ok(ext - multiset{c} + multiset{q})
    ensures Became(old(h.val), h.val, ext, c, q, Entries(Values.DictAppend(es, kv, vv)))
  {
    hide Inv, Children, TypeOf, Equal, IsBasic, DictAccepts, CellPtrs, Pair, Denotes;
    LiveHandle(h, c, ext);
    LiveHandle(h, k, ext);
    LiveHandle(h, v, ext);
    h.HandlesSized(ext);
    var ok := DictTakes(h, c, k, v, es, kv, vv, ext);
    TakesBasic(es, kv, vv);
    if !ok {
      assert ext - multiset{c} + multiset{c} == ext;
      return c;
    }
    q := UnhookDict(h, c, es, ext);
    ghost var ext1 := ext - multiset{c} + multiset{q};
    assert k != c && v != c && k in ext1 && v in ext1;
    LiveHandle(h, k, ext1);
    LiveHandle(h, q, ext1);
    var i := FindCell(h, q, k, es, kv, ext1);
    Written(old(h.val), h.val, ext, c, q, Entries(Values.DictAppend(es, kv, vv)));
    if i < |h.blocks[q].body.cells| {
      ReplaceValue(h, q, i, v, es, vv, ext1);
    } else {
      PushCell(h, q, k, v, es, kv, vv, ext1);
    }
  }

  /** EdbusDict::remove */
  method DictRemove(h: Heap, c: Ptr, k: Ptr, ghost es: seq<Entry>, ghost kv: Value, ghost ext: multiset<Ptr>)
    returns (q: Ptr)
    requires h.Ok(ext) && c in ext && k in ext
    requires c < |h.val| && h.val[c] == Entries(es) && IsData(h.val, k, kv)
    modifies h
    ensures h.Ok(ext - multiset{c} + multiset{q})
    ensures Became(old(h.val), h.val, ext, c, q, Entries(Values.DictRemove(es, kv)))
  {
    hide Inv, Children, TypeOf, Equal, CellPtrs, Pair, Denotes;
    h.HandlesSized(ext);
    q := UnhookDict(h, c, es, ext);
    ghost var ext1 := ext - multiset{c} + multiset{q};
    assert k != c && k in ext1;
    LiveHandle(h, k, ext1);
    LiveHandle(h, q, ext1);
    var i := FindCell(h, q, k, es, kv, ext1);
    Written(old(h.val), h.val, ext, c, q, Entries(Values.DictRemove(es, kv)));
    var cells := h.blocks[q].body.cells;
    if i < |cells| {
      CutCell(cells, es, h.val, i);
      ghost var dropped := multiset([cells[i].key, cells[i].value]);
      assert ext1 + multiset{} == ext1;
      h.Rewrite(q, DictCells(cells[..i] + cells[i + 1..]), Entries(es[..i] + es[i + 1..]), ext1, multiset{}, dropped);
      h.ReleaseItems([cells[i].key, cells[i].value], ext1);
    } else {
      assert h.val[q := Entries(es)] == h.val;
    }
  }

  /** EdbusDict::clear */
  method DictClear(h: Heap, c: Ptr, ghost es: seq<Entry>, ghost ext: multiset<Ptr>) returns (q: Ptr)
    requires h.Ok(ext) && c in ext && c < |h.val| && h.val[c] == Entries(es)
    modifies h
    ensures h.Ok(ext - multiset{c} + multiset{q})
    ensures Became(old(h.val), h.val, ext, c, q, Entries([]))
  {
    hide Inv, CellPtrs;
    h.HandlesSized(ext);
    q := UnhookDict(h, c, es, ext);
    ghost var ext1 := ext - multiset{c} + multiset{q};
    Written(old(h.val), h.val, ext, c, q, Entries([]));
    var cells := h.blocks[q].body.cells;
    h.NoCells();
    assert CellPtrs([]) + CellPtrs(cells) == CellPtrs(cells) + multiset{} && ext1 + multiset{} == ext1;
    h.Rewrite(q, DictCells([]), Entries([]), ext1, multiset{}, CellPtrs(cells));
    h.ReleaseCells(cells, ext1);
  }

  // ---- EdbusList

  ghost predicate OwnList(h: Heap, q: Ptr, xs: seq<Value>, ext: multiset<Ptr>)
    reads h
  {
    && h.Ok(ext) && q in ext && q < |h.blocks| == |h.val|
    && h.blocks[q].refs == 1 && h.val[q] == Items(xs)
    && h.blocks[q].body.ListCells? && |h.blocks[q].body.items| == |xs|
    && Denotes(h.blocks[q].body, Items(xs), h.val)
  }

  method UnhookList(h: Heap, c: Ptr, ghost xs: seq<Value>, ghost ext: multiset<Ptr>) returns (q: Ptr)
    requires h.Ok(ext) && c in ext && c < |h.val| && h.val[c] == Items(xs)
    modifies h
    ensures OwnList(h, q, xs, ext - multiset{c} + multiset{q})
    ensures c < |old(h.blocks)| && h.blocks[q].body == old(h.blocks)[c].body
    ensures |old(h.val)| <= |h.val| && forall p :: 0 <= p < |old(h.val)| ==> h.val[p] == old(h.val)[p]
    ensures q !in ext - multiset{c}
  {
    hide Inv, Children;
    LiveHandle(h, c, ext);
    h.ContentDenotes(c, ext);
    q := h.Unhook(c, ext);
    h.ContentDenotes(q, ext - multiset{c} + multiset{q});
    SoleHandle(h, q, ext - multiset{c});
  }

  lemma NewItem(ps: seq<Ptr>, xs: seq<Value>, val: seq<Abs>, v: Ptr, vv: Value)
    requires Denotes(ListCells(ps), Items(xs), val) && IsData(val, v, vv)
    ensures Denotes(ListCells(ps + [v]), Items(xs + [vv]), val)
    ensures Children(ListCells(ps + [v])) + multiset{} == Children(ListCells(ps)) + multiset{v}
  {
  }

  lemma CutItem(ps: seq<Ptr>, xs: seq<Value>, val: seq<Abs>, i: nat)
    requires Denotes(ListCells(ps), Items(xs), val) && i < |ps|
    ensures |xs| == |ps|
    ensures Denotes(ListCells(ps[..i] + ps[i + 1..]), Items(xs[..i] + xs[i + 1..]), val)
    ensures Children(ListCells(ps[..i] + ps[i + 1..])) + multiset{ps[i]} == Children(ListCells(ps)) + multiset{}
  {
    assert ps == ps[..i] + [ps[i]] + ps[i + 1..];
  }

  /** The test that append makes before it writes. */
  method ListTakes(h: Heap, c: Ptr, isArray: bool, v: Ptr, ghost xs: seq<Value>, ghost vv: Value, ghost ext: multiset<Ptr>)
    returns (ok: bool)
    requires h.Ok(ext) && Live(h.blocks, c) && c < |h.val| && h.val[c] == Items(xs)
    requires Live(h.blocks, v) && IsData(h.val, v, vv)
    ensures ok <==> ListAccepts(isArray, xs, vv)
  {
    hide Inv, Children, TypeOf, IsBasic;
    h.ContentDenotes(c, ext);
    h.ContentLive(c, ext);
    h.ContentDenotes(v, ext);
    BasicTypes(h.blocks[v].body, vv, h.val);
    var ps := h.blocks[c].body.items;
    if isArray && |ps| > 0 {
      assert IsData(h.val, ps[0], xs[0]);
      h.ContentDenotes(ps[0], ext);
      BasicTypes(h.blocks[ps[0]].body, xs[0], h.val);
      return BodyType(h.blocks[ps[0]].body) == BodyType(h.blocks[v].body);
    }
    return true;
  }

  /** EdbusList::append */
  method ListAppend(h: Heap, c: Ptr, isArray: bool, v: Ptr, ghost xs: seq<Value>, ghost vv: Value,
                    ghost ext: multiset<Ptr>)
    returns (q: Ptr)
    requires h.Ok(ext) && c in ext && v in ext
    requires c < |h.val| && h.val[c] == Items(xs) && IsData(h.val, v, vv)
    modifies h
    ensures h.Ok(ext - multiset{c} + multiset{q})
    ensures Became(old(h.val), h.val, ext, c, q, Items(Values.ListAppend(isArray, xs, vv)))
    ensures ListAccepts(isArray, xs, vv) ==> Holds(old(h.blocks), c) && Holds(h.blocks, q)
    ensures ListAccepts(isArray, xs, vv) ==> h.blocks[q].body.items == old(h.blocks)[c].body.items + [v]
  {
    hide Inv, Children, TypeOf, ListAccepts, Denotes;
    LiveHandle(h, c, ext);
    LiveHandle(h, v, ext);
    h.HandlesSized(ext);
    var ok := ListTakes(h, c, isArray, v, xs, vv, ext);
    if !ok {
      assert ext - multiset{c} + multiset{c} == ext;
      return c;
    }
    q := UnhookList(h, c, xs, ext);
    ghost var ext1 := ext - multiset{c} + multiset{q};
    assert v != c && v in ext1;
    LiveHandle(h, v, ext1);
    var ps := h.blocks[q].body.items;
    Written(old(h.val), h.val, ext, c, q, Items(xs + [vv]));
    NewItem(ps, xs, h.val, v, vv);
    h.Retain(v, ext1);
    h.Rewrite(q, ListCells(ps + [v]), Items(xs + [vv]), ext1, multiset{v}, multiset{});
    assert ext1 + multiset{} == ext1;
  }

  /** A block of list elements. */
  predicate Holds(blocks: seq<Block>, c: Ptr) {
    c < |blocks| && blocks[c].body.ListCells?
  }

  method FindItem(h: Heap, c: Ptr, v: Ptr, ghost xs: seq<Value>, ghost vv: Value, ghost ext: multiset<Ptr>)
    returns (i: nat)
    requires h.Ok(ext) && Live(h.blocks, c) && c < |h.val| && h.val[c] == Items(xs)
    requires Live(h.blocks, v) && IsData(h.val, v, vv)
    ensures MayFind(xs, vv, i)
    ensures Holds(h.blocks, c) && |h.blocks[c].body.items| == |xs|
    ensures forall j :: 0 <= j < i ==> IsBasic(vv) || h.blocks[c].body.items[j] != v
  {
    hide Inv, Children, TypeOf, Equal, Loose, IsBasic;
    h.ContentDenotes(c, ext);
    h.ContentLive(c, ext);
    var ps := h.blocks[c].body.items;
    i := 0;
    while i < |ps|
      invariant i <= |ps|
      invariant forall j :: 0 <= j < i ==> !Equal(xs[j], vv)
      invariant forall j :: 0 <= j < i ==> IsBasic(vv) || ps[j] != v
    {
      assert IsData(h.val, ps[i], xs[i]);
      var e := DataEqual(h, ps[i], v, false, xs[i], vv, ext);
      if e {
        break;
      }
      i := i + 1;
    }
  }

  /** erase of the element at i */
  method EraseItem(h: Heap, q: Ptr, i: nat, ghost xs: seq<Value>, ghost ext: multiset<Ptr>)
    requires OwnList(h, q, xs, ext) && i < |xs|
    modifies h
    ensures OwnList(h, q, xs[..i] + xs[i + 1..], ext)
    ensures h.val == old(h.val)[q := Items(xs[..i] + xs[i + 1..])]
  {
    hide Inv, Children, Denotes;
    var ps := h.blocks[q].body.items;
    CutItem(ps, xs, h.val, i);
    assert ext + multiset{} == ext;
    h.Rewrite(q, ListCells(ps[..i] + ps[i + 1..]), Items(xs[..i] + xs[i + 1..]), ext, multiset{}, multiset{ps[i]});
    assert ext + multiset{ps[i]} - multiset{ps[i]} == ext;
    h.Release(ps[i], ext + multiset{ps[i]});
    StillOwn(h, q, ext);
  }

  lemma StillOwn(h: Heap, q: Ptr, ext: multiset<Ptr>)
    requires h.Ok(ext) && q in ext
    ensures Live(h.blocks, q) && |h.blocks| == |h.val| && h.blocks[q].refs >= 1
    ensures Denotes(h.blocks[q].body, h.val[q], h.val)
  {
  }

  /** EdbusList::remove */
  method ListRemove(h: Heap, c: Ptr, v: Ptr, ghost xs: seq<Value>, ghost vv: Value, ghost ext: multiset<Ptr>)
    returns (q: Ptr, ghost at: nat)
    requires h.Ok(ext) && c in ext && v in ext
    requires c < |h.val| && h.val[c] == Items(xs) && IsData(h.val, v, vv)
    modifies h
    ensures h.Ok(ext - multiset{c} + multiset{q})
    ensures MayFind(xs, vv, at) && Became(old(h.val), h.val, ext, c, q, Items(CutAt(xs, at)))
    ensures Holds(old(h.blocks), c) && |old(h.blocks)[c].body.items| == |xs|
    ensures forall j :: 0 <= j < at ==> IsBasic(vv) || old(h.blocks)[c].body.items[j] != v
  {
    hide Inv, Children, TypeOf, Equal, Loose, Denotes;
    h.HandlesSized(ext);
    q := UnhookList(h, c, xs, ext);
    ghost var ext1 := ext - multiset{c} + multiset{q};
    assert v != c && v in ext1;
    LiveHandle(h, v, ext1);
    LiveHandle(h, q, ext1);
    var i := FindItem(h, q, v, xs, vv, ext1);
    at := i;
    Written(old(h.val), h.val, ext, c, q, Items(CutAt(xs, i)));
    if i < |h.blocks[q].body.items| {
      EraseItem(h, q, i, xs, ext1);
    } else {
      assert h.val[q := Items(xs)] == h.val;
    }
  }

  /** EdbusList::clear */
  method ListClear(h: Heap, c: Ptr, ghost xs: seq<Value>, ghost ext: multiset<Ptr>) returns (q: Ptr)
    requires h.Ok(ext) && c in ext && c < |h.val| && h.val[c] == Items(xs)
    modifies h
    ensures h.Ok(ext - multiset{c} + multiset{q})
    ensures Became(old(h.val), h.val, ext, c, q, Items([]))
  {
    hide Inv;
    h.HandlesSized(ext);
    q := UnhookList(h, c, xs, ext);
    ghost var ext1 := ext - multiset{c} + multiset{q};
    Written(old(h.val), h.val, ext, c, q, Items([]));
    var ps := h.blocks[q].body.items;
    assert multiset([]) + multiset(ps) == multiset(ps) + multiset{} && ext1 + multiset{} == ext1;
    h.Rewrite(q, ListCells([]), Items([]), ext1, multiset{}, multiset(ps));
    h.ReleaseItems(ps, ext1);
  }

  /** EdbusList::remove_all */
  method ListRemoveAll(h: Heap, c: Ptr, v: Ptr, ghost xs: seq<Value>, ghost vv: Value, ghost ext: multiset<Ptr>)
    returns (q: Ptr, ghost left: seq<Value>)
    requires h.Ok(ext) && c in ext && v in ext
    requires c < |h.val| && h.val[c] == Items(xs) && IsData(h.val, v, vv)
    modifies h
    ensures h.Ok(ext - multiset{c} + multiset{q})
    ensures MayLeave(xs, vv, left) && Became(old(h.val), h.val, ext, c, q, Items(left))
  {
    hide Inv, Children, TypeOf, Equal, Loose, Denotes, MayLeave;
    h.HandlesSized(ext);
    q := UnhookList(h, c, xs, ext);
    ghost var ext1, mid := ext - multiset{c} + multiset{q}, h.val;
    assert v != c && v in ext1 && v != q;
    var i := 0;
    ghost var j, kept := 0, [];
    NothingLeft(vv);
    assert xs[..0] == [] && kept + xs[0..] == xs && mid[q := Items(xs)] == mid;
    while i < |h.blocks[q].body.items|
      invariant 0 <= j <= |xs| && MayLeave(xs[..j], vv, kept) && i == |kept|
      invariant OwnList(h, q, kept + xs[j..], ext1)
      invariant h.val == mid[q := Items(kept + xs[j..])]
      decreases |xs| - j
    {
      ghost var ys := kept + xs[j..];
      assert ys[i] == xs[j];
      var e := ItemEqual(h, q, i, v, ys, vv, ext1);
      RemoveAllTurn(xs, j, vv, kept, ys, e);
      if e {
        EraseItem(h, q, i, ys, ext1);
      } else {
        kept := kept + [xs[j]];
        i := i + 1;
      }
      j := j + 1;
    }
    assert j == |xs| && xs[..j] == xs && kept + xs[j..] == kept;
    left := kept;
    Written(old(h.val), mid, ext, c, q, Items(left));
  }

  method ItemEqual(h: Heap, q: Ptr, i: nat, v: Ptr, ghost xs: seq<Value>, ghost vv: Value, ghost ext: multiset<Ptr>)
    returns (r: bool)
    requires OwnList(h, q, xs, ext) && i < |xs| && v in ext && IsData(h.val, v, vv)
    ensures (Equal(xs[i], vv) ==> r) && (r ==> Loose(xs[i], vv))
  {
    hide Inv, Children, TypeOf, Equal, Loose, IsBasic;
    LiveHandle(h, q, ext);
    LiveHandle(h, v, ext);
    h.ContentLive(q, ext);
    var p := h.blocks[q].body.items[i];
    assert IsData(h.val, p, xs[i]);
    r := DataEqual(h, p, v, false, xs[i], vv, ext);
  }
}
