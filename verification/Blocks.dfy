/** The shared, reference-counted blocks behind EdbusData and the Edbus containers:
    memory as a sequence of blocks, an address being a position in it. */
module Blocks {
  import opened Values

  type Ptr = nat

  /** An EdbusDictEntry: two EdbusData handles. */
  datatype Cell = Cell(key: Ptr, value: Ptr)

  /** What a block holds. The first four after Gone are EdbusDataPrivate blocks, the
      last two EdbusContainerImpl blocks; Gone is memory that was given back. */
  datatype Body =
    | Gone
    | Plain(v: Value)
    | VariantBox(data: Ptr)
    | DictBox(cont: Ptr)
    | ListBox(isArray: bool, cont: Ptr)
    | DictCells(cells: seq<Cell>)
    | ListCells(items: seq<Ptr>)

  datatype Block = Block(refs: nat, body: Body)

  /** What a block stands for: a value, a dict's entries or a list's elements. */
  datatype Abs = Data(v: Value) | Entries(es: seq<Entry>) | Items(xs: seq<Value>)

  // ---- ownership

  function Pair(c: Cell): multiset<Ptr> {
    multiset{c.key, c.value}
  }

  function CellPtrs(cells: seq<Cell>): multiset<Ptr> {
    if cells == [] then multiset{}
    else CellPtrs(cells[..|cells| - 1]) + Pair(cells[|cells| - 1])
  }

  /** The handles a block owns, with multiplicity. */
  function Children(b: Body): multiset<Ptr> {
    match b
    case Gone => multiset{}
    case Plain(_) => multiset{}
    case VariantBox(d) => multiset{d}
    case DictBox(c) => multiset{c}
    case ListBox(_, c) => multiset{c}
    case DictCells(cells) => CellPtrs(cells)
    case ListCells(ps) => multiset(ps)
  }

  /** How many handles to p the blocks own. */
  function Owners(blocks: seq<Block>, p: Ptr): nat {
    if blocks == [] then 0
    else Owners(blocks[..|blocks| - 1], p) + Children(blocks[|blocks| - 1].body)[p]
  }

  function LiveCount(blocks: seq<Block>): nat {
    if blocks == [] then 0
    else LiveCount(blocks[..|blocks| - 1]) + if blocks[|blocks| - 1].body.Gone? then 0 else 1
  }

  lemma {:induction false} OwnersUpdate(blocks: seq<Block>, i: nat, b: Block, p: Ptr)
    requires i < |blocks|
    ensures Owners(blocks[i := b], p) + Children(blocks[i].body)[p] == Owners(blocks, p) + Children(b.body)[p]
  {
    hide Children;
    var n := |blocks| - 1;
    if i == n {
      assert blocks[i := b][..n] == blocks[..n];
    } else {
      assert blocks[i := b][..n] == blocks[..n][i := b];
      OwnersUpdate(blocks[..n], i, b, p);
    }
  }

  lemma {:induction false} LiveCountUpdate(blocks: seq<Block>, i: nat, b: Block)
    requires i < |blocks|
    ensures LiveCount(blocks[i := b]) + (if blocks[i].body.Gone? then 0 else 1)
         == LiveCount(blocks) + (if b.body.Gone? then 0 else 1)
  {
    var n := |blocks| - 1;
    if i == n {
      assert blocks[i := b][..n] == blocks[..n];
    } else {
      assert blocks[i := b][..n] == blocks[..n][i := b];
      LiveCountUpdate(blocks[..n], i, b);
    }
  }

  lemma {:induction false} OwnersAtLeast(blocks: seq<Block>, i: nat, p: Ptr)
    requires i < |blocks|
    ensures Children(blocks[i].body)[p] <= Owners(blocks, p)
  {
    hide Children;
    var n := |blocks| - 1;
    if i < n {
      OwnersAtLeast(blocks[..n], i, p);
    }
  }

  lemma {:induction false} OwnerOf(blocks: seq<Block>, p: Ptr) returns (i: nat)
    requires Owners(blocks, p) > 0
    ensures i < |blocks| && p in Children(blocks[i].body)
  {
    hide Children;
    var n := |blocks| - 1;
    if p in Children(blocks[n].body) {
      i := n;
    } else {
      i := OwnerOf(blocks[..n], p);
    }
  }

  lemma {:induction false} CellPtrsAt(cells: seq<Cell>, i: nat)
    requires i < |cells|
    ensures cells[i].key in CellPtrs(cells) && cells[i].value in CellPtrs(cells)
  {
    if i < |cells| - 1 {
      CellPtrsAt(cells[..|cells| - 1], i);
    }
  }

  lemma {:induction false} CellPtrsUpdate(cells: seq<Cell>, i: nat, c: Cell)
    requires i < |cells|
    ensures CellPtrs(cells[i := c]) + Pair(cells[i]) == CellPtrs(cells) + Pair(c)
  {
    hide Pair;
    var n := |cells| - 1;
    if i == n {
      assert cells[i := c][..n] == cells[..n];
    } else {
      var r := cells[i := c];
      assert r[..n] == cells[..n][i := c] && |r| - 1 == n && r[n] == cells[n];
      assert CellPtrs(r) == CellPtrs(cells[..n][i := c]) + Pair(cells[n]);
      CellPtrsUpdate(cells[..n], i, c);
      Exchange(CellPtrs(cells[..n][i := c]), Pair(cells[i]), CellPtrs(cells[..n]), Pair(c), Pair(cells[n]));
    }
  }

  lemma Exchange(a: multiset<Ptr>, x: multiset<Ptr>, b: multiset<Ptr>, y: multiset<Ptr>, l: multiset<Ptr>)
    requires a + x == b + y
    ensures (a + l) + x == (b + l) + y
  {
    assert (a + l) + x == (a + x) + l;
    assert (b + l) + y == (b + y) + l;
  }

  lemma {:induction false} CellPtrsRemove(cells: seq<Cell>, i: nat)
    requires i < |cells|
    ensures CellPtrs(cells[..i] + cells[i + 1..]) + Pair(cells[i]) == CellPtrs(cells)
  {
    hide Pair;
    var n := |cells| - 1;
    var r := cells[..i] + cells[i + 1..];
    if i == n {
      assert r == cells[..n];
    } else {
      assert r[..|r| - 1] == cells[..n][..i] + cells[..n][i + 1..];
      assert r[|r| - 1] == cells[n];
      CellPtrsRemove(cells[..n], i);
    }
  }

  lemma {:induction false} CellPtrsMember(cells: seq<Cell>, p: Ptr)
    requires p in CellPtrs(cells)
    ensures exists i :: 0 <= i < |cells| && (cells[i].key == p || cells[i].value == p)
  {
    var n := |cells| - 1;
    if p != cells[n].key && p != cells[n].value {
      CellPtrsMember(cells[..n], p);
    }
  }

  // ---- meaning

  ghost predicate IsData(val: seq<Abs>, p: Ptr, v: Value) {
    p < |val| && val[p] == Data(v)
  }

  /** A block's content read through what its children stand for. */
  ghost predicate Denotes(b: Body, a: Abs, val: seq<Abs>) {
    match b
    case Gone => true
    case Plain(v) => a == Data(v) && IsBasic(v)
    case VariantBox(d) => d < |val| && val[d].Data? && a == Data(Variant(val[d].v))
    case DictBox(c) => c < |val| && val[c].Entries? && a == Data(Dict(val[c].es))
    case ListBox(isArray, c) =>
      c < |val| && val[c].Items? && a == Data(if isArray then Array(val[c].xs) else Struct(val[c].xs))
    case DictCells(cells) =>
      && a.Entries? && |a.es| == |cells|
      && (forall i :: 0 <= i < |cells| ==> IsData(val, cells[i].key, a.es[i].key) && IsData(val, cells[i].value, a.es[i].value))
      && forall i :: 0 <= i < |cells| ==> IsBasic(a.es[i].key)
    case ListCells(ps) =>
      && a.Items? && |a.xs| == |ps|
      && forall i :: 0 <= i < |ps| ==> IsData(val, ps[i], a.xs[i])
  }

  ghost predicate Denoted(blocks: seq<Block>, val: seq<Abs>) {
    && |val| == |blocks|
    && forall p :: 0 <= p < |blocks| ==> Denotes(blocks[p].body, val[p], val)
  }

  /** Each block's count is the number of handles to it: those outside the blocks
      (ext) and those inside. A block is given back exactly when there are none. */
  ghost predicate Counted(blocks: seq<Block>, ext: multiset<Ptr>) {
    && (forall p :: p in ext ==> p < |blocks|)
    && (forall p :: 0 <= p < |blocks| ==> blocks[p].refs == ext[p] + Owners(blocks, p))
    && (forall p :: 0 <= p < |blocks| ==> (blocks[p].refs == 0 <==> blocks[p].body.Gone?))
  }

  ghost predicate Inv(blocks: seq<Block>, val: seq<Abs>, ext: multiset<Ptr>) {
    Denoted(blocks, val) && Counted(blocks, ext)
  }

  predicate Live(blocks: seq<Block>, p: Ptr) {
    p < |blocks| && !blocks[p].body.Gone?
  }

  lemma DenotesChild(b: Body, a: Abs, val: seq<Abs>, p: Ptr)
    requires Denotes(b, a, val) && p in Children(b)
    ensures p < |val|
  {
    if b.DictCells? {
      CellPtrsMember(b.cells, p);
    }
  }

  /** What a block stands for does not depend on addresses it does not hold. */
  lemma DenotesFrame(b: Body, a: Abs, val: seq<Abs>, val': seq<Abs>)
    requires Denotes(b, a, val)
    requires |val| <= |val'| && forall p :: 0 <= p < |val| && p in Children(b) ==> val'[p] == val[p]
    ensures Denotes(b, a, val')
  {
    if b.DictCells? {
      forall i | 0 <= i < |b.cells|
        ensures b.cells[i].key in Children(b) && b.cells[i].value in Children(b)
      {
        CellPtrsAt(b.cells, i);
      }
    }
  }

  /** No handle is ever left dangling. */
  lemma HandleLive(blocks: seq<Block>, val: seq<Abs>, ext: multiset<Ptr>, p: Ptr)
    requires Inv(blocks, val, ext) && p in ext
    ensures Live(blocks, p) && blocks[p].refs > 0
  {
  }

  lemma ChildLive(blocks: seq<Block>, val: seq<Abs>, ext: multiset<Ptr>, o: Ptr, p: Ptr)
    requires Inv(blocks, val, ext) && o < |blocks| && p in Children(blocks[o].body)
    ensures Live(blocks, p) && blocks[p].refs > 0
  {
    DenotesChild(blocks[o].body, val[o], val, p);
    OwnersAtLeast(blocks, o, p);
  }

  // ---- the steps that change memory

  lemma SetCounts(blocks: seq<Block>, ext: multiset<Ptr>, p: Ptr, b: Block, ext': multiset<Ptr>)
    requires Counted(blocks, ext) && p < |blocks|
    requires b.refs == 0 <==> b.body.Gone?
    requires forall q :: q in ext' ==> q < |blocks|
    requires forall q :: 0 <= q < |blocks| ==>
      (if q == p then b.refs else blocks[q].refs) + Children(blocks[p].body)[q]
        == ext'[q] + Owners(blocks, q) + Children(b.body)[q]
    ensures Counted(blocks[p := b], ext')
  {
    hide Children, Owners;
    forall q | 0 <= q < |blocks|
      ensures blocks[p := b][q].refs == ext'[q] + Owners(blocks[p := b], q)
    {
      OwnersUpdate(blocks, p, b, q);
    }
  }

  lemma RetainInv(blocks: seq<Block>, val: seq<Abs>, ext: multiset<Ptr>, p: Ptr)
    requires Inv(blocks, val, ext) && Live(blocks, p)
    ensures Inv(blocks[p := Block(blocks[p].refs + 1, blocks[p].body)], val, ext + multiset{p})
  {
    hide Children, Owners, Denotes;
    SetCounts(blocks, ext, p, Block(blocks[p].refs + 1, blocks[p].body), ext + multiset{p});
  }

  lemma DropInv(blocks: seq<Block>, val: seq<Abs>, ext: multiset<Ptr>, p: Ptr)
    requires Inv(blocks, val, ext) && p in ext && blocks[p].refs > 1
    ensures Inv(blocks[p := Block(blocks[p].refs - 1, blocks[p].body)], val, ext - multiset{p})
  {
    hide Children, Owners, Denotes;
    SetCounts(blocks, ext, p, Block(blocks[p].refs - 1, blocks[p].body), ext - multiset{p});
  }

  lemma ChildrenBound(blocks: seq<Block>, val: seq<Abs>, p: Ptr)
    requires Denoted(blocks, val) && p < |blocks|
    ensures forall q :: q in Children(blocks[p].body) ==> q < |blocks|
  {
    forall q | q in Children(blocks[p].body)
      ensures q < |blocks|
    {
      DenotesChild(blocks[p].body, val[p], val, q);
    }
  }

  lemma FreeInv(blocks: seq<Block>, val: seq<Abs>, ext: multiset<Ptr>, p: Ptr)
    requires Inv(blocks, val, ext) && p in ext && blocks[p].refs == 1
    ensures Inv(blocks[p := Block(0, Gone)], val, ext - multiset{p} + Children(blocks[p].body))
  {
    hide Owners;
    ChildrenBound(blocks, val, p);
    FreeCounts(blocks, ext, p);
  }

  lemma FreeCounts(blocks: seq<Block>, ext: multiset<Ptr>, p: Ptr)
    requires Counted(blocks, ext) && p in ext && blocks[p].refs == 1
    requires forall q :: q in Children(blocks[p].body) ==> q < |blocks|
    ensures Counted(blocks[p := Block(0, Gone)], ext - multiset{p} + Children(blocks[p].body))
  {
    hide Owners;
    SetCounts(blocks, ext, p, Block(0, Gone), ext - multiset{p} + Children(blocks[p].body));
  }

  /** Nothing reads an address that has not been handed out yet. */
  lemma FreshUnowned(blocks: seq<Block>, val: seq<Abs>)
    requires Denoted(blocks, val)
    ensures Owners(blocks, |blocks|) == 0
  {
    if Owners(blocks, |blocks|) > 0 {
      var o := OwnerOf(blocks, |blocks|);
      ChildrenBound(blocks, val, o);
      assert false;
    }
  }

  lemma AllocInv(blocks: seq<Block>, val: seq<Abs>, ext: multiset<Ptr>, body: Body, a: Abs)
    requires Inv(blocks, val, ext + Children(body)) && Denotes(body, a, val) && !body.Gone?
    ensures Inv(blocks + [Block(1, body)], val + [a], ext + multiset{|blocks|})
  {
    hide Children, Owners, Denotes, Counted;
    FreshUnowned(blocks, val);
    AllocCounts(blocks, ext, body);
    forall p | 0 <= p < |blocks|
      ensures Denotes(blocks[p].body, val[p], val + [a])
    {
      DenotesFrame(blocks[p].body, val[p], val, val + [a]);
    }
    DenotesFrame(body, a, val, val + [a]);
  }

  lemma OwnersSnoc(blocks: seq<Block>, b: Block, p: Ptr)
    ensures Owners(blocks + [b], p) == Owners(blocks, p) + Children(b.body)[p]
  {
    hide Children;
    assert (blocks + [b])[..|blocks|] == blocks;
  }

  lemma AllocCounts(blocks: seq<Block>, ext: multiset<Ptr>, body: Body)
    requires Counted(blocks, ext + Children(body)) && Owners(blocks, |blocks|) == 0 && !body.Gone?
    ensures Counted(blocks + [Block(1, body)], ext + multiset{|blocks|})
  {
    hide Children, Owners;
    var n, ch := |blocks|, Children(body);
    assert n !in ext + ch;
    assert ext[n] == 0 && ch[n] == 0;
    forall p | 0 <= p <= n
      ensures (blocks + [Block(1, body)])[p].refs == (ext + multiset{n})[p] + Owners(blocks + [Block(1, body)], p)
    {
      OwnersSnoc(blocks, Block(1, body), p);
    }
    forall p | p in ext + multiset{n}
      ensures p <= n
    {
      assert p == n || p in ext + ch;
    }
  }

  /** A block with one handle, held outside, can be rewritten: nothing else reads it.
      The handles taken in come from outside, the ones let go are left outside. */
  lemma RewriteInv(blocks: seq<Block>, val: seq<Abs>, ext: multiset<Ptr>, p: Ptr, body: Body, a: Abs,
                   taken: multiset<Ptr>, dropped: multiset<Ptr>)
    requires Inv(blocks, val, ext + taken) && p in ext && p < |blocks| && blocks[p].refs == 1
    requires Children(body) + dropped == Children(blocks[p].body) + taken
    requires Denotes(body, a, val) && !body.Gone?
    ensures Inv(blocks[p := Block(1, body)], val[p := a], ext + dropped)
  {
    hide Children, Owners, Denotes, Counted;
    ChildrenBound(blocks, val, p);
    RewriteCounts(blocks, ext, p, body, taken, dropped);
    forall q | 0 <= q < |blocks| && q != p
      ensures Denotes(blocks[q].body, val[q], val[p := a])
    {
      OwnersAtLeast(blocks, q, p);
      DenotesFrame(blocks[q].body, val[q], val, val[p := a]);
    }
    DenotesFrame(body, a, val, val[p := a]);
  }

  lemma RewriteCounts(blocks: seq<Block>, ext: multiset<Ptr>, p: Ptr, body: Body,
                      taken: multiset<Ptr>, dropped: multiset<Ptr>)
    requires Counted(blocks, ext + taken) && p in ext && p < |blocks| && blocks[p].refs == 1
    requires Children(body) + dropped == Children(blocks[p].body) + taken
    requires forall q :: q in Children(blocks[p].body) ==> q < |blocks|
    requires !body.Gone?
    ensures Owners(blocks, p) == 0 && p !in Children(body)
    ensures Counted(blocks[p := Block(1, body)], ext + dropped)
  {
    hide Children, Owners;
    OwnersAtLeast(blocks, p, p);
    forall q
      ensures Children(body)[q] + dropped[q] == Children(blocks[p].body)[q] + taken[q]
    {
      assert (Children(body) + dropped)[q] == (Children(blocks[p].body) + taken)[q];
    }
    assert forall q :: q in ext + dropped ==> q in ext + taken || q in Children(blocks[p].body);
    SetCounts(blocks, ext + taken, p, Block(1, body), ext + dropped);
  }
}
