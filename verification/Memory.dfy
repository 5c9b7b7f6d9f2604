/** The reference-counting core: every change to memory keeps the counting invariant,
    where ext collects the handles held outside the blocks. */
module Memory {
  import opened Values
  import opened Blocks

  /** Blocks keep what they held, unless they were given back, and gain no handles. */
  ghost predicate Kept(before: seq<Block>, after: seq<Block>) {
    && |before| <= |after|
    && forall p :: 0 <= p < |before| ==>
      (after[p].body == before[p].body || after[p].body.Gone?) && after[p].refs <= before[p].refs
  }

  /** Blocks keep their content and gain handles only. */
  ghost predicate Grown(before: seq<Block>, after: seq<Block>) {
    && |before| <= |after|
    && forall p :: 0 <= p < |before| ==> after[p].body == before[p].body && after[p].refs >= before[p].refs
  }

  /** EdbusDataPrivate::type */
  function BodyType(b: Body): Type {
    match b
    case Plain(v) => TypeOf(v)
    case VariantBox(_) => VariantT
    case DictBox(_) => DictT
    case ListBox(isArray, _) => if isArray then ArrayT else StructT
    case _ => InvalidT
  }

  lemma BodyTypeIs(b: Body, v: Value, val: seq<Abs>)
    requires Denotes(b, Data(v), val) && !b.Gone?
    ensures BodyType(b) == TypeOf(v)
  {
  }

  class Heap {
    var blocks: seq<Block>
    ghost var val: seq<Abs>

    ghost predicate Ok(ext: multiset<Ptr>)
      reads this
    {
      Inv(blocks, val, ext)
    }

    constructor ()
      ensures Ok(multiset{}) && blocks == []
    {
      blocks, val := [], [];
    }

    /** One more handle to p. */
    method Retain(p: Ptr, ghost ext: multiset<Ptr>)
      requires Ok(ext) && Live(blocks, p)
      modifies `blocks
      ensures Ok(ext + multiset{p})
      ensures blocks == old(blocks)[p := Block(old(blocks)[p].refs + 1, old(blocks)[p].body)]
    {
      hide Inv;
      RetainInv(blocks, val, ext, p);
      blocks := blocks[p := Block(blocks[p].refs + 1, blocks[p].body)];
    }

    /** One handle to p goes; with the last one, the block is disposed of and the
        handles it owned go too. */
    method Release(p: Ptr, ghost ext: multiset<Ptr>)
      requires Ok(ext) && p in ext
      modifies `blocks
      ensures Ok(ext - multiset{p})
      ensures Kept(old(blocks), blocks) && |blocks| == |old(blocks)|
      ensures LiveCount(blocks) <= old(LiveCount(blocks))
      decreases LiveCount(blocks), 0
    {
      hide Inv, Children, Denotes;
      HandleLive(blocks, val, ext, p);
      var b := blocks[p];
      if b.refs > 1 {
        DropInv(blocks, val, ext, p);
        LiveCountUpdate(blocks, p, Block(b.refs - 1, b.body));
        blocks := blocks[p := Block(b.refs - 1, b.body)];
        return;
      }
      FreeInv(blocks, val, ext, p);
      LiveCountUpdate(blocks, p, Block(0, Gone));
      blocks := blocks[p := Block(0, Gone)];
      ReleaseChildren(b.body, ext - multiset{p});
    }

    /** EdbusData::dispose and ~EdbusContainer: each handle the block owned goes. */
    method ReleaseChildren(b: Body, ghost ext: multiset<Ptr>)
      requires Ok(ext + Children(b))
      modifies `blocks
      ensures Ok(ext)
      ensures Kept(old(blocks), blocks) && |blocks| == |old(blocks)|
      ensures LiveCount(blocks) <= old(LiveCount(blocks))
      decreases LiveCount(blocks), 3
    {
      hide Inv, CellPtrs, Denotes;
      match b
      case VariantBox(d) =>
        One(d);
        ReleaseItems([d], ext);
      case DictBox(c) =>
        One(c);
        ReleaseItems([c], ext);
      case ListBox(_, c) =>
        One(c);
        ReleaseItems([c], ext);
      case DictCells(cells) => ReleaseCells(cells, ext);
      case ListCells(ps) => ReleaseItems(ps, ext);
      case Plain(_) => assert ext + Children(b) == ext;
      case Gone => assert ext + Children(b) == ext;
    }

    method ReleaseItems(ps: seq<Ptr>, ghost ext: multiset<Ptr>)
      requires Ok(ext + multiset(ps))
      modifies `blocks
      ensures Ok(ext)
      ensures Kept(old(blocks), blocks) && |blocks| == |old(blocks)|
      ensures LiveCount(blocks) <= old(LiveCount(blocks))
      decreases LiveCount(blocks), 1
    {
      hide Inv;
      var i := 0;
      while i < |ps|
        invariant i <= |ps|
        invariant Ok(ext + multiset(ps[i..]))
        invariant Kept(old(blocks), blocks) && |blocks| == |old(blocks)|
        invariant LiveCount(blocks) <= old(LiveCount(blocks))
      {
        assert ps[i..] == [ps[i]] + ps[i + 1..];
        assert ext + multiset(ps[i..]) - multiset{ps[i]} == ext + multiset(ps[i + 1..]);
        Release(ps[i], ext + multiset(ps[i..]));
        i := i + 1;
      }
      assert ext + multiset(ps[i..]) == ext;
    }

    method ReleaseCells(cells: seq<Cell>, ghost ext: multiset<Ptr>)
      requires Ok(ext + CellPtrs(cells))
      modifies `blocks
      ensures Ok(ext)
      ensures Kept(old(blocks), blocks) && |blocks| == |old(blocks)|
      ensures LiveCount(blocks) <= old(LiveCount(blocks))
      decreases LiveCount(blocks), 2
    {
      hide Inv, CellPtrs, Pair;
      NoCells();
      var i := 0;
      assert cells[0..] == cells;
      while i < |cells|
        invariant i <= |cells|
        invariant Ok(ext + CellPtrs(cells[i..]))
        invariant Kept(old(blocks), blocks) && |blocks| == |old(blocks)|
        invariant LiveCount(blocks) <= old(LiveCount(blocks))
      {
        var c := cells[i];
        FirstCell(cells[i..]);
        assert cells[i..][0] == c && cells[i..][1..] == cells[i + 1..];
        assert ext + CellPtrs(cells[i..]) == ext + CellPtrs(cells[i + 1..]) + multiset([c.key, c.value]);
        ReleaseItems([c.key, c.value], ext + CellPtrs(cells[i + 1..]));
        i := i + 1;
      }
      assert cells[i..] == [] && ext + CellPtrs([]) == ext;
    }

    lemma NoCells()
      ensures CellPtrs([]) == multiset{}
    {
    }

    /** One more handle to each of ps. */
    method RetainItems(ps: seq<Ptr>, ghost ext: multiset<Ptr>)
      requires Ok(ext) && forall i :: 0 <= i < |ps| ==> Live(blocks, ps[i])
      modifies `blocks
      ensures Ok(ext + multiset(ps))
      ensures |blocks| == |old(blocks)| && Grown(old(blocks), blocks)
      ensures forall p :: 0 <= p < |blocks| && p !in ps ==> blocks[p] == old(blocks)[p]
    {
      hide Inv;
      var i := 0;
      assert ext + multiset(ps[..0]) == ext;
      while i < |ps|
        invariant i <= |ps|
        invariant Ok(ext + multiset(ps[..i]))
        invariant |blocks| == |old(blocks)| && Grown(old(blocks), blocks)
        invariant forall p :: 0 <= p < |blocks| && p !in ps ==> blocks[p] == old(blocks)[p]
      {
        assert ps[..i + 1] == ps[..i] + [ps[i]];
        assert ext + multiset(ps[..i + 1]) == ext + multiset(ps[..i]) + multiset{ps[i]};
        Retain(ps[i], ext + multiset(ps[..i]));
        i := i + 1;
      }
      assert ps[..i] == ps;
    }

    method RetainCells(cells: seq<Cell>, ghost ext: multiset<Ptr>)
      requires Ok(ext) && forall i :: 0 <= i < |cells| ==> Live(blocks, cells[i].key) && Live(blocks, cells[i].value)
      modifies `blocks
      ensures Ok(ext + CellPtrs(cells))
      ensures |blocks| == |old(blocks)| && Grown(old(blocks), blocks)
    {
      hide Inv, CellPtrs, Pair;
      var i := 0;
      NoCells();
      assert cells[..0] == [] && ext + CellPtrs([]) == ext;
      while i < |cells|
        invariant i <= |cells|
        invariant Ok(ext + CellPtrs(cells[..i]))
        invariant |blocks| == |old(blocks)| && Grown(old(blocks), blocks)
      {
        var c := cells[i];
        LastCell(cells[..i + 1]);
        assert cells[..i + 1][..i] == cells[..i] && cells[..i + 1][i] == c;
        assert ext + CellPtrs(cells[..i + 1]) == ext + CellPtrs(cells[..i]) + multiset([c.key, c.value]);
        RetainItems([c.key, c.value], ext + CellPtrs(cells[..i]));
        i := i + 1;
      }
      assert cells[..i] == cells;
    }

    /** A new block with one handle; the handles it owns were held outside before. */
    method Alloc(body: Body, ghost a: Abs, ghost ext: multiset<Ptr>) returns (p: Ptr)
      requires Ok(ext + Children(body)) && Denotes(body, a, val) && !body.Gone?
      modifies this
      ensures p == |old(blocks)| && Ok(ext + multiset{p})
      ensures blocks == old(blocks) + [Block(1, body)] && val == old(val) + [a]
    {
      hide Inv;
      AllocInv(blocks, val, ext, body, a);
      p := |blocks|;
      blocks, val := blocks + [Block(1, body)], val + [a];
      OkSizes(ext + multiset{p});
    }

    /** New content for a block nobody shares. */
    method Rewrite(p: Ptr, body: Body, ghost a: Abs, ghost ext: multiset<Ptr>,
                   ghost taken: multiset<Ptr>, ghost dropped: multiset<Ptr>)
      requires Ok(ext + taken) && p in ext && p < |blocks| && blocks[p].refs == 1
      requires Children(body) + dropped == Children(blocks[p].body) + taken
      requires Denotes(body, a, val) && !body.Gone?
      modifies this
      ensures Ok(ext + dropped) && |val| == |old(val)| == |blocks|
      ensures blocks == old(blocks)[p := Block(1, body)] && val == old(val)[p := a]
    {
      hide Inv;
      OkSizes(ext + taken);
      RewriteInv(blocks, val, ext, p, body, a, taken, dropped);
      blocks, val := blocks[p := Block(1, body)], val[p := a];
    }

    /** EdbusContainer::unhook: a container block shared with other handles is copied,
        the copy taking a handle to every element; one that is not shared stays. */
    method Unhook(c: Ptr, ghost ext: multiset<Ptr>) returns (q: Ptr)
      requires Ok(ext) && c in ext
      requires blocks[c].body.DictCells? || blocks[c].body.ListCells?
      modifies this
      ensures Ok(ext - multiset{c} + multiset{q}) && |val| == |blocks|
      ensures q < |blocks| && blocks[q].refs == 1 && blocks[q].body == old(blocks)[c].body
      ensures |old(blocks)| == |old(val)| <= |val| && forall p :: 0 <= p < |old(blocks)| ==> blocks[p].body == old(blocks)[p].body
      ensures val[q] == old(val)[c]
      ensures forall p :: 0 <= p < |old(val)| ==> val[p] == old(val)[p]
      ensures q == c || q == |old(blocks)|
    {
      hide Inv, Denotes, CellPtrs;
      OkSizes(ext);
      HandleLive(blocks, val, ext, c);
      if blocks[c].refs == 1 {
        assert ext - multiset{c} + multiset{c} == ext;
        return c;
      }
      var body := blocks[c].body;
      ContentLive(c, ext);
      match body {
        case DictCells(cells) => RetainCells(cells, ext);
        case ListCells(ps) => RetainItems(ps, ext);
      }
      ContentDenotes(c, ext + Children(body));
      q := Alloc(body, val[c], ext);
      DropInv(blocks, val, ext + multiset{q}, c);
      blocks := blocks[c := Block(blocks[c].refs - 1, body)];
      OkSizes(ext + multiset{q} - multiset{c});
      assert ext + multiset{q} - multiset{c} == ext - multiset{c} + multiset{q};
    }

    lemma ContentLive(c: Ptr, ext: multiset<Ptr>)
      requires Ok(ext) && Live(blocks, c)
      ensures blocks[c].body.DictCells? ==> forall i :: 0 <= i < |blocks[c].body.cells| ==>
        Live(blocks, blocks[c].body.cells[i].key) && Live(blocks, blocks[c].body.cells[i].value)
      ensures blocks[c].body.ListCells? ==> forall i :: 0 <= i < |blocks[c].body.items| ==>
        Live(blocks, blocks[c].body.items[i])
      ensures blocks[c].body.DictBox? || blocks[c].body.ListBox? ==> Live(blocks, blocks[c].body.cont)
      ensures blocks[c].body.VariantBox? ==> Live(blocks, blocks[c].body.data)
    {
      hide CellPtrs, Owners;
      forall p | p in Children(blocks[c].body)
        ensures Live(blocks, p)
      {
        ChildLive(blocks, val, ext, c, p);
      }
      if blocks[c].body.DictCells? {
        forall i | 0 <= i < |blocks[c].body.cells|
          ensures Live(blocks, blocks[c].body.cells[i].key) && Live(blocks, blocks[c].body.cells[i].value)
        {
          CellPtrsAt(blocks[c].body.cells, i);
        }
      }
    }

    lemma ContentDenotes(c: Ptr, ext: multiset<Ptr>)
      requires Ok(ext) && c < |blocks|
      ensures |val| == |blocks| && Denotes(blocks[c].body, val[c], val)
    {
    }

    lemma HandlesSized(ext: multiset<Ptr>)
      requires Ok(ext)
      ensures |val| == |blocks| && forall p :: p in ext ==> p < |blocks|
    {
    }

    lemma OkSizes(ext: multiset<Ptr>)
      requires Ok(ext)
      ensures |val| == |blocks|
    {
    }
  }

  lemma One(p: Ptr)
    ensures multiset([p]) == multiset{p}
  {
  }

  lemma Two(c: Cell)
    ensures multiset([c.key, c.value]) == Pair(c)
  {
  }

  lemma LastCell(cells: seq<Cell>)
    requires cells != []
    ensures CellPtrs(cells) == CellPtrs(cells[..|cells| - 1]) + multiset([cells[|cells| - 1].key, cells[|cells| - 1].value])
  {
    Two(cells[|cells| - 1]);
  }

  lemma FirstCell(cells: seq<Cell>)
    requires cells != []
    ensures CellPtrs(cells) == CellPtrs(cells[1..]) + multiset([cells[0].key, cells[0].value])
  {
    hide Pair, CellPtrs;
    Two(cells[0]);
    CellPtrsRemove(cells, 0);
    assert cells[..0] + cells[0 + 1..] == cells[1..];
  }
}
