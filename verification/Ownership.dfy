/** What the counting invariant means: no cycles, no leaks, nothing freed early. */
module Ownership {
  import opened Values
  import opened Blocks

  function Weight(v: Value): nat {
    match v
    case Invalid => 1
    case Scalar(_) => 1
    case Array(xs) => 2 + Weights(xs)
    case Struct(xs) => 2 + Weights(xs)
    case Dict(es) => 2 + EntryWeights(es)
    case Variant(x) => 1 + Weight(x)
  }

  function Weights(xs: seq<Value>): nat {
    if xs == [] then 0 else Weight(xs[0]) + Weights(xs[1..])
  }

  function EntryWeights(es: seq<Entry>): nat {
    if es == [] then 0 else EntryWeight(es[0]) + EntryWeights(es[1..])
  }

  function EntryWeight(e: Entry): nat {
    Weight(e.key) + Weight(e.value)
  }

  function AbsWeight(a: Abs): nat {
    match a
    case Data(v) => Weight(v)
    case Entries(es) => 1 + EntryWeights(es)
    case Items(xs) => 1 + Weights(xs)
  }

  lemma {:induction false} WeightAt(xs: seq<Value>, i: nat)
    requires i < |xs|
    ensures Weight(xs[i]) <= Weights(xs)
  {
    if i > 0 {
      WeightAt(xs[1..], i - 1);
    }
  }

  lemma {:induction false} EntryWeightAt(es: seq<Entry>, i: nat)
    requires i < |es|
    ensures Weight(es[i].key) <= EntryWeights(es) && Weight(es[i].value) <= EntryWeights(es)
  {
    if i > 0 {
      EntryWeightAt(es[1..], i - 1);
    }
  }

  /** A block weighs more than every block it holds a handle to. */
  lemma Descends(blocks: seq<Block>, val: seq<Abs>, o: Ptr, p: Ptr)
    requires Denoted(blocks, val) && o < |blocks| && p in Children(blocks[o].body)
    ensures p < |blocks| && AbsWeight(val[p]) < AbsWeight(val[o])
  {
    hide IsBasic, TypeOf, CellPtrs;
    DenotesChild(blocks[o].body, val[o], val, p);
    match blocks[o].body
    case DictCells(cells) =>
      CellPtrsMember(cells, p);
      var i :| 0 <= i < |cells| && (cells[i].key == p || cells[i].value == p);
      EntryWeightAt(val[o].es, i);
    case ListCells(ps) =>
      var i :| 0 <= i < |ps| && ps[i] == p;
      WeightAt(val[o].xs, i);
    case _ =>
  }

  /** Each block of ps holds a handle to the next. */
  ghost predicate Path(blocks: seq<Block>, ps: seq<Ptr>) {
    && ps != []
    && forall i :: 0 <= i < |ps| - 1 ==> Holds(blocks, ps[i], ps[i + 1])
  }

  ghost predicate Holds(blocks: seq<Block>, o: Ptr, p: Ptr) {
    o < |blocks| && p in Children(blocks[o].body)
  }

  lemma {:induction false} PathDescends(blocks: seq<Block>, val: seq<Abs>, ps: seq<Ptr>)
    requires Denoted(blocks, val) && Path(blocks, ps) && |ps| > 1
    ensures ps[0] < |blocks| && ps[|ps| - 1] < |blocks|
    ensures AbsWeight(val[ps[|ps| - 1]]) < AbsWeight(val[ps[0]])
  {
    assert Holds(blocks, ps[0], ps[1]);
    Descends(blocks, val, ps[0], ps[1]);
    if |ps| > 2 {
      forall i | 0 <= i < |ps[1..]| - 1
        ensures Holds(blocks, ps[1..][i], ps[1..][i + 1])
      {
        assert Holds(blocks, ps[i + 1], ps[i + 2]);
      }
      PathDescends(blocks, val, ps[1..]);
    }
  }

  /** The ownership graph has no cycle. */
  lemma Acyclic(blocks: seq<Block>, val: seq<Abs>, ext: multiset<Ptr>, ps: seq<Ptr>)
    requires Inv(blocks, val, ext) && Path(blocks, ps) && |ps| > 1
    ensures ps[0] != ps[|ps| - 1]
  {
    PathDescends(blocks, val, ps);
  }

  function MaxWeight(val: seq<Abs>): (m: nat)
    ensures forall i :: 0 <= i < |val| ==> AbsWeight(val[i]) <= m
  {
    if val == [] then 0
    else
      var m := MaxWeight(val[..|val| - 1]);
      var w := AbsWeight(val[|val| - 1]);
      if m < w then w else m
  }

  /** Every block in use is reached from a handle outside the blocks: nothing leaks. */
  lemma {:induction false} Reached(blocks: seq<Block>, val: seq<Abs>, ext: multiset<Ptr>, p: Ptr) returns (ps: seq<Ptr>)
    requires Inv(blocks, val, ext) && Live(blocks, p)
    ensures Path(blocks, ps) && ps[0] in ext && ps[|ps| - 1] == p
    decreases MaxWeight(val) - AbsWeight(val[p])
  {
    hide Denotes, AbsWeight;
    if p in ext {
      ps := [p];
    } else {
      var o := OwnerOf(blocks, p);
      Descends(blocks, val, o, p);
      var qs := Reached(blocks, val, ext, o);
      ps := qs + [p];
      forall i | 0 <= i < |ps| - 1
        ensures Holds(blocks, ps[i], ps[i + 1])
      {
        if i < |qs| - 1 {
          assert Holds(blocks, qs[i], qs[i + 1]);
        }
      }
    }
  }

  /** And whatever a handle reaches is in use: nothing is freed early. */
  lemma {:induction false} ReachedIsLive(blocks: seq<Block>, val: seq<Abs>, ext: multiset<Ptr>, ps: seq<Ptr>)
    requires Inv(blocks, val, ext) && Path(blocks, ps) && ps[0] in ext
    ensures Live(blocks, ps[|ps| - 1])
  {
    hide Denotes;
    var n := |ps| - 1;
    if n == 0 {
      HandleLive(blocks, val, ext, ps[0]);
    } else {
      assert Holds(blocks, ps[n - 1], ps[n]);
      ChildLive(blocks, val, ext, ps[n - 1], ps[n]);
    }
  }

  /** Once the last handle goes, every block has been given back. */
  lemma NothingLeft(blocks: seq<Block>, val: seq<Abs>)
    requires Inv(blocks, val, multiset{})
    ensures forall p :: 0 <= p < |blocks| ==> blocks[p] == Block(0, Gone)
  {
    hide Denotes;
    forall p | 0 <= p < |blocks|
      ensures blocks[p] == Block(0, Gone)
    {
      if Live(blocks, p) {
        var ps := Reached(blocks, val, multiset{}, p);
      }
    }
  }
}
