/** Every run of insertions, removals and clearing on an edelib::list. */
module RingRuns {
  import opened RingNodes
  import opened RingList

  /** insert and erase are given an iterator, here by how many steps it is from begin. */
  datatype Edit<T> =
    | InsertAt(k: nat, v: T)
    | EraseAt(k: nat)
    | PushBack(v: T)
    | PushFront(v: T)
    | Clear

  /** An iterator can be that far from begin, and erase is not asked to remove the end. */
  predicate Allowed<T>(s: seq<T>, e: Edit<T>) {
    match e
    case InsertAt(k, _) => k <= |s|
    case EraseAt(k) => k < |s|
    case _ => true
  }

  ghost function Edited<T>(s: seq<T>, e: Edit<T>): seq<T>
    requires Allowed(s, e)
  {
    match e
    case InsertAt(k, v) => Inserted(s, k, v)
    case EraseAt(k) => Removed(s, k)
    case PushBack(v) => s + [v]
    case PushFront(v) => [v] + s
    case Clear => []
  }

  ghost predicate AllAllowed<T>(s: seq<T>, es: seq<Edit<T>>)
    decreases |es|
  {
    es == [] || (Allowed(s, es[0]) && AllAllowed(Edited(s, es[0]), es[1..]))
  }

  ghost function AllEdited<T>(s: seq<T>, es: seq<Edit<T>>): seq<T>
    requires AllAllowed(s, es)
    decreases |es|
  {
    if es == [] then s else AllEdited(Edited(s, es[0]), es[1..])
  }

  /** k steps from begin. */
  method Seek<T>(l: List<T>, k: nat) returns (it: Node?<T>)
    requires l.Valid() && k <= |l.Contents|
    ensures l.tail == null ==> it == null && k == 0
    ensures l.tail != null ==> it in l.All() && l.At(it) == k
  {
    HoldsLength(l.Nodes, l.Contents);
    it := l.Begin();
    var i := 0;
    while i < k
      invariant i <= k
      invariant l.tail == null ==> it == null && k == 0
      invariant l.tail != null ==> it in l.All() && l.At(it) == i
    {
      it := l.Next(it);
      i := i + 1;
    }
  }

  lemma InRing<T>(l: List<T>, it: Node?<T>, k: nat)
    requires l.Valid() && l.tail != null && it in l.All() && l.At(it) == k < |l.Nodes|
    ensures it in l.Nodes
  {
    assert l.Nodes[k] == l.All()[k];
  }

  /** Every edit does to the list what it does to the sequence, and every node that stays in
      the ring keeps its element, so that every iterator on it still denotes that. */
  method Exec<T>(l: List<T>, e: Edit<T>)
    requires l.Valid() && Allowed(l.Contents, e)
    modifies l, l.All()
    ensures l.Valid() && l.Contents == Edited(old(l.Contents), e)
    ensures forall m :: m in l.Nodes ==> m in old(l.Nodes) || fresh(m)
    ensures forall m :: m in old(l.Nodes) && m in l.Nodes ==> m.value == old(m.value)
    ensures l.tail == null || l.tail == old(l.tail) || fresh(l.tail)
  {
    hide Ring, Holds, Inserted, Removed;
    match e {
      case InsertAt(k, v) =>
        var it := Seek(l, k);
        var n := l.Insert(it, v);
      case EraseAt(k) =>
        var it := Seek(l, k);
        HoldsLength(l.Nodes, l.Contents);
        InRing(l, it, k);
        var r := l.Erase(it);
      case PushBack(v) => l.PushBack(v);
      case PushFront(v) => l.PushFront(v);
      case Clear => l.Clear();
    }
  }

  /** So does every run: the list is the sequence, and as long as a node stays in the ring,
      its iterators denote the element they denoted at first. */
  method Run<T>(l: List<T>, es: seq<Edit<T>>)
    requires l.Valid() && AllAllowed(l.Contents, es)
    modifies l, l.All()
    ensures l.Valid() && l.Contents == AllEdited(old(l.Contents), es)
    ensures forall m :: m in l.Nodes ==> m in old(l.Nodes) || fresh(m)
    ensures forall m :: m in old(l.Nodes) && m in l.Nodes ==> m.value == old(m.value)
    ensures l.tail == null || l.tail == old(l.tail) || fresh(l.tail)
    decreases |es|
  {
    hide Ring, Holds, Inserted, Removed, Edited;
    if es != [] {
      Exec(l, es[0]);
      assert forall i :: 0 <= i < |l.All()| ==> l.All()[i] in old(l.All()) || fresh(l.All()[i]);
      Run(l, es[1..]);
    }
  }
}
