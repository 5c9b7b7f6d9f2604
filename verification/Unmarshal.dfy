/** The unmarshaller of EdbusMessage. */
module Unmarshal {
  import opened Values
  import opened Signature
  import opened Wire

  /** What libdbus hands out: arrays and variants hold what they declare, no struct is
      empty, entries are in arrays only. */
  ghost predicate Sound(a: Arg)
    decreases a, 0
  {
    match a
    case ABasic(_) => true
    case AArray(sig, items) => IsElement(sig) && forall i :: i in items ==> SigOf(i) == sig && SoundItem(i)
    case AStruct(fs) => fs != [] && forall f :: f in fs ==> !f.AEntry? && Sound(f)
    case AEntry(_, _) => false
    case AVariant(sig, x) => sig == SigOf(x) && !x.AEntry? && Sound(x)
  }

  ghost predicate SoundItem(a: Arg)
    decreases a, 1
  {
    if a.AEntry? then a.key.ABasic? && !a.value.AEntry? && Sound(a.value) else Sound(a)
  }

  predicate HoldsEntries(sig: string) {
    sig != "" && sig[0] == '{'
  }

  /** The value that reading an argument yields. */
  function Dec(a: Arg): Value
    decreases a, 0
  {
    match a
    case ABasic(b) => Scalar(b)
    case AArray(sig, items) => if HoldsEntries(sig) then Dict(DecEntries(items)) else Array(DecItems(items))
    case AStruct(fs) => Struct(DecAll(fs))
    case AEntry(_, _) => Invalid
    case AVariant(_, x) => Variant(Dec(x))
  }

  /** Elements go through EdbusList::append, which may refuse them. */
  function DecItems(items: seq<Arg>): seq<Value>
    decreases items, 0
  {
    if items == [] then []
    else ListAppend(true, DecItems(items[..|items| - 1]), Dec(items[|items| - 1]))
  }

  function DecAll(items: seq<Arg>): (r: seq<Value>)
    ensures |r| == |items|
    ensures forall i :: 0 <= i < |items| ==> r[i] == Dec(items[i])
    decreases items, 0
  {
    if items == [] then [] else DecAll(items[..|items| - 1]) + [Dec(items[|items| - 1])]
  }

  /** Entries go through EdbusDict::append, which may refuse or merge them. */
  function DecEntries(items: seq<Arg>): seq<Entry>
    decreases items, 0
  {
    if items == [] then [] else DecEntry(DecEntries(items[..|items| - 1]), items[|items| - 1])
  }

  function DecEntry(es: seq<Entry>, a: Arg): seq<Entry>
    decreases a, 1
  {
    if a.AEntry? then DictAppend(es, Dec(a.key), Dec(a.value)) else es
  }

  lemma SigStart(a: Arg)
    ensures SigOf(a) != ""
    ensures HoldsEntries(SigOf(a)) <==> a.AEntry?
  {
  }

  predicate IsBasicCode(c: char) {
    c in {'y', 'b', 'n', 'q', 'i', 'u', 'x', 't', 'd', 's', 'o'}
  }

  lemma ArgCodes(a: Arg)
    ensures IsBasicCode(ArgCode(a)) <==> a.ABasic?
    ensures ArgCode(a) == 'a' <==> a.AArray?
    ensures ArgCode(a) == 'v' <==> a.AVariant?
    ensures ArgCode(a) == 'r' <==> a.AStruct?
    ensures ArgCode(a) == 'e' <==> a.AEntry?
    ensures ArgCode(a) != '\0'
  {
  }

  /** from_dbus_iter_to_edbusdata_type */
  method ToData(it: Iter) returns (v: Value)
    requires it.pos < |it.args| && Sound(it.args[it.pos])
    ensures v == Dec(it.args[it.pos])
    decreases it.args[it.pos], 0
  {
    hide ArgCode, SigOf, BasicCode, TypeOf;
    ghost var a := it.args[it.pos];
    ArgCodes(a);
    var c := it.GetArgType();
    if IsBasicCode(c) {
      var b := it.GetBasic();
      return Scalar(b);
    }
    if c == 'a' {
      ElementCode(a.declared);
      ItemsSound(a);
      var t := it.GetElementType();
      var items := it.Recurse();
      if t == 'e' {
        var es := ToEntries(items);
        return Dict(es);
      }
      var xs := ToItems(items);
      return Array(xs);
    }
    if c == 'v' {
      var sub := it.Recurse();
      var x := ToData(sub);
      return Variant(x);
    }
    var fields := it.Recurse();
    var xs := ToAll(fields);
    return Struct(xs);
  }

  lemma ElementCode(sig: string)
    requires IsElement(sig)
    ensures sig != "" && sig[0] != 'e'
  {
  }

  lemma ItemsSound(a: Arg)
    requires a.AArray? && Sound(a)
    ensures HoldsEntries(a.declared) ==> forall i :: i in a.items ==> i.AEntry? && SoundItem(i)
    ensures !HoldsEntries(a.declared) ==> forall i :: i in a.items ==> Sound(i)
  {
    hide SigOf, IsElement;
    forall i | i in a.items
      ensures i.AEntry? <==> HoldsEntries(a.declared)
    {
      SigStart(i);
    }
  }

  /** The loop over the elements of an array. */
  method ToItems(it: Iter) returns (xs: seq<Value>)
    requires it.pos == 0 && forall a :: a in it.args ==> Sound(a)
    modifies it
    ensures xs == DecItems(it.args)
    decreases it.args, 1
  {
    hide ArgCode, Sound, ListAppend, Dec;
    xs := [];
    var c := it.GetArgType();
    while c != '\0'
      invariant it.pos <= |it.args| && xs == DecItems(it.args[..it.pos])
      invariant c == if it.pos < |it.args| then ArgCode(it.args[it.pos]) else '\0'
      decreases |it.args| - it.pos, if c == '\0' then 0 else 1
    {
      var n := it.pos;
      var x := ToData(it);
      xs := ListAppend(true, xs, x);
      it.Next();
      assert it.args[..n + 1][..n] == it.args[..n] && it.args[..n + 1][n] == it.args[n];
      c := it.GetArgType();
    }
    if it.pos < |it.args| {
      ArgCodes(it.args[it.pos]);
    }
    assert it.args[..it.pos] == it.args;
  }

  /** The loop over the fields of a struct or the arguments of a message. */
  method ToAll(it: Iter) returns (xs: seq<Value>)
    requires it.pos == 0 && forall a :: a in it.args ==> Sound(a)
    modifies it
    ensures xs == DecAll(it.args)
    decreases it.args, 1
  {
    hide ArgCode, Sound, Dec;
    xs := [];
    var c := it.GetArgType();
    while c != '\0'
      invariant it.pos <= |it.args| && xs == DecAll(it.args[..it.pos])
      invariant c == if it.pos < |it.args| then ArgCode(it.args[it.pos]) else '\0'
      decreases |it.args| - it.pos, if c == '\0' then 0 else 1
    {
      var n := it.pos;
      var x := ToData(it);
      xs := xs + [x];
      it.Next();
      assert it.args[..n + 1][..n] == it.args[..n] && it.args[..n + 1][n] == it.args[n];
      c := it.GetArgType();
    }
    if it.pos < |it.args| {
      ArgCodes(it.args[it.pos]);
    }
    assert it.args[..it.pos] == it.args;
  }

  /** The loop over the entries of a dict; key and value sit at the two positions of an entry. */
  method ToEntries(it: Iter) returns (es: seq<Entry>)
    requires it.pos == 0 && forall a :: a in it.args ==> a.AEntry? && SoundItem(a)
    modifies it
    ensures es == DecEntries(it.args)
    decreases it.args, 1
  {
    hide ArgCode, DictAppend, Dec;
    es := [];
    var c := it.GetArgType();
    while c == 'e'
      invariant it.pos <= |it.args| && es == DecEntries(it.args[..it.pos])
      invariant c == if it.pos < |it.args| then ArgCode(it.args[it.pos]) else '\0'
      decreases |it.args| - it.pos, if c == 'e' then 1 else 0
    {
      var n := it.pos;
      var kv := it.Recurse();
      es := ToEntry(kv, es, it.args[n]);
      it.Next();
      assert it.args[..n + 1][..n] == it.args[..n] && it.args[..n + 1][n] == it.args[n];
      c := it.GetArgType();
    }
    if it.pos < |it.args| {
      ArgCodes(it.args[it.pos]);
    }
    assert it.args[..it.pos] == it.args;
  }

  method ToEntry(kv: Iter, es0: seq<Entry>, ghost a: Arg) returns (es: seq<Entry>)
    requires a.AEntry? && SoundItem(a) && kv.args == [a.key, a.value] && kv.pos == 0
    modifies kv
    ensures es == DictAppend(es0, Dec(a.key), Dec(a.value))
    decreases a, 1
  {
    hide ArgCode, DictAppend, Dec;
    es := es0;
    ArgCodes(a.key);
    ArgCodes(a.value);
    var c := kv.GetArgType();
    if c != '\0' {
      var key := ToData(kv);
      kv.Next();
      c := kv.GetArgType();
      if c != '\0' {
        var value := ToData(kv);
        es := DictAppend(es, key, value);
      }
    }
  }
}
