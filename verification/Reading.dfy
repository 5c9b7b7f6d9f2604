/** What reading makes of an argument from any sender: nothing is refused, the value has the
    argument's type, and the argument can be told from it. */
module Reading {
  import opened Wrappers
  import opened Values
  import opened Signature
  import opened Wire
  import opened Unmarshal
  import opened Message
  import DictRuns

  // ---- the type of an argument

  function TyOf(a: Arg): Ty {
    match a
    case ABasic(b) => TBasic(BasicCode(b))
    case AArray(sig, _) => if ParseOne("a" + sig).Some? then ParseOne("a" + sig).value.0 else TVariant
    case AStruct(fs) => TStruct(TysOf(fs))
    case AEntry(_, _) => TVariant
    case AVariant(_, _) => TVariant
  }

  function TysOf(fs: seq<Arg>): (r: seq<Ty>)
    ensures |r| == |fs| && forall i :: 0 <= i < |fs| ==> r[i] == TyOf(fs[i])
  {
    if fs == [] then [] else TysOf(fs[..|fs| - 1]) + [TyOf(fs[|fs| - 1])]
  }

  lemma BasicTyped(b: Basic)
    ensures IsCode(BasicCode(b))
  {
  }

  /** The type's signature is the argument's. */
  lemma {:induction false} Typed(a: Arg)
    requires Sound(a)
    ensures Complete(TyOf(a)) && Print(TyOf(a)) == SigOf(a)
    decreases a, 1
  {
    hide IsCode, BasicCode, Sound;
    match a
    case ABasic(b) => BasicTyped(b);
    case AArray(sig, items) => ArrayTyped(sig, items);
    case AStruct(fs) =>
      FieldsSound(fs);
      FieldsTyped(fs);
    case AVariant(_, _) =>
    case AEntry(_, _) => NoEntry(a);
  }

  lemma NoEntry(a: Arg)
    requires Sound(a)
    ensures !a.AEntry?
  {
  }

  lemma FieldsSound(fs: seq<Arg>)
    requires Sound(AStruct(fs))
    ensures fs != [] && forall f :: f in fs ==> !f.AEntry? && Sound(f)
  {
  }

  lemma {:induction false} FieldsTyped(fs: seq<Arg>)
    requires forall f :: f in fs ==> Sound(f)
    ensures forall t :: t in TysOf(fs) ==> Complete(t)
    ensures PrintAll(TysOf(fs)) == SigsOf(fs)
    decreases fs, 0
  {
    hide TyOf, SigOf, Print, Complete, Sound;
    if fs != [] {
      var n := |fs| - 1;
      FieldsTyped(fs[..n]);
      Typed(fs[n]);
      PrintAllSnoc(TysOf(fs[..n]), TyOf(fs[n]));
    }
  }

  /** An array that may be declared to hold sig has a type that says so. */
  lemma ElementTyped(sig: string)
    requires IsElement(sig)
    ensures var r := ParseOne("a" + sig);
      && r.Some? && r.value.1 == "" && Complete(r.value.0) && Print(r.value.0) == "a" + sig
      && (HoldsEntries(sig) <==> r.value.0.TDict?)
      && (if HoldsEntries(sig) then Complete(r.value.0.value) && sig == PrintEntry(r.value.0.key, r.value.0.value)
          else r.value.0.TArray? && Complete(r.value.0.elem) && sig == Print(r.value.0.elem))
  {
    hide Print, IsCode, Complete;
    var s := "a" + sig;
    assert s[1..] == sig;
    if !HoldsEntries(sig) {
      PlainArray(sig);
    }
    PrintParse(s);
    var t := ParseOne(s).value.0;
    PrintedArray(t, sig);
  }

  lemma PlainArray(sig: string)
    requires IsSingle(sig) && !HoldsEntries(sig)
    ensures var r := ParseOne("a" + sig);
      r == Some((TArray(ParseOne(sig).value.0), ""))
  {
    hide IsCode;
    CodesApart();
    assert ("a" + sig)[1..] == sig;
  }

  lemma PrintedArray(t: Ty, sig: string)
    requires Complete(t) && Print(t) + "" == "a" + sig
    ensures Print(t) == "a" + sig
    ensures if HoldsEntries(sig) then t.TDict? && Complete(t.value) && sig == PrintEntry(t.key, t.value)
      else t.TArray? && Complete(t.elem) && sig == Print(t.elem)
  {
    hide IsCode, PrintAll;
    CodesApart();
    assert Print(t) == "a" + sig && ("a" + sig)[1..] == sig && ("a" + sig)[0] == 'a';
    match t
    case TArray(e) =>
      PrintStart(e);
      assert ("a" + Print(e))[1..] == Print(e);
    case TDict(k, v) =>
      assert ("a" + PrintEntry(k, v))[1..] == PrintEntry(k, v);
      assert PrintEntry(k, v)[0] == '{';
    case _ =>
  }

  lemma ArrayTyped(sig: string, items: seq<Arg>)
    requires Sound(AArray(sig, items))
    ensures Complete(TyOf(AArray(sig, items))) && Print(TyOf(AArray(sig, items))) == SigOf(AArray(sig, items))
  {
    hide Print, Complete, ParseOne, IsElement;
    assert IsElement(sig);
    ElementTyped(sig);
  }

  /** Arguments of one signature are of one type. */
  lemma SameTy(a: Arg, t: Ty)
    requires Sound(a) && Complete(t) && SigOf(a) == Print(t)
    ensures TyOf(a) == t
  {
    hide Print, Complete, TyOf, SigOf, Sound;
    Typed(a);
    PrintInjective(TyOf(a), t);
  }

  // ---- nothing is refused

  /** The first character of the signature, and what it tells of the value. */
  lemma FirstCode(a: Arg)
    requires !a.AEntry?
    ensures SigOf(a) != ""
    ensures a.AArray? <==> SigOf(a)[0] == 'a'
    ensures a.AStruct? <==> SigOf(a)[0] == '('
    ensures a.AVariant? <==> SigOf(a)[0] == 'v'
    ensures a.ABasic? ==> BasicCode(a.b) == SigOf(a)[0]
    ensures a.AStruct? ==> TypeOf(Dec(a)) == StructT
    ensures a.AVariant? ==> TypeOf(Dec(a)) == VariantT
  {
  }

  lemma SigTellsType(a: Arg, b: Arg)
    requires !a.AEntry? && !b.AEntry? && SigOf(a) == SigOf(b)
    ensures TypeOf(Dec(a)) == TypeOf(Dec(b))
  {
    FirstCode(a);
    FirstCode(b);
    if a.AArray? && b.AArray? {
      assert a.declared == SigOf(a)[1..] && b.declared == SigOf(b)[1..];
    }
  }

  /** Every element of an array is taken, in order. */
  lemma {:induction false} ItemsRead(items: seq<Arg>, sig: string)
    requires forall i :: i in items ==> SigOf(i) == sig && !i.AEntry?
    ensures |DecItems(items)| == |items| && forall i :: 0 <= i < |items| ==> DecItems(items)[i] == Dec(items[i])
  {
    hide Dec, SigOf, TypeOf;
    if items != [] {
      var n := |items| - 1;
      ItemsRead(items[..n], sig);
      if n > 0 {
        assert items[0] in items && items[n] in items;
        SigTellsType(items[0], items[n]);
      }
    }
  }

  /** An entry's parts, and their signatures, which the array's tells. */
  lemma EntryParts(a: Arg, k: char, v: Ty)
    requires a.AEntry? && SoundItem(a) && SigOf(a) == PrintEntry(k, v)
    ensures a.key.ABasic? && BasicCode(a.key.b) == k && Sound(a.value) && SigOf(a.value) == Print(v)
  {
    hide BasicCode, Print, Sound;
    var s, t := SigOf(a.value) + "}", Print(v) + "}";
    assert SigOf(a) == "{" + [BasicCode(a.key.b)] + SigOf(a.value) + "}";
    assert SigOf(a)[1] == BasicCode(a.key.b) && PrintEntry(k, v)[1] == k;
    assert SigOf(a)[2..] == s && PrintEntry(k, v)[2..] == t;
    assert SigOf(a.value) == s[..|s| - 1] && Print(v) == t[..|t| - 1];
  }

  /** The entries of a dict that was declared so. */
  ghost predicate EntriesOf(items: seq<Arg>, k: char, v: Ty) {
    forall a :: a in items ==> a.AEntry? && SoundItem(a) && SigOf(a) == PrintEntry(k, v)
  }

  function Appends(items: seq<Arg>): seq<DictRuns.Op> {
    if items == [] then []
    else
      var a := items[|items| - 1];
      Appends(items[..|items| - 1]) + if a.AEntry? then [DictRuns.Append(Dec(a.key), Dec(a.value))] else []
  }

  /** Reading a dict is a run of appends, so that entries under one key merge as there. */
  lemma {:induction false} EntriesAreRun(items: seq<Arg>)
    ensures DecEntries(items) == DictRuns.Run(Appends(items))
  {
    hide Dec, Values.DictAppend;
    if items != [] {
      var n := |items| - 1;
      EntriesAreRun(items[..n]);
      if items[n].AEntry? {
        assert Appends(items)[..|Appends(items)| - 1] == Appends(items[..n]);
      } else {
        assert Appends(items) == Appends(items[..n]);
      }
    }
  }

  lemma EntryTypes(a: Arg, b: Arg, k: char, v: Ty)
    requires a.AEntry? && SoundItem(a) && SigOf(a) == PrintEntry(k, v)
    requires b.AEntry? && SoundItem(b) && SigOf(b) == PrintEntry(k, v)
    ensures IsBasic(Dec(a.key)) && TypeOf(Dec(a.key)) == TypeOf(Dec(b.key)) && TypeOf(Dec(a.value)) == TypeOf(Dec(b.value))
  {
    hide Dec, SigOf, Print, PrintEntry;
    EntryParts(a, k, v);
    EntryParts(b, k, v);
    SigTellsType(a.value, b.value);
    KeyTypes(a.key, b.key);
  }

  lemma KeyTypes(a: Arg, b: Arg)
    requires a.ABasic? && b.ABasic? && BasicCode(a.b) == BasicCode(b.b)
    ensures IsBasic(Dec(a)) && TypeOf(Dec(a)) == TypeOf(Dec(b))
  {
  }

  /** es holds keys and values of these entries only, and none is refused. */
  ghost predicate From(es: seq<Entry>, items: seq<Arg>) {
    && (es == [] <==> items == [])
    && forall e :: e in es ==> exists a, b :: a in items && b in items && Parts(e, a, b)
  }

  /** e has the key of one of these arguments and the value of the other. */
  predicate Parts(e: Entry, a: Arg, b: Arg) {
    a.AEntry? && b.AEntry? && e == Entry(Dec(a.key), Dec(b.value))
  }

  lemma {:induction false} EntriesRead(items: seq<Arg>, k: char, v: Ty)
    requires EntriesOf(items, k, v)
    ensures From(DecEntries(items), items)
  {
    hide Dec, SigOf, TypeOf, IsBasic, SoundItem, PrintEntry, Equal, KeyAt;
    if items != [] {
      var n := |items| - 1;
      EntriesRead(items[..n], k, v);
      var es := DecEntries(items[..n]);
      assert items[n] in items;
      FirstAccepts(es, items, k, v);
      assert DecEntries(items) == DecEntry(es, items[n]);
      OneMoreFrom(es, items, DecEntries(items));
    }
  }

  lemma FirstAccepts(es: seq<Entry>, items: seq<Arg>, k: char, v: Ty)
    requires items != [] && EntriesOf(items, k, v) && From(es, items[..|items| - 1])
    ensures var a := items[|items| - 1];
      DictAccepts(es, Dec(a.key), Dec(a.value))
  {
    hide Dec, SigOf, TypeOf, IsBasic, SoundItem, PrintEntry;
    var last := items[|items| - 1];
    assert last in items;
    EntryTypes(last, last, k, v);
    if es != [] {
      assert es[0] in es;
      var a, b :| a in items[..|items| - 1] && b in items[..|items| - 1] && Parts(es[0], a, b);
      assert a in items && b in items;
      EntryTypes(last, a, k, v);
      EntryTypes(last, b, k, v);
    }
  }

  lemma OneMoreFrom(es: seq<Entry>, items: seq<Arg>, r: seq<Entry>)
    requires items != [] && From(es, items[..|items| - 1]) && items[|items| - 1].AEntry?
    requires var a := items[|items| - 1];
      r == Values.DictAppend(es, Dec(a.key), Dec(a.value)) && DictAccepts(es, Dec(a.key), Dec(a.value))
    ensures From(r, items)
  {
    hide Dec, DictAccepts, Equal, KeyAt;
    var n := |items| - 1;
    var last := items[n];
    assert forall a :: a in items[..n] ==> a in items;
    forall e | e in r
      ensures exists a, b :: a in items && b in items && Parts(e, a, b)
    {
      var i :| 0 <= i < |r| && r[i] == e;
      if i < |es| {
        assert es[i] in es;
        var a, b :| a in items[..n] && b in items[..n] && Parts(es[i], a, b);
        assert Parts(e, a, b) || Parts(e, a, last);
      } else {
        assert Parts(e, last, last);
      }
    }
  }

  // ---- the value has the argument's type

  /** No array in a is empty. */
  ghost predicate Filled(a: Arg) {
    match a
    case ABasic(_) => true
    case AArray(_, items) => items != [] && forall i :: i in items ==> Filled(i)
    case AStruct(fs) => forall f :: f in fs ==> Filled(f)
    case AEntry(k, v) => Filled(k) && Filled(v)
    case AVariant(_, x) => Filled(x)
  }

  /** Where no array is empty the value shows its type. */
  lemma {:induction false} ShapeRead(a: Arg)
    requires Sound(a) && Filled(a)
    ensures Shape(Dec(a)) == TyOf(a)
    decreases a, 1
  {
    hide BasicCode, Sound, ParseOne, SigOf;
    match a
    case ABasic(_) =>
    case AArray(sig, items) =>
      ArrayParts(sig, items);
      if HoldsEntries(sig) {
        DictShape(sig, items);
      } else {
        ArrayShape(sig, items);
      }
    case AStruct(fs) =>
      FieldsSound(fs);
      FieldShapes(fs);
    case AVariant(_, _) =>
    case AEntry(_, _) => NoEntry(a);
  }

  lemma ArrayParts(sig: string, items: seq<Arg>)
    requires Sound(AArray(sig, items))
    ensures IsElement(sig)
    ensures HoldsEntries(sig) ==> forall i :: i in items ==> i.AEntry? && SoundItem(i)
    ensures !HoldsEntries(sig) ==> forall i :: i in items ==> Sound(i) && !i.AEntry?
    ensures forall i :: i in items ==> SigOf(i) == sig
  {
    hide SigOf, IsElement;
    forall i | i in items
      ensures i.AEntry? <==> HoldsEntries(sig)
    {
      SigStart(i);
    }
  }

  lemma {:induction false} ArrayShape(sig: string, items: seq<Arg>)
    requires Sound(AArray(sig, items)) && Filled(AArray(sig, items)) && !HoldsEntries(sig)
    ensures Shape(Array(DecItems(items))) == TyOf(AArray(sig, items))
    decreases items, 0
  {
    hide Sound, ParseOne, SigOf, Dec, Print, Complete, IsElement;
    ArrayParts(sig, items);
    ElementTyped(sig);
    ItemsRead(items, sig);
    assert items[0] in items;
    ShapeRead(items[0]);
    SameTy(items[0], TyOf(AArray(sig, items)).elem);
  }

  lemma {:induction false} DictShape(sig: string, items: seq<Arg>)
    requires Sound(AArray(sig, items)) && Filled(AArray(sig, items)) && HoldsEntries(sig)
    ensures Shape(Dict(DecEntries(items))) == TyOf(AArray(sig, items))
    decreases items, 0
  {
    hide Sound, ParseOne, SigOf, Dec, Print, PrintEntry, Complete, IsElement, Filled;
    ArrayParts(sig, items);
    ElementTyped(sig);
    var t := TyOf(AArray(sig, items));
    EntriesRead(items, t.key, t.value);
    var es := DecEntries(items);
    SomeItem(sig, items);
    assert es[0] in es;
    var a, b :| a in items && b in items && Parts(es[0], a, b);
    EntryParts(a, t.key, t.value);
    EntryParts(b, t.key, t.value);
    FilledEntry(sig, items, b);
    ShapeRead(b.value);
    SameTy(b.value, t.value);
    KeyRead(a.key);
  }

  lemma SomeItem(sig: string, items: seq<Arg>)
    requires Filled(AArray(sig, items))
    ensures items != []
  {
  }

  lemma FilledEntry(sig: string, items: seq<Arg>, b: Arg)
    requires Filled(AArray(sig, items)) && b in items && b.AEntry?
    ensures Filled(b.value)
  {
  }

  lemma KeyRead(a: Arg)
    requires a.ABasic?
    ensures Dec(a) == Scalar(a.b)
  {
  }

  lemma {:induction false} FieldShapes(fs: seq<Arg>)
    requires forall f :: f in fs ==> Sound(f) && Filled(f)
    ensures Shapes(DecAll(fs)) == TysOf(fs)
    decreases fs, 0
  {
    hide Sound, Filled, Shape, Dec, TyOf;
    if fs != [] {
      var n := |fs| - 1;
      FieldShapes(fs[..n]);
      ShapeRead(fs[n]);
    }
  }

  // ---- the argument can be told from the value

  /** v as an argument of type t, in the way of the D-Bus Specification. */
  function Ideal(v: Value, t: Ty): Arg
    decreases v, 0
  {
    match v
    case Invalid => AStruct([])
    case Scalar(b) => ABasic(b)
    case Array(xs) => if t.TArray? then AArray(Print(t.elem), IdealAll(xs, t.elem)) else AStruct([])
    case Struct(xs) => if t.TStruct? && |t.fields| == |xs| then AStruct(IdealFields(xs, t.fields)) else AStruct([])
    case Dict(es) => if t.TDict? then AArray(PrintEntry(t.key, t.value), IdealEntries(es, t.value)) else AStruct([])
    case Variant(x) => AVariant(Print(Shape(x)), Ideal(x, Shape(x)))
  }

  function IdealAll(xs: seq<Value>, t: Ty): (r: seq<Arg>)
    ensures |r| == |xs| && forall i :: 0 <= i < |xs| ==> r[i] == Ideal(xs[i], t)
    decreases xs, 0
  {
    if xs == [] then [] else IdealAll(xs[..|xs| - 1], t) + [Ideal(xs[|xs| - 1], t)]
  }

  function IdealFields(xs: seq<Value>, ts: seq<Ty>): (r: seq<Arg>)
    requires |ts| == |xs|
    ensures |r| == |xs| && forall i :: 0 <= i < |xs| ==> r[i] == Ideal(xs[i], ts[i])
    decreases xs, 0
  {
    var n := |xs| - 1;
    if xs == [] then [] else IdealFields(xs[..n], ts[..n]) + [Ideal(xs[n], ts[n])]
  }

  /** A key's type is the key's own. */
  function IdealEntry(e: Entry, t: Ty): Arg
    decreases e, 0
  {
    AEntry(Ideal(e.key, TVariant), Ideal(e.value, t))
  }

  function IdealEntries(es: seq<Entry>, t: Ty): (r: seq<Arg>)
    ensures |r| == |es| && forall i :: 0 <= i < |es| ==> r[i] == IdealEntry(es[i], t)
    decreases es, 0
  {
    if es == [] then [] else IdealEntries(es[..|es| - 1], t) + [IdealEntry(es[|es| - 1], t)]
  }

  /** In no variant of a is there an empty array, whose type nothing would tell. */
  ghost predicate Telling(a: Arg) {
    match a
    case ABasic(_) => true
    case AArray(_, items) => forall i :: i in items ==> Telling(i)
    case AStruct(fs) => forall f :: f in fs ==> Telling(f)
    case AEntry(_, v) => Telling(v)
    case AVariant(_, x) => Filled(x) && Telling(x)
  }

  predicate SameKey(a: Arg, b: Arg) {
    a.AEntry? && b.AEntry? && a.key.ABasic? && b.key.ABasic? && SameBasic(a.key.b, b.key.b)
  }

  /** No two entries of a dict in a have one key. */
  ghost predicate KeysApart(a: Arg) {
    match a
    case ABasic(_) => true
    case AArray(_, items) =>
      (forall i :: i in items ==> KeysApart(i)) && forall i, j :: 0 <= i < j < |items| ==> !SameKey(items[i], items[j])
    case AStruct(fs) => forall f :: f in fs ==> KeysApart(f)
    case AEntry(_, v) => KeysApart(v)
    case AVariant(_, x) => KeysApart(x)
  }

  /** With the keys apart none is merged, either. */
  lemma {:induction false} EntriesKept(items: seq<Arg>, k: char, v: Ty)
    requires EntriesOf(items, k, v)
    requires forall i, j :: 0 <= i < j < |items| ==> !SameKey(items[i], items[j])
    ensures |DecEntries(items)| == |items|
    ensures forall i :: 0 <= i < |items| ==> DecEntries(items)[i] == Entry(Dec(items[i].key), Dec(items[i].value))
  {
    hide SigOf, TypeOf, IsBasic, Dec, SoundItem, SameKey, Equal;
    var es := seq(|items|, i requires 0 <= i < |items| => Entry(Dec(items[i].key), Dec(items[i].value)));
    forall i | 0 <= i < |items|
      ensures IsBasic(es[i].key) && TypeOf(es[i].key) == TypeOf(es[0].key) && TypeOf(es[i].value) == TypeOf(es[0].value)
    {
      assert items[i] in items && items[0] in items;
      EntryTypes(items[i], items[0], k, v);
    }
    forall i, j | 0 <= i < j < |items|
      ensures !Equal(es[i].key, es[j].key)
    {
      assert items[i] in items && items[j] in items;
      EntryParts(items[i], k, v);
      EntryParts(items[j], k, v);
      KeysUnequal(items[i], items[j]);
    }
    EntriesAccepted(es, items);
  }

  lemma KeysUnequal(a: Arg, b: Arg)
    requires a.AEntry? && b.AEntry? && a.key.ABasic? && b.key.ABasic? && !SameKey(a, b)
    ensures !Equal(Dec(a.key), Dec(b.key))
  {
  }

  /** Writing what was read gives back the argument, whoever sent it. */
  lemma {:induction false} ReadThenWritten(a: Arg)
    requires Sound(a) && Telling(a) && KeysApart(a)
    ensures Ideal(Dec(a), TyOf(a)) == a
    decreases a, 1
  {
    hide BasicCode, Sound, ParseOne, SigOf, Shape, Filled;
    match a
    case ABasic(_) =>
    case AArray(sig, items) =>
      ArrayParts(sig, items);
      if HoldsEntries(sig) {
        DictWritten(sig, items);
      } else {
        ArrayWritten(sig, items);
      }
    case AStruct(fs) =>
      FieldsSound(fs);
      forall i | 0 <= i < |fs|
        ensures Ideal(Dec(fs[i]), TyOf(fs[i])) == fs[i]
      {
        ReadThenWritten(fs[i]);
      }
      assert IdealFields(DecAll(fs), TysOf(fs)) == fs;
    case AVariant(sig, x) =>
      VariantParts(sig, x);
      ReadThenWritten(x);
      ShapeRead(x);
      Typed(x);
    case AEntry(_, _) => NoEntry(a);
  }

  lemma VariantParts(sig: string, x: Arg)
    requires Sound(AVariant(sig, x)) && Telling(AVariant(sig, x)) && KeysApart(AVariant(sig, x))
    ensures sig == SigOf(x) && Sound(x) && Filled(x) && Telling(x) && KeysApart(x)
  {
    hide SigOf, Filled;
  }

  lemma {:induction false} ArrayWritten(sig: string, items: seq<Arg>)
    requires Sound(AArray(sig, items)) && Telling(AArray(sig, items)) && KeysApart(AArray(sig, items)) && !HoldsEntries(sig)
    ensures Ideal(Array(DecItems(items)), TyOf(AArray(sig, items))) == AArray(sig, items)
    decreases items, 0
  {
    hide Sound, ParseOne, SigOf, Dec, Print, Complete, IsElement;
    ArrayParts(sig, items);
    ElementTyped(sig);
    ItemsRead(items, sig);
    var t := TyOf(AArray(sig, items));
    forall i | 0 <= i < |items|
      ensures Ideal(Dec(items[i]), t.elem) == items[i]
    {
      assert items[i] in items;
      ReadThenWritten(items[i]);
      SameTy(items[i], t.elem);
    }
    assert IdealAll(DecItems(items), t.elem) == items;
  }

  lemma {:induction false} DictWritten(sig: string, items: seq<Arg>)
    requires Sound(AArray(sig, items)) && Telling(AArray(sig, items)) && KeysApart(AArray(sig, items)) && HoldsEntries(sig)
    ensures Ideal(Dict(DecEntries(items)), TyOf(AArray(sig, items))) == AArray(sig, items)
    decreases items, 0
  {
    hide Sound, ParseOne, SigOf, Dec, Print, PrintEntry, Complete, IsElement, SameKey;
    ArrayParts(sig, items);
    ElementTyped(sig);
    var t := TyOf(AArray(sig, items));
    EntriesKept(items, t.key, t.value);
    forall i | 0 <= i < |items|
      ensures IdealEntry(DecEntries(items)[i], t.value) == items[i]
    {
      assert items[i] in items;
      EntryParts(items[i], t.key, t.value);
      ReadThenWritten(items[i].value);
      SameTy(items[i].value, t.value);
      KeyRead(items[i].key);
    }
    assert IdealEntries(DecEntries(items), t.value) == items;
  }

  /** So reading loses nothing but merged entries and what types empty arrays in variants had. */
  lemma ReadInjective(a: Arg, b: Arg)
    requires Sound(a) && Telling(a) && KeysApart(a)
    requires Sound(b) && Telling(b) && KeysApart(b)
    requires SigOf(a) == SigOf(b)
    ensures Dec(a) == Dec(b) <==> a == b
  {
    hide Sound, SigOf, Dec, Print, Complete, TyOf;
    Typed(b);
    SameTy(a, TyOf(b));
    ReadThenWritten(a);
    ReadThenWritten(b);
  }

  /** Two empty arrays that differ in what they may hold, each in a variant, read as one value,
      which an empty dict does not. */
  lemma EmptyTypesLost()
    ensures var a, b := AVariant("ai", AArray("i", [])), AVariant("as", AArray("s", []));
      Sound(a) && Sound(b) && SigOf(a) == SigOf(b) && a != b && Dec(a) == Dec(b) == Variant(Array([]))
    ensures var d := AVariant("a{is}", AArray("{is}", []));
      Sound(d) && Dec(d) == Variant(Dict([]))
  {
    PrintedIsEntry('i', TBasic('s'));
    assert PrintEntry('i', TBasic('s')) == "{is}";
    PrintedIsSingle(TBasic('i'));
    PrintedIsSingle(TBasic('s'));
  }
}
