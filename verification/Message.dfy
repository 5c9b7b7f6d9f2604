/** Sending a message and reading it back: exactly which contents survive. */
module Message {
  import opened Wrappers
  import opened Values
  import opened Signature
  import opened Wire
  import opened Marshal
  import opened Unmarshal

  /** The D-Bus type of a value, read off the first element of every container. */
  function Shape(v: Value): Ty
    decreases v, 0
  {
    match v
    case Invalid => TBasic('?')
    case Scalar(b) => TBasic(BasicCode(b))
    case Array(xs) => if xs == [] then TBasic('?') else TArray(Shape(xs[0]))
    case Struct(xs) => TStruct(Shapes(xs))
    case Dict(es) => if es == [] then TBasic('?') else EntryShape(es[0])
    case Variant(_) => TVariant
  }

  function EntryShape(e: Entry): Ty
    decreases e, 0
  {
    TDict(if e.key.Scalar? then BasicCode(e.key.basic) else '?', Shape(e.value))
  }

  function Shapes(xs: seq<Value>): (r: seq<Ty>)
    ensures |r| == |xs|
    ensures forall i :: 0 <= i < |xs| ==> r[i] == Shape(xs[i])
    decreases xs, 0
  {
    if xs == [] then [] else Shapes(xs[..|xs| - 1]) + [Shape(xs[|xs| - 1])]
  }

  predicate IsKey(v: Value) {
    v.Scalar? && !v.basic.ObjectPath?
  }

  /** No empty container, no invalid value and no object path anywhere; the elements of
      an array, and the keys and values of a dict, each of one type; keys unequal; every
      declared signature within the limit. */
  ghost predicate WellFormed(v: Value)
    decreases v, 0
  {
    match v
    case Invalid => false
    case Scalar(_) => IsKey(v)
    case Array(xs) =>
      && xs != []
      && (forall x :: x in xs ==> WellFormed(x) && Shape(x) == Shape(xs[0]))
      && |Print(Shape(xs[0]))| <= MAX_SIGNATURE
    case Struct(xs) => xs != [] && forall x :: x in xs ==> WellFormed(x)
    case Dict(es) =>
      && es != []
      && (forall e :: e in es ==> WellFormedEntry(e) && EntryShape(e) == EntryShape(es[0]))
      && (forall i, j :: 0 <= i < j < |es| ==> !Equal(es[i].key, es[j].key))
      && |PrintEntry(EntryShape(es[0]).key, EntryShape(es[0]).value)| <= MAX_SIGNATURE
    case Variant(x) => WellFormed(x) && |Print(Shape(x))| <= MAX_SIGNATURE
  }

  ghost predicate WellFormedEntry(e: Entry)
    decreases e, 0
  {
    IsKey(e.key) && WellFormed(e.value)
  }

  // ---- the signature builder is right

  lemma KeyCode(v: Value)
    requires IsKey(v)
    ensures TypeString(TypeOf(v)) == [BasicCode(v.basic)] && IsCode(BasicCode(v.basic))
    ensures Sig(v) == [BasicCode(v.basic)]
  {
  }

  lemma {:induction false} PrintAllSnoc(fs: seq<Ty>, f: Ty)
    ensures PrintAll(fs + [f]) == PrintAll(fs) + Print(f)
  {
    hide Print;
    if fs == [] {
      assert (fs + [f])[1..] == [];
    } else {
      assert (fs + [f])[1..] == fs[1..] + [f];
      PrintAllSnoc(fs[1..], f);
    }
  }

  /** build_signature emits exactly the D-Bus signature of a well-formed value. */
  lemma {:induction false} SigIsPrint(v: Value)
    requires WellFormed(v)
    ensures Complete(Shape(v)) && Sig(v) == Print(Shape(v))
    decreases v, 0
  {
    hide TypeOf, TypeString, BasicCode, IsCode;
    match v
    case Scalar(_) => KeyCode(v);
    case Array(xs) => SigIsPrint(xs[0]);
    case Struct(xs) => SigAllIsPrint(xs);
    case Dict(es) => EntrySigIsPrint(es[0]);
    case Variant(x) => VariantCode(x);
  }

  lemma VariantCode(x: Value)
    ensures Sig(Variant(x)) == "v"
  {
  }

  lemma {:induction false} EntrySigIsPrint(e: Entry)
    requires WellFormedEntry(e)
    ensures Complete(EntryShape(e)) && EntryShape(e).TDict?
    ensures EntrySig(e) == PrintEntry(EntryShape(e).key, EntryShape(e).value)
    decreases e, 0
  {
    hide TypeOf, TypeString, BasicCode, IsCode;
    KeyCode(e.key);
    SigIsPrint(e.value);
  }

  lemma {:induction false} SigAllIsPrint(xs: seq<Value>)
    requires forall x :: x in xs ==> WellFormed(x)
    ensures forall f :: f in Shapes(xs) ==> Complete(f)
    ensures SigAll(xs) == PrintAll(Shapes(xs))
    decreases xs, 0
  {
    if xs != [] {
      var n := |xs| - 1;
      SigAllIsPrint(xs[..n]);
      SigIsPrint(xs[n]);
      PrintAllSnoc(Shapes(xs[..n]), Shape(xs[n]));
    }
  }

  // ---- reading undoes writing, on well-formed values

  /** Written as its type says, sound to read, and read back as v. */
  ghost predicate Carries(a: Arg, v: Value) {
    && !a.AEntry? && Sound(a)
    && SigOf(a) == Print(Shape(v))
    && Dec(a) == v
  }

  lemma {:induction false} RoundTrip(v: Value)
    requires WellFormed(v)
    ensures Enc(v).One? && Carries(Enc(v).a, v)
    decreases v, 0
  {
    match v
    case Scalar(_) => KeyCode(v);
    case Array(xs) =>
      AllRoundTrip(xs);
      ArrayRoundTrip(xs);
    case Struct(xs) =>
      AllRoundTrip(xs);
      StructRoundTrip(xs);
    case Dict(es) =>
      EntriesRoundTrip(es);
      DictRoundTrip(es);
    case Variant(x) =>
      RoundTrip(x);
      VariantRoundTrip(x);
  }

  /** Each of xs is written as one argument, in order. */
  ghost predicate AllCarried(xs: seq<Value>, outs: Option<seq<Arg>>) {
    && outs.Some? && |outs.value| == |xs|
    && forall i :: 0 <= i < |xs| ==> Carries(outs.value[i], xs[i])
  }

  lemma {:induction false} AllRoundTrip(xs: seq<Value>)
    requires forall x :: x in xs ==> WellFormed(x)
    ensures AllCarried(xs, EncAll(xs))
    decreases xs, 0
  {
    hide Enc, Carries, WellFormed;
    if xs != [] {
      var n := |xs| - 1;
      AllRoundTrip(xs[..n]);
      RoundTrip(xs[n]);
    }
  }

  lemma SameTypeOf(x: Value, y: Value)
    requires WellFormed(x) && WellFormed(y) && Shape(x) == Shape(y)
    ensures TypeOf(x) == TypeOf(y)
  {
  }

  /** The array's own type check refuses none of the elements. */
  lemma {:induction false} ItemsAccepted(xs: seq<Value>, ws: seq<Arg>)
    requires |ws| == |xs| && forall i :: 0 <= i < |xs| ==> Dec(ws[i]) == xs[i]
    requires forall i :: 0 <= i < |xs| ==> TypeOf(xs[i]) == TypeOf(xs[0])
    ensures DecItems(ws) == xs
  {
    hide TypeOf, Dec;
    if xs != [] {
      var n := |xs| - 1;
      ItemsAccepted(xs[..n], ws[..n]);
    }
  }

  lemma ArrayItems(xs: seq<Value>, ws: seq<Arg>)
    requires WellFormed(Array(xs)) && AllCarried(xs, Some(ws))
    ensures xs != [] && DecItems(ws) == xs
    ensures forall w :: w in ws ==> SigOf(w) == Print(Shape(xs[0])) && Sound(w) && !w.AEntry?
  {
    hide TypeOf, SigOf, Print, Sound, Dec, Shape;
    assert xs[0] in xs;
    forall w | w in ws
      ensures SigOf(w) == Print(Shape(xs[0])) && Sound(w) && !w.AEntry?
    {
      var i :| 0 <= i < |ws| && ws[i] == w;
      assert Carries(ws[i], xs[i]) && xs[i] in xs;
    }
    forall i | 0 <= i < |xs|
      ensures TypeOf(xs[i]) == TypeOf(xs[0]) && Dec(ws[i]) == xs[i]
    {
      assert Carries(ws[i], xs[i]) && xs[i] in xs;
      SameTypeOf(xs[i], xs[0]);
    }
    ItemsAccepted(xs, ws);
  }

  lemma ArraySig(xs: seq<Value>)
    requires WellFormed(Array(xs))
    ensures xs != [] && Sig(xs[0]) == Print(Shape(xs[0])) && MayOpen(OpenArray, Sig(xs[0]))
    ensures !HoldsEntries(Sig(xs[0])) && IsElement(Sig(xs[0]))
  {
    hide Sig, IsElement, Print;
    assert xs[0] in xs;
    SigIsPrint(xs[0]);
    PrintedIsSingle(Shape(xs[0]));
    PrintStart(Shape(xs[0]));
  }

  lemma ArrayRoundTrip(xs: seq<Value>)
    requires WellFormed(Array(xs)) && AllCarried(xs, EncAll(xs))
    ensures Enc(Array(xs)).One? && Carries(Enc(Array(xs)).a, Array(xs))
  {
    hide WellFormed, AllCarried, EncAll, DecItems, IsElement, IsSingle, TypeOf, MayOpen, Sig;
    AllSome(xs);
    var ws := EncAll(xs).value;
    ArraySig(xs);
    ArrayItems(xs, ws);
    var a := AArray(Sig(xs[0]), ws);
    assert Enc(Array(xs)) == One(a);
    assert Sound(a);
    assert SigOf(a) == Print(Shape(Array(xs)));
    assert Dec(a) == Array(xs);
  }

  lemma AllSome(xs: seq<Value>)
    requires AllCarried(xs, EncAll(xs))
    ensures EncAll(xs).Some?
  {
  }

  lemma {:induction false} SigsCarried(xs: seq<Value>, ws: seq<Arg>)
    requires AllCarried(xs, Some(ws))
    ensures SigsOf(ws) == PrintAll(Shapes(xs))
  {
    hide SigOf, Print, Shape, Dec, Sound;
    if xs != [] {
      var n := |xs| - 1;
      SigsCarried(xs[..n], ws[..n]);
      PrintAllSnoc(Shapes(xs[..n]), Shape(xs[n]));
      assert Carries(ws[n], xs[n]);
    }
  }

  lemma DecCarried(xs: seq<Value>, ws: seq<Arg>)
    requires AllCarried(xs, Some(ws))
    ensures |ws| == |xs| && DecAll(ws) == xs
    ensures forall w :: w in ws ==> Sound(w) && !w.AEntry?
  {
    hide SigOf, Print, Shape, Dec, Sound;
    forall i | 0 <= i < |xs|
      ensures DecAll(ws)[i] == xs[i]
    {
      assert Carries(ws[i], xs[i]);
    }
    forall w | w in ws
      ensures Sound(w) && !w.AEntry?
    {
      var i :| 0 <= i < |ws| && ws[i] == w;
      assert Carries(ws[i], xs[i]);
    }
  }

  lemma StructSome(xs: seq<Value>)
    requires WellFormed(Struct(xs)) && AllCarried(xs, EncAll(xs))
    ensures xs != [] && EncAll(xs).Some?
  {
  }

  lemma StructRoundTrip(xs: seq<Value>)
    requires WellFormed(Struct(xs)) && AllCarried(xs, EncAll(xs))
    ensures Enc(Struct(xs)).One? && Carries(Enc(Struct(xs)).a, Struct(xs))
  {
    hide AllCarried, TypeOf, TypeString, EncAll, DecAll, SigsOf, PrintAll, IsElement, IsSingle, WellFormed;
    StructSome(xs);
    var ws := EncAll(xs).value;
    SigsCarried(xs, ws);
    DecCarried(xs, ws);
  }

  lemma VariantSig(x: Value)
    requires WellFormed(Variant(x))
    ensures x != Invalid && Sig(x) == Print(Shape(x)) && MayOpen(OpenVariant, Sig(x))
  {
    hide Sig, IsSingle, Print;
    SigIsPrint(x);
    PrintedIsSingle(Shape(x));
  }

  lemma VariantRoundTrip(x: Value)
    requires WellFormed(Variant(x)) && Enc(x).One? && Carries(Enc(x).a, x)
    ensures Enc(Variant(x)).One? && Carries(Enc(Variant(x)).a, Variant(x))
  {
    hide WellFormed, IsSingle, IsElement, TypeOf, MayOpen, Sig, Enc, Dec, Sound, SigOf, Shape, Print;
    VariantSig(x);
    VariantMade(x);
    VariantCarries(x, Sig(x), Enc(x).a);
  }

  lemma VariantMade(x: Value)
    requires x != Invalid && Enc(x).One? && SigOf(Enc(x).a) == Sig(x) && MayOpen(OpenVariant, Sig(x))
    ensures Enc(Variant(x)) == One(AVariant(Sig(x), Enc(x).a))
  {
    hide Sig, SigOf, IsSingle;
  }

  lemma VariantCarries(x: Value, sig: string, w: Arg)
    requires Carries(w, x) && sig == SigOf(w)
    ensures Carries(AVariant(sig, w), Variant(x))
  {
  }

  // ---- dicts

  ghost predicate EntryCarried(a: Arg, e: Entry) {
    && a.AEntry? && a.key.ABasic? && !a.value.AEntry? && Sound(a.value)
    && Dec(a.key) == e.key && Dec(a.value) == e.value
    && EntryShape(e).TDict? && SigOf(a) == PrintEntry(EntryShape(e).key, EntryShape(e).value)
  }

  ghost predicate EntriesCarried(es: seq<Entry>, outs: Option<seq<Arg>>) {
    && outs.Some? && |outs.value| == |es|
    && forall i :: 0 <= i < |es| ==> EntryCarried(outs.value[i], es[i])
  }

  lemma {:induction false} EntriesRoundTrip(es: seq<Entry>)
    requires forall e :: e in es ==> WellFormedEntry(e)
    ensures EntriesCarried(es, EncEntries(es))
    decreases es, 0
  {
    hide EncEntry, EntryCarried, WellFormedEntry;
    if es != [] {
      var n := |es| - 1;
      EntriesRoundTrip(es[..n]);
      EntryRoundTrip(es[n]);
    }
  }

  lemma {:induction false} EntryRoundTrip(e: Entry)
    requires WellFormedEntry(e)
    ensures EncEntry(e).One? && EntryCarried(EncEntry(e).a, e)
    decreases e, 0
  {
    hide WellFormed, Enc, Print;
    RoundTrip(e.value);
    var x := Enc(e.value).a;
    var a := AEntry(ABasic(e.key.basic), x);
    assert EncEntry(e) == One(a);
    assert Dec(a.key) == e.key && Dec(a.value) == e.value;
    assert EntryShape(e) == TDict(BasicCode(e.key.basic), Shape(e.value));
    assert SigOf(a) == "{" + [BasicCode(e.key.basic)] + SigOf(x) + "}";
  }

  /** The dict's own checks refuse and merge none of the entries. */
  lemma {:induction false} EntriesAccepted(es: seq<Entry>, ws: seq<Arg>)
    requires |ws| == |es|
    requires forall i :: 0 <= i < |es| ==> ws[i].AEntry? && Dec(ws[i].key) == es[i].key && Dec(ws[i].value) == es[i].value
    requires forall i :: 0 <= i < |es| ==>
      IsBasic(es[i].key) && TypeOf(es[i].key) == TypeOf(es[0].key) && TypeOf(es[i].value) == TypeOf(es[0].value)
    requires forall i, j :: 0 <= i < j < |es| ==> !Equal(es[i].key, es[j].key)
    ensures DecEntries(ws) == es
  {
    hide TypeOf, IsBasic, Dec, Equal;
    if es != [] {
      var n := |es| - 1;
      EntriesAccepted(es[..n], ws[..n]);
      assert es == es[..n] + [Entry(es[n].key, es[n].value)];
    }
  }

  lemma DictItems(es: seq<Entry>, ws: seq<Arg>)
    requires WellFormed(Dict(es)) && EntriesCarried(es, Some(ws))
    ensures es != [] && forall w :: w in ws ==> SigOf(w) == DictSig(es) && SoundItem(w)
  {
    hide TypeOf, TypeString, BasicCode, IsCode, PrintEntry;
    forall w | w in ws
      ensures SigOf(w) == PrintEntry(EntryShape(es[0]).key, EntryShape(es[0]).value) && SoundItem(w)
    {
      var i :| 0 <= i < |ws| && ws[i] == w;
      assert EntryCarried(ws[i], es[i]) && es[i] in es;
    }
  }

  ghost function DictSig(es: seq<Entry>): string
    requires es != []
  {
    PrintEntry(EntryShape(es[0]).key, EntryShape(es[0]).value)
  }

  lemma DictDeclared(es: seq<Entry>)
    requires WellFormed(Dict(es))
    ensures es != [] && Cut(EntrySig(es[0])) == DictSig(es) && MayOpen(OpenArray, DictSig(es))
    ensures HoldsEntries(DictSig(es)) && IsElement(DictSig(es)) && "a" + DictSig(es) == Print(Shape(Dict(es)))
  {
    hide EntrySig, IsElement, TypeOf;
    assert es[0] in es;
    EntrySigIsPrint(es[0]);
    PrintedIsEntry(EntryShape(es[0]).key, EntryShape(es[0]).value);
  }

  lemma DictSome(es: seq<Entry>)
    requires EntriesCarried(es, EncEntries(es))
    ensures EncEntries(es).Some?
  {
  }

  lemma DictRoundTrip(es: seq<Entry>)
    requires WellFormed(Dict(es)) && EntriesCarried(es, EncEntries(es))
    ensures Enc(Dict(es)).One? && Carries(Enc(Dict(es)).a, Dict(es))
  {
    hide WellFormed, EntriesCarried, EncEntries, DecEntries, IsElement, IsSingle, TypeOf, MayOpen, EntrySig, Cut, DictSig,
      HoldsEntries, Shape, Print;
    DictSome(es);
    var ws := EncEntries(es).value;
    DictDeclared(es);
    DictItems(es, ws);
    DictAccepted(es, ws);
    var a := AArray(DictSig(es), ws);
    assert Enc(Dict(es)) == One(a);
    assert Sound(a);
    assert Dec(a) == Dict(es);
  }

  lemma DictAccepted(es: seq<Entry>, ws: seq<Arg>)
    requires WellFormed(Dict(es)) && EntriesCarried(es, Some(ws))
    ensures DecEntries(ws) == es
  {
    forall i | 0 <= i < |es|
      ensures IsBasic(es[i].key) && TypeOf(es[i].key) == TypeOf(es[0].key) && TypeOf(es[i].value) == TypeOf(es[0].value)
      ensures ws[i].AEntry? && Dec(ws[i].key) == es[i].key && Dec(ws[i].value) == es[i].value
    {
      assert EntryCarried(ws[i], es[i]) && es[i] in es && es[0] in es;
      SameTypeOf(es[i].key, es[0].key);
      SameTypeOf(es[i].value, es[0].value);
    }
    EntriesAccepted(es, ws);
  }
}
