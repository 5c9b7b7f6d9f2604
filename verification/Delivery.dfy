/** What arrives of any content, well formed or not: when it is sent at all, what is dropped
    on the way, and what the receiver then has. */
module Delivery {
  import opened Wrappers
  import opened Values
  import opened Signature
  import opened Wire
  import opened Marshal
  import opened Unmarshal
  import opened Message
  import opened Reading
  import opened Survival

  predicate Empty(v: Value) {
    v == Array([]) || v == Dict([])
  }

  /** What is left out of a message, and of the arrays and structs in it. */
  predicate Dropped(v: Value) {
    Empty(v) || v == Variant(Invalid)
  }

  // ---- types, as they are declared and as they are sent

  /** The type that is declared for v: empty arrays and dicts in structs are passed over. */
  function Declares(v: Value): Ty
    decreases v, 0
  {
    match v
    case Invalid => TBasic('?')
    case Scalar(b) => TBasic(BasicCode(b))
    case Array(xs) => if xs == [] then TBasic('?') else TArray(Declares(xs[0]))
    case Struct(xs) => TStruct(DeclaresAll(xs))
    case Dict(es) => if es == [] then TBasic('?') else DeclaresEntry(es[0])
    case Variant(_) => TVariant
  }

  function DeclaresEntry(e: Entry): Ty
    decreases e, 0
  {
    TDict(if e.key.Scalar? then BasicCode(e.key.basic) else '?', Declares(e.value))
  }

  function DeclaresAll(xs: seq<Value>): seq<Ty>
    decreases xs, 0
  {
    if xs == [] then []
    else DeclaresAll(xs[..|xs| - 1]) + if Empty(xs[|xs| - 1]) then [] else [Declares(xs[|xs| - 1])]
  }

  /** The type that v is sent as: from structs, variants of the invalid value are dropped, too. */
  function Lands(v: Value): Ty
    decreases v, 0
  {
    if v.Struct? then TStruct(LandsAll(v.elems)) else Declares(v)
  }

  function LandsAll(xs: seq<Value>): seq<Ty>
    decreases xs, 0
  {
    if xs == [] then []
    else LandsAll(xs[..|xs| - 1]) + if Dropped(xs[|xs| - 1]) then [] else [Lands(xs[|xs| - 1])]
  }

  // ---- what can be sent, and what arrives

  /** v is sent as one argument: what is left of it when the rest is dropped is not empty, and
      lands as it was declared. */
  ghost predicate Writable(v: Value)
    decreases v, 0
  {
    match v
    case Invalid => false
    case Scalar(_) => IsKey(v)
    case Array(xs) =>
      && xs != [] && !Empty(xs[0])
      && (forall x :: x in xs && !Dropped(x) ==> Writable(x) && Lands(x) == Declares(xs[0]))
      && |Print(Declares(xs[0]))| <= MAX_SIGNATURE
    case Struct(xs) => (exists x :: x in xs && !Dropped(x)) && forall x :: x in xs && !Dropped(x) ==> Writable(x)
    case Dict(es) =>
      && es != []
      && (forall e :: e in es ==> WritableEntry(e) && LandsEntry(e) == DeclaresEntry(es[0]))
      && |PrintEntry(DeclaresEntry(es[0]).key, DeclaresEntry(es[0]).value)| <= MAX_SIGNATURE
    case Variant(x) => Writable(x) && Lands(x) == Declares(x) && |Print(Declares(x))| <= MAX_SIGNATURE
  }

  ghost predicate WritableEntry(e: Entry)
    decreases e, 0
  {
    IsKey(e.key) && Writable(e.value)
  }

  function LandsEntry(e: Entry): Ty {
    TDict(if e.key.Scalar? then BasicCode(e.key.basic) else '?', Lands(e.value))
  }

  /** v without what is dropped, and with one entry for each key: the first with the last
      value. */
  function Arrived(v: Value): Value
    decreases v, 0
  {
    match v
    case Invalid => v
    case Scalar(_) => v
    case Array(xs) => Array(ArrivedAll(xs))
    case Struct(xs) => Struct(ArrivedAll(xs))
    case Dict(es) => Dict(ArrivedEntries(es))
    case Variant(x) => Variant(Arrived(x))
  }

  function ArrivedAll(xs: seq<Value>): seq<Value>
    decreases xs, 0
  {
    if xs == [] then []
    else ArrivedAll(xs[..|xs| - 1]) + if Dropped(xs[|xs| - 1]) then [] else [Arrived(xs[|xs| - 1])]
  }

  function ArrivedEntries(es: seq<Entry>): seq<Entry>
    decreases es, 0
  {
    if es == [] then []
    else
      var e := ArrivedEntry(es[|es| - 1]);
      Values.DictAppend(ArrivedEntries(es[..|es| - 1]), e.key, e.value)
  }

  function ArrivedEntry(e: Entry): Entry
    decreases e, 0
  {
    Entry(e.key, Arrived(e.value))
  }

  // ---- the declared signature is that of the declared type

  lemma {:induction false} SigDeclared(v: Value)
    requires Writable(v) || v == Variant(Invalid)
    ensures Complete(Declares(v)) && Sig(v) == Print(Declares(v))
    decreases v, 1
  {
    hide TypeOf, TypeString, BasicCode, IsCode, MAX_SIGNATURE;
    match v
    case Scalar(_) => KeyCode(v);
    case Array(xs) =>
      assert xs[0] in xs;
      SigDeclared(xs[0]);
    case Struct(xs) =>
      FieldsDeclared(xs);
      SomeDeclared(xs);
    case Dict(es) =>
      assert es[0] in es;
      EntryDeclared(es[0]);
    case Variant(x) => VariantCode(x);
    case Invalid => assert false;
  }

  lemma {:induction false} EntryDeclared(e: Entry)
    requires WritableEntry(e)
    ensures Complete(DeclaresEntry(e)) && EntrySig(e) == PrintEntry(DeclaresEntry(e).key, DeclaresEntry(e).value)
    decreases e, 1
  {
    hide TypeOf, TypeString, BasicCode, IsCode;
    KeyCode(e.key);
    SigDeclared(e.value);
  }

  lemma EmptySig(v: Value)
    requires Empty(v)
    ensures Sig(v) == ""
  {
  }

  lemma {:induction false} FieldsDeclared(xs: seq<Value>)
    requires forall x :: x in xs && !Dropped(x) ==> Writable(x)
    ensures forall t :: t in DeclaresAll(xs) ==> Complete(t)
    ensures SigAll(xs) == PrintAll(DeclaresAll(xs))
    decreases xs, 0
  {
    hide Writable, Sig, Print, Complete, Declares;
    if xs != [] {
      var n := |xs| - 1;
      FieldsDeclared(xs[..n]);
      if Empty(xs[n]) {
        EmptySig(xs[n]);
        assert DeclaresAll(xs) == DeclaresAll(xs[..n]);
      } else {
        SigDeclared(xs[n]);
        PrintAllSnoc(DeclaresAll(xs[..n]), Declares(xs[n]));
      }
    }
  }

  lemma {:induction false} SomeDeclared(xs: seq<Value>)
    requires exists x :: x in xs && !Dropped(x)
    ensures DeclaresAll(xs) != []
  {
    hide Declares;
    var n := |xs| - 1;
    if Dropped(xs[n]) {
      SomeDeclared(xs[..n]);
    }
  }

  // ---- what arrives

  /** a is v's argument on the wire, and reads as what arrives of v. */
  ghost predicate Brings(a: Arg, v: Value) {
    && Sound(a) && !a.AEntry?
    && SigOf(a) == Print(Lands(v)) && Complete(Lands(v))
    && Dec(a) == Arrived(v)
  }

  /** Exactly what is to be dropped is dropped, exactly what is writable is written, all else
      breaks the message; and what is written reads as what arrives. */
  lemma {:induction false} Delivered(v: Value)
    ensures Enc(v) == Nothing <==> Dropped(v)
    ensures Enc(v).One? <==> Writable(v)
    ensures Enc(v).One? ==> Brings(Enc(v).a, v)
    decreases v, 2
  {
    match v
    case Invalid =>
    case Scalar(_) => ScalarDelivered(v);
    case Array(xs) => ArrayDelivered(xs);
    case Struct(xs) => StructDelivered(xs);
    case Dict(es) => DictDelivered(es);
    case Variant(x) => VariantDelivered(x);
  }

  lemma ScalarDelivered(v: Value)
    requires v.Scalar?
    ensures Enc(v) != Nothing && !Dropped(v)
    ensures Enc(v).One? <==> Writable(v)
    ensures Enc(v).One? ==> Brings(Enc(v).a, v)
  {
    hide TypeOf;
  }

  /** ws are the arguments of those of xs that are not dropped, in order. */
  ghost predicate AllBrought(xs: seq<Value>, ws: seq<Arg>) {
    && DecAll(ws) == ArrivedAll(xs) && SigsOf(ws) == PrintAll(LandsAll(xs))
    && (forall w :: w in ws ==> Sound(w) && !w.AEntry?)
    && (forall t :: t in LandsAll(xs) ==> Complete(t))
    && (forall w :: w in ws ==> exists x :: x in xs && !Dropped(x) && Enc(x) == One(w))
    && (forall x :: x in xs && !Dropped(x) ==> Enc(x).One? && Enc(x).a in ws && Brings(Enc(x).a, x))
  }

  lemma {:induction false} AllDelivered(xs: seq<Value>)
    ensures EncAll(xs).Some? <==> forall x :: x in xs && !Dropped(x) ==> Writable(x)
    ensures EncAll(xs).Some? ==> AllBrought(xs, EncAll(xs).value)
    decreases xs, 0
  {
    hide Enc, Writable, Dropped, Brings, AllBrought;
    if xs == [] {
      NoneBrought();
    } else {
      var n := |xs| - 1;
      AllDelivered(xs[..n]);
      Delivered(xs[n]);
      assert xs == xs[..n] + [xs[n]];
      if EncAll(xs).Some? {
        OneMoreBrought(xs, EncAll(xs[..n]).value, EncAll(xs).value);
      }
    }
  }

  lemma NoneBrought()
    ensures AllBrought([], [])
  {
  }

  lemma OneMoreBrought(xs: seq<Value>, ws: seq<Arg>, all: seq<Arg>)
    requires xs != [] && AllBrought(xs[..|xs| - 1], ws)
    requires var x := xs[|xs| - 1];
      && Enc(x) != Broken && (Enc(x) == Nothing <==> Dropped(x)) && (Enc(x).One? ==> Brings(Enc(x).a, x))
      && all == ws + Wires(Enc(x)).value
    ensures AllBrought(xs, all)
  {
    hide Enc, Dropped, AllBrought, Brings;
    var n := |xs| - 1;
    if Enc(xs[n]).One? {
      OneBrought(xs, ws, Enc(xs[n]).a);
    } else {
      assert all == ws;
      OneLeftOut(xs, ws);
    }
  }

  lemma OneBrought(xs: seq<Value>, ws: seq<Arg>, a: Arg)
    requires xs != [] && AllBrought(xs[..|xs| - 1], ws)
    requires Enc(xs[|xs| - 1]) == One(a) && !Dropped(xs[|xs| - 1]) && Brings(a, xs[|xs| - 1])
    ensures AllBrought(xs, ws + [a])
  {
    hide Enc, Dropped, Sound, SigOf, Print, Lands, Complete, Dec, Arrived, DecAll, PrintAll;
    var n, all := |xs| - 1, ws + [a];
    assert xs == xs[..n] + [xs[n]];
    assert all[..|ws|] == ws && all[|ws|] == a;
    PrintAllSnoc(LandsAll(xs[..n]), Lands(xs[n]));
    assert DecAll(all) == DecAll(ws) + [Dec(a)];
    forall w | w in all
      ensures exists x :: x in xs && !Dropped(x) && Enc(x) == One(w)
    {
      if w in ws {
        var x :| x in xs[..n] && !Dropped(x) && Enc(x) == One(w);
        assert x in xs;
      } else {
        assert xs[n] in xs;
      }
    }
  }

  lemma OneLeftOut(xs: seq<Value>, ws: seq<Arg>)
    requires xs != [] && AllBrought(xs[..|xs| - 1], ws) && Dropped(xs[|xs| - 1])
    ensures AllBrought(xs, ws)
  {
    hide Enc, Dropped, Sound, SigOf, Print, Lands, Complete, Dec, Arrived, DecAll, PrintAll, Brings;
    var n := |xs| - 1;
    assert xs == xs[..n] + [xs[n]];
    assert ArrivedAll(xs) == ArrivedAll(xs[..n]) && LandsAll(xs) == LandsAll(xs[..n]);
    forall w | w in ws
      ensures exists x :: x in xs && !Dropped(x) && Enc(x) == One(w)
    {
      var x :| x in xs[..n] && !Dropped(x) && Enc(x) == One(w);
      assert x in xs;
    }
  }

  lemma EmptyDropped()
    ensures Enc(Array([])) == Nothing && !Writable(Array([]))
    ensures Enc(Dict([])) == Nothing && !Writable(Dict([]))
  {
  }

  // ---- arrays

  lemma ArrayDelivered(xs: seq<Value>)
    ensures Enc(Array(xs)) == Nothing <==> xs == []
    ensures Enc(Array(xs)).One? <==> Writable(Array(xs))
    ensures Enc(Array(xs)).One? ==> Brings(Enc(Array(xs)).a, Array(xs))
    decreases xs, 1
  {
    hide Brings, EncAll, Sig, Writable, AllBrought, Dropped;
    AllDelivered(xs);
    EmptyDropped();
    if xs != [] {
      ArrayMade(xs);
      if Enc(Array(xs)).One? {
        ArrayWritable(xs);
      }
      if Writable(Array(xs)) {
        WritableParts(xs);
        WritableArray(xs);
      }
    }
  }

  ghost predicate AllOf(ws: seq<Arg>, sig: string) {
    forall w :: w in ws ==> SigOf(w) == sig
  }

  /** When an array can be written, in terms of its elements' arguments. */
  lemma ArrayMade(xs: seq<Value>)
    requires xs != []
    ensures Enc(Array(xs)) != Nothing
    ensures Enc(Array(xs)).One? <==> MayOpen(OpenArray, Sig(xs[0])) && EncAll(xs).Some? && AllOf(EncAll(xs).value, Sig(xs[0]))
    ensures Enc(Array(xs)).One? ==> Enc(Array(xs)).a == AArray(Sig(xs[0]), EncAll(xs).value)
  {
    hide EncAll, Sig, SigOf, IsElement;
  }

  /** The first element tells the array's type, also if it is dropped. */
  lemma FirstDeclared(xs: seq<Value>)
    requires xs != [] && !Empty(xs[0]) && forall x :: x in xs && !Dropped(x) ==> Writable(x)
    ensures Complete(Declares(xs[0])) && Sig(xs[0]) == Print(Declares(xs[0]))
    ensures IsElement(Sig(xs[0])) && !HoldsEntries(Sig(xs[0]))
  {
    hide Writable, Declares, Sig, Complete, Print, IsElement;
    assert xs[0] in xs;
    SigDeclared(xs[0]);
    PrintedIsSingle(Declares(xs[0]));
    SigNoBrace(xs[0]);
  }

  lemma NotOpened(v: Value)
    requires MayOpen(OpenArray, Sig(v))
    ensures !Empty(v)
  {
    hide Sig;
    if Empty(v) {
      EmptySig(v);
    }
  }

  lemma ArrayWritable(xs: seq<Value>)
    requires xs != [] && EncAll(xs).Some? && AllBrought(xs, EncAll(xs).value)
    requires MayOpen(OpenArray, Sig(xs[0])) && AllOf(EncAll(xs).value, Sig(xs[0]))
    requires forall x :: x in xs && !Dropped(x) ==> Writable(x)
    ensures Writable(Array(xs))
  {
    hide Enc, EncAll, Sig, SigOf, Print, Lands, Declares, Dropped, Empty, Sound, Dec, Arrived, Complete, IsElement;
    NotOpened(xs[0]);
    FirstDeclared(xs);
    forall x | x in xs && !Dropped(x)
      ensures Writable(x) && Lands(x) == Declares(xs[0])
    {
      assert Brings(Enc(x).a, x);
      PrintInjective(Lands(x), Declares(xs[0]));
    }
  }

  lemma WritableParts(xs: seq<Value>)
    requires Writable(Array(xs))
    ensures xs != [] && !Empty(xs[0]) && |Print(Declares(xs[0]))| <= MAX_SIGNATURE
    ensures forall x :: x in xs && !Dropped(x) ==> Writable(x) && Lands(x) == Declares(xs[0])
  {
  }

  lemma WritableArray(xs: seq<Value>)
    requires Writable(Array(xs)) && EncAll(xs).Some? && AllBrought(xs, EncAll(xs).value)
    ensures Enc(Array(xs)).One? && Brings(Enc(Array(xs)).a, Array(xs))
  {
    hide Enc, EncAll, Sig, SigOf, Writable, Lands, Declares, Dropped, Empty, Sound, Dec, Arrived, Complete, IsElement, Print;
    WritableParts(xs);
    FirstDeclared(xs);
    ArrayMade(xs);
    var ws, sig := EncAll(xs).value, Sig(xs[0]);
    forall w | w in ws
      ensures SigOf(w) == sig
    {
      var x :| x in xs && !Dropped(x) && Enc(x) == One(w);
      assert Brings(Enc(x).a, x);
    }
    ArrayBrings(xs, ws, sig);
  }

  lemma ArrayBrings(xs: seq<Value>, ws: seq<Arg>, sig: string)
    requires xs != [] && AllBrought(xs, ws) && AllOf(ws, sig)
    requires Complete(Declares(xs[0])) && sig == Print(Declares(xs[0])) && IsElement(sig) && !HoldsEntries(sig)
    ensures Brings(AArray(sig, ws), Array(xs))
  {
    hide Enc, IsElement, HoldsEntries, DecItems, ArrivedAll, Print, Dropped, SigsOf, LandsAll, DecAll;
    var a := AArray(sig, ws);
    ItemsRead(ws, sig);
    assert DecItems(ws) == DecAll(ws);
    assert Sound(a);
    assert Dec(a) == Arrived(Array(xs));
    ArrayPrinted(Declares(xs[0]));
  }

  lemma ArrayPrinted(t: Ty)
    ensures Print(TArray(t)) == "a" + Print(t)
  {
  }

  // ---- structs

  lemma StructMade(xs: seq<Value>)
    ensures Enc(Struct(xs)) != Nothing
    ensures EncAll(xs).Some? && AllBrought(xs, EncAll(xs).value) ==> (Enc(Struct(xs)).One? <==> EncAll(xs).value != [])
    ensures Enc(Struct(xs)).One? ==> EncAll(xs).Some? && Enc(Struct(xs)).a == AStruct(EncAll(xs).value)
  {
    hide EncAll, SigOf, Sound, DecAll, ArrivedAll, PrintAll, Enc, Brings, Dropped;
    StructEnc(xs);
  }

  lemma StructEnc(xs: seq<Value>)
    ensures Enc(Struct(xs)) == Make(OpenStruct, "", EncAll(xs))
  {
  }

  lemma StructDelivered(xs: seq<Value>)
    ensures Enc(Struct(xs)) != Nothing
    ensures Enc(Struct(xs)).One? <==> Writable(Struct(xs))
    ensures Enc(Struct(xs)).One? ==> Brings(Enc(Struct(xs)).a, Struct(xs))
    decreases xs, 1
  {
    hide Enc, Brings, EncAll, AllBrought, Dropped;
    AllDelivered(xs);
    StructMade(xs);
    if EncAll(xs).Some? {
      SomeWritten(xs, EncAll(xs).value);
      if EncAll(xs).value != [] {
        StructBrings(xs, EncAll(xs).value);
      }
    }
  }

  lemma SomeWritten(xs: seq<Value>, ws: seq<Arg>)
    requires AllBrought(xs, ws)
    ensures ws != [] <==> exists x :: x in xs && !Dropped(x)
  {
    hide Enc, Brings, Dropped, DecAll, ArrivedAll, PrintAll, LandsAll, SigsOf, Complete, Sound;
    if ws != [] {
      assert ws[0] in ws;
    }
  }

  lemma StructBrings(xs: seq<Value>, ws: seq<Arg>)
    requires AllBrought(xs, ws) && ws != []
    ensures Brings(AStruct(ws), Struct(xs))
  {
    hide Enc, DecAll, ArrivedAll, PrintAll, SigsOf, LandsAll, Dropped;
    SomeLand(xs, ws);
  }

  lemma SomeLand(xs: seq<Value>, ws: seq<Arg>)
    requires AllBrought(xs, ws) && ws != []
    ensures LandsAll(xs) != []
  {
    hide Enc, DecAll, ArrivedAll, Dropped, Brings, LandsAll;
    SigStart(ws[|ws| - 1]);
  }

  // ---- variants

  lemma VariantDelivered(x: Value)
    ensures Enc(Variant(x)) == Nothing <==> x == Invalid
    ensures Enc(Variant(x)).One? <==> Writable(Variant(x))
    ensures Enc(Variant(x)).One? ==> Brings(Enc(Variant(x)).a, Variant(x))
    decreases x, 3
  {
    hide Enc, Sig, Print, Lands, Declares, SigOf, Complete, Arrived, IsSingle, Dec;
    Delivered(x);
    VariantMade(x);
    if Writable(x) {
      SigDeclared(x);
      if Lands(x) == Declares(x) {
        PrintedIsSingle(Declares(x));
      }
      if Print(Lands(x)) == Print(Declares(x)) {
        PrintInjective(Lands(x), Declares(x));
      }
      if Enc(Variant(x)).One? {
        VariantBrings(x, Enc(x).a);
      }
    }
  }

  lemma VariantMade(x: Value)
    ensures Enc(Variant(x)) == Nothing <==> x == Invalid
    ensures Enc(Variant(x)).One? <==> Enc(x).One? && IsSingle(Sig(x)) && |Sig(x)| <= MAX_SIGNATURE && SigOf(Enc(x).a) == Sig(x)
    ensures Enc(Variant(x)).One? ==> Enc(Variant(x)).a == AVariant(Sig(x), Enc(x).a)
  {
    hide Sig, SigOf, IsSingle;
    assert Enc(x).One? ==> Enc(x).a in Wires(Enc(x)).value;
  }

  lemma VariantBrings(x: Value, a: Arg)
    requires Brings(a, x) && SigOf(a) == Sig(x)
    ensures Brings(AVariant(Sig(x), a), Variant(x))
  {
    hide Sig, Lands;
    assert Lands(Variant(x)) == TVariant by {
      LandsVariant(x);
    }
  }

  lemma LandsVariant(x: Value)
    ensures Lands(Variant(x)) == TVariant && Arrived(Variant(x)) == Variant(Arrived(x))
  {
  }

  // ---- dicts

  ghost predicate BringsEntry(a: Arg, e: Entry) {
    && a.AEntry? && a.key.ABasic? && e.key == Scalar(a.key.b) && Brings(a.value, e.value)
    && SigOf(a) == PrintEntry(LandsEntry(e).key, LandsEntry(e).value)
  }

  ghost predicate EntriesBrought(es: seq<Entry>, ws: seq<Arg>) {
    |ws| == |es| && forall i :: 0 <= i < |es| ==> BringsEntry(ws[i], es[i])
  }

  lemma EntryDelivered(e: Entry)
    ensures EncEntry(e) != Nothing
    ensures EncEntry(e).One? <==> WritableEntry(e)
    ensures EncEntry(e).One? ==> BringsEntry(EncEntry(e).a, e)
    decreases e, 2
  {
    hide Enc, Lands, Print, Sound, Arrived, Writable, Complete;
    Delivered(e.value);
    EntryNeverDropped(e);
    if EncEntry(e).One? {
      assert SigOf(ABasic(e.key.basic)) == [BasicCode(e.key.basic)];
    }
  }

  lemma {:induction false} EntriesDelivered(es: seq<Entry>)
    ensures EncEntries(es).Some? <==> forall e :: e in es ==> WritableEntry(e)
    ensures EncEntries(es).Some? ==> EntriesBrought(es, EncEntries(es).value)
    decreases es, 0
  {
    hide EncEntry, WritableEntry, BringsEntry;
    if es != [] {
      var n := |es| - 1;
      EntriesDelivered(es[..n]);
      EntryDelivered(es[n]);
      assert es == es[..n] + [es[n]];
    }
  }

  lemma DictMade(es: seq<Entry>)
    requires es != []
    ensures Enc(Dict(es)) != Nothing
    ensures var sig := Cut(EntrySig(es[0]));
      && (Enc(Dict(es)).One? <==> MayOpen(OpenArray, sig) && EncEntries(es).Some? && AllOf(EncEntries(es).value, sig))
      && (Enc(Dict(es)).One? ==> Enc(Dict(es)).a == AArray(sig, EncEntries(es).value))
  {
    hide EncEntries, EntrySig, SigOf, IsElement, Cut;
  }

  lemma DictDelivered(es: seq<Entry>)
    ensures Enc(Dict(es)) == Nothing <==> es == []
    ensures Enc(Dict(es)).One? <==> Writable(Dict(es))
    ensures Enc(Dict(es)).One? ==> Brings(Enc(Dict(es)).a, Dict(es))
    decreases es, 1
  {
    hide Brings, EncEntries, EntrySig, Writable, EntriesBrought;
    EntriesDelivered(es);
    EmptyDropped();
    if es != [] {
      DictMade(es);
      if Enc(Dict(es)).One? {
        DictWritable(es);
      }
      if Writable(Dict(es)) {
        WritableDictParts(es);
        WritableDict(es);
      }
    }
  }

  lemma WritableDictParts(es: seq<Entry>)
    ensures Writable(Dict(es)) <==> es != [] && AllFit(es, DeclaresEntry(es[0]))
  {
  }

  ghost predicate AllFit(es: seq<Entry>, t: Ty)
    requires t.TDict?
  {
    && (forall e :: e in es ==> WritableEntry(e) && LandsEntry(e) == t)
    && |PrintEntry(t.key, t.value)| <= MAX_SIGNATURE
  }

  /** A declared signature that is cut is not one that any entry has. */
  lemma CutTells(d: Ty, t: Ty)
    requires d.TDict? && t.TDict? && Complete(d) && Complete(t)
    requires Cut(PrintEntry(d.key, d.value)) == PrintEntry(t.key, t.value)
    ensures t == d && |PrintEntry(d.key, d.value)| <= MAX_SIGNATURE
  {
    hide PrintEntry, Complete;
    var s := PrintEntry(d.key, d.value);
    var rest := if |s| <= MAX_SIGNATURE then "" else s[MAX_SIGNATURE..];
    assert s == Cut(s) + rest;
    assert Print(d) + "" == Print(t) + rest;
    PrefixFree(d, t, "", rest);
  }

  lemma DictWritable(es: seq<Entry>)
    requires es != [] && EncEntries(es).Some? && EntriesBrought(es, EncEntries(es).value)
    requires AllOf(EncEntries(es).value, Cut(EntrySig(es[0]))) && forall e :: e in es ==> WritableEntry(e)
    ensures Writable(Dict(es))
  {
    hide EncEntries, EntrySig, Cut, Writable, WritableEntry, SigOf, PrintEntry, LandsEntry, DeclaresEntry, Complete, Brings;
    var ws := EncEntries(es).value;
    EntryDeclared(es[0]);
    var t := DeclaresEntry(es[0]);
    TypesAreDicts(es[0], es[0]);
    forall e | e in es
      ensures LandsEntry(e) == t && |PrintEntry(t.key, t.value)| <= MAX_SIGNATURE
    {
      var i :| 0 <= i < |es| && es[i] == e;
      assert ws[i] in ws && BringsEntry(ws[i], es[i]);
      EntryLands(e, ws[i]);
      TypesAreDicts(es[0], e);
      CutTells(t, LandsEntry(e));
    }
    assert es[0] in es;
    WritableDictParts(es);
  }

  lemma TypesAreDicts(d: Entry, e: Entry)
    ensures DeclaresEntry(d).TDict? && LandsEntry(e).TDict?
  {
  }

  lemma EntryLands(e: Entry, a: Arg)
    requires BringsEntry(a, e)
    ensures Complete(LandsEntry(e))
  {
    hide SigOf, Lands, Print, Sound, Dec, Arrived, PrintEntry;
    BasicTyped(a.key.b);
  }

  lemma WritableDict(es: seq<Entry>)
    requires Writable(Dict(es)) && EncEntries(es).Some? && EntriesBrought(es, EncEntries(es).value)
    ensures Enc(Dict(es)).One? && Brings(Enc(Dict(es)).a, Dict(es))
  {
    hide Enc, EncEntries, EntrySig, Writable, WritableEntry, SigOf, PrintEntry, LandsEntry, DeclaresEntry, Complete, Brings,
         IsElement, Print, HoldsEntries;
    var ws := EncEntries(es).value;
    WritableDictParts(es);
    assert es[0] in es;
    EntryDeclared(es[0]);
    TypesAreDicts(es[0], es[0]);
    var t := DeclaresEntry(es[0]);
    var sig := PrintEntry(t.key, t.value);
    forall w | w in ws
      ensures SigOf(w) == sig && SoundEntry(w)
    {
      var i :| 0 <= i < |ws| && ws[i] == w;
      assert es[i] in es && BringsEntry(ws[i], es[i]);
      EntrySound(w, es[i]);
    }
    DictMade(es);
    EntryDeclares(t, sig);
    DictBrings(es, ws, t, sig);
  }

  ghost predicate SoundEntry(w: Arg) {
    w.AEntry? && SoundItem(w)
  }

  lemma EntrySound(w: Arg, e: Entry)
    requires BringsEntry(w, e)
    ensures SoundEntry(w)
  {
    hide Sound, SigOf, Lands, Print, Dec, Arrived;
  }

  lemma EntryDeclares(t: Ty, sig: string)
    requires t.TDict? && Complete(t) && sig == PrintEntry(t.key, t.value)
    ensures IsElement(sig) && HoldsEntries(sig) && Print(t) == "a" + sig
  {
    hide IsElement, IsCode, Print;
    PrintedIsEntry(t.key, t.value);
    assert Print(t) == "a" + sig by {
      DictPrinted(t.key, t.value);
    }
  }

  lemma DictPrinted(k: char, v: Ty)
    ensures Print(TDict(k, v)) == "a" + PrintEntry(k, v)
  {
  }

  lemma DictBrings(es: seq<Entry>, ws: seq<Arg>, t: Ty, sig: string)
    requires es != [] && EntriesBrought(es, ws) && AllOf(ws, sig) && t == DeclaresEntry(es[0])
    requires IsElement(sig) && HoldsEntries(sig) && Print(t) == "a" + sig && Complete(t)
    requires forall w :: w in ws ==> SoundEntry(w)
    ensures Brings(AArray(sig, ws), Dict(es))
  {
    hide IsElement, HoldsEntries, DecEntries, ArrivedEntries, Print, Complete, DeclaresEntry, BringsEntry, SoundItem;
    var a := AArray(sig, ws);
    EntriesArrive(es, ws);
    assert Sound(a) && SigOf(a) == "a" + sig;
    assert Dec(a) == Dict(DecEntries(ws)) && Arrived(Dict(es)) == Dict(ArrivedEntries(es));
    assert Lands(Dict(es)) == t;
  }

  lemma {:induction false} EntriesArrive(es: seq<Entry>, ws: seq<Arg>)
    requires EntriesBrought(es, ws)
    ensures DecEntries(ws) == ArrivedEntries(es)
  {
    hide Values.DictAppend, Dec, Arrived, Sound, SigOf, Lands, Print, PrintEntry;
    if es != [] {
      var n := |es| - 1;
      EntriesArrive(es[..n], ws[..n]);
      assert BringsEntry(ws[n], es[n]);
      KeyRead(ws[n].key);
    }
  }

  // ---- messages

  /** What is not dropped can be written, and the signature of all that is within the limit. */
  ghost predicate Sent(content: seq<Value>) {
    (forall v :: v in content && !Dropped(v) ==> Writable(v)) && |PrintAll(LandsAll(content))| <= MAX_SIGNATURE
  }

  /** A body takes every argument but a bare dict entry. */
  lemma BodyAccepts(content: seq<Value>)
    ensures EncAll(content).Some? ==> forall a :: a in EncAll(content).value ==> Accepts(Frame(Body, "", []), a)
  {
    AllDelivered(content);
  }

  lemma AllSent(content: seq<Value>)
    ensures EncAll(content).Some? && |SigsOf(EncAll(content).value)| <= MAX_SIGNATURE <==> Sent(content)
    ensures EncAll(content).Some? ==> DecAll(EncAll(content).value) == ArrivedAll(content)
    ensures EncAll(content).Some? ==> forall a :: a in EncAll(content).value ==> Sound(a)
  {
    hide Enc, Writable, Brings, Sound, DecAll, ArrivedAll, SigsOf, PrintAll, LandsAll, Dropped;
    AllDelivered(content);
  }

  /** to_dbus_message: the arguments written, and whether libdbus refused none of it. */
  method ToMessage(content: seq<Value>) returns (ok: bool, args: seq<Arg>)
    ensures ok <==> Sent(content)
    ensures ok ==> EncAll(content) == Some(args) && DecAll(args) == ArrivedAll(content) && forall a :: a in args ==> Sound(a)
  {
    hide Enc, SigsOf, Sound, SigOf, Sent, ArrivedAll, DecAll;
    var w := new Writer();
    ghost var s := w.state;
    assert Top(s) == Frame(Body, "", []);
    FromAll(w, content);
    BodyAccepts(content);
    AllSent(content);
    assert w.state.ok ==> Top(w.state).items == EncAll(content).value;
    args := Top(w.state).items;
    ok := w.state.ok && |SigsOf(args)| <= MAX_SIGNATURE;
  }

  /** from_dbus_message */
  method FromMessage(args: seq<Arg>) returns (content: seq<Value>)
    requires forall a :: a in args ==> Sound(a)
    ensures content == DecAll(args)
  {
    var it := new Iter(args);
    content := ToAll(it);
  }

  /** Send, then receive. */
  method SendAndReceive(content: seq<Value>) returns (ok: bool, back: seq<Value>)
    ensures ok <==> Sent(content)
    ensures ok ==> back == ArrivedAll(content)
    ensures ok && back == content <==>
      (forall v :: v in content ==> WellFormed(v)) && |PrintAll(Shapes(content))| <= MAX_SIGNATURE
  {
    hide Enc, SigsOf, Sound, WellFormed, Dec, Sent, ArrivedAll, DecAll;
    MessageSurvivesIffWellFormed(content);
    AllSent(content);
    var args;
    back := [];
    ok, args := ToMessage(content);
    if ok {
      back := FromMessage(args);
    }
  }

  /** Of a whole value or message nothing is lost exactly if it is well formed. */
  lemma ArrivesIffWellFormed(v: Value)
    ensures Writable(v) && Arrived(v) == v <==> WellFormed(v)
  {
    hide Writable, Arrived, WellFormed, Enc, Dec, Lands, Print, SigOf, Sound, Complete;
    Delivered(v);
    SurvivesIffWellFormed(v);
  }

  lemma StructShown(x: Value)
    requires x.Scalar?
    ensures Arrived(Struct([x, Variant(Invalid)])) == Struct([x])
  {
    var xs := [x, Variant(Invalid)];
    assert xs[..1] == [x] && xs[..1][..0] == [];
    assert ArrivedAll(xs[..1]) == [x];
  }

  lemma MergeShown(x: Value, y: Value)
    requires x.Scalar? && y.Scalar? && TypeOf(x) == TypeOf(y)
    ensures var plus, minus := Scalar(Double(Zero(false))), Scalar(Double(Zero(true)));
      Arrived(Dict([Entry(plus, x), Entry(minus, y)])) == Dict([Entry(plus, y)])
  {
    var plus, minus := Scalar(Double(Zero(false))), Scalar(Double(Zero(true)));
    var es := [Entry(plus, x), Entry(minus, y)];
    assert es[..1] == [Entry(plus, x)] && es[..1][..0] == [];
    assert Arrived(x) == x && Arrived(y) == y;
    assert ArrivedEntry(Entry(plus, x)) == Entry(plus, x) && ArrivedEntry(Entry(minus, y)) == Entry(minus, y);
    assert Values.DictAppend([], plus, x) == [Entry(plus, x)];
    assert Equal(plus, minus) && KeyAt([Entry(plus, x)], minus) == 0;
    assert Values.DictAppend([Entry(plus, x)], minus, y) == [Entry(plus, y)];
    assert ArrivedEntries(es[..1]) == [Entry(plus, x)];
  }

  /** In one message: an empty array, a number, a struct with a variant of the invalid value,
      and a dict with both zeros as keys. */
  lemma DroppedShown()
    ensures var one, two := Scalar(Int32(1)), Scalar(Int32(2));
      var plus, minus := Scalar(Double(Zero(false))), Scalar(Double(Zero(true)));
      ArrivedAll([Array([]), one, Struct([one, Variant(Invalid)]), Dict([Entry(plus, one), Entry(minus, two)])]) ==
        [one, Struct([one]), Dict([Entry(plus, two)])]
  {
    var one, two := Scalar(Int32(1)), Scalar(Int32(2));
    var s := Struct([one, Variant(Invalid)]);
    var d := Dict([Entry(Scalar(Double(Zero(false))), one), Entry(Scalar(Double(Zero(true))), two)]);
    StructShown(one);
    MergeShown(one, two);
    assert Arrived(one) == one && !Dropped(one) && !Dropped(s) && !Dropped(d) && Dropped(Array([]));
    hide Arrived, Dropped;
    var all := [Array([]), one, s, d];
    assert all[..3] == [Array([]), one, s] && all[..3][..2] == [Array([]), one] && all[..3][..2][..1] == [Array([])];
    assert all[..3][..2][..1][..0] == [];
    assert ArrivedAll(all[..3][..2][..1]) == [];
    assert ArrivedAll(all[..3][..2]) == [one];
    assert ArrivedAll(all[..3]) == [one, Struct([one])];
  }
}
