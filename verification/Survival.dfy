/** Nothing but well-formed content survives being sent and read back, so that
    well-formedness is the exact condition, for one value and for whole messages. */
module Survival {
  import opened Wrappers
  import opened Values
  import opened Signature
  import opened Wire
  import opened Marshal
  import opened Unmarshal
  import opened Message

  /** v is written as one argument that reads back as v. */
  ghost predicate Survives(v: Value) {
    Enc(v).One? && Dec(Enc(v).a) == v
  }

  // ---- nothing was dropped on the way

  /** Dropped elements make the written list shorter; if it is not, each element was written. */
  lemma {:induction false} NoneDropped(xs: seq<Value>)
    requires EncAll(xs).Some?
    ensures |EncAll(xs).value| <= |xs|
    ensures |EncAll(xs).value| == |xs| ==> forall i :: 0 <= i < |xs| ==> Enc(xs[i]) == One(EncAll(xs).value[i])
  {
    hide Enc;
    if xs != [] {
      NoneDropped(xs[..|xs| - 1]);
    }
  }

  lemma {:induction false} EntriesWritten(es: seq<Entry>)
    requires EncEntries(es).Some?
    ensures |EncEntries(es).value| == |es|
    ensures forall i :: 0 <= i < |es| ==> EncEntry(es[i]) == One(EncEntries(es).value[i])
  {
    hide EncEntry;
    if es != [] {
      EntriesWritten(es[..|es| - 1]);
      EntryNeverDropped(es[|es| - 1]);
    }
  }

  lemma EntryNeverDropped(e: Entry)
    ensures EncEntry(e) != Nothing
  {
  }

  /** Refused elements make the list read back shorter; if it is not, each was taken. */
  lemma {:induction false} NoneRefused(ws: seq<Arg>)
    ensures |DecItems(ws)| <= |ws|
    ensures |DecItems(ws)| == |ws| ==> forall i :: 0 <= i < |ws| ==> DecItems(ws)[i] == Dec(ws[i])
  {
    hide Dec, ListAccepts;
    if ws != [] {
      NoneRefused(ws[..|ws| - 1]);
    }
  }

  /** Refused and merged entries make the dict read back shorter; if it is not, each
      was taken as a new entry, with a key unequal to those before. */
  lemma {:induction false} NoneMerged(ws: seq<Arg>)
    ensures |DecEntries(ws)| <= |ws|
    ensures |DecEntries(ws)| == |ws| ==> forall i :: 0 <= i < |ws| ==>
      ws[i].AEntry? && DecEntries(ws)[i] == Entry(Dec(ws[i].key), Dec(ws[i].value))
    ensures |DecEntries(ws)| == |ws| ==> forall i, j :: 0 <= i < j < |ws| ==>
      !Equal(DecEntries(ws)[i].key, DecEntries(ws)[j].key)
  {
    hide Dec, Equal, DictAccepts;
    if ws != [] {
      var n := |ws| - 1;
      NoneMerged(ws[..n]);
      var es, es' := DecEntries(ws[..n]), DecEntries(ws);
      if |es'| == |ws| {
        EntryAdded(es, ws[n], es');
      } else {
        EntryMerged(es, ws[n]);
      }
    }
  }

  lemma EntryMerged(es: seq<Entry>, a: Arg)
    ensures |es| <= |DecEntry(es, a)| <= |es| + 1
  {
    hide Dec, Equal, DictAccepts;
  }

  lemma EntryAdded(es: seq<Entry>, a: Arg, es': seq<Entry>)
    requires es' == DecEntry(es, a) && |es'| > |es|
    ensures a.AEntry? && es' == es + [Entry(Dec(a.key), Dec(a.value))]
    ensures forall j :: 0 <= j < |es| ==> !Equal(es[j].key, Dec(a.key))
  {
    hide Dec, DictAccepts, Equal;
  }

  // ---- only well-formed values survive

  lemma {:induction false} OnlyWellFormed(v: Value)
    requires Survives(v)
    ensures WellFormed(v)
    decreases v, 1
  {
    match v
    case Scalar(_) =>
    case Array(xs) => OnlyWellFormedArray(xs);
    case Struct(xs) => OnlyWellFormedStruct(xs);
    case Dict(es) => OnlyWellFormedDict(es);
    case Variant(x) => OnlyWellFormedVariant(x);
    case Invalid => assert false;
  }

  /** If all of xs were written and read back, each of them survives. */
  lemma {:induction false} AllWellFormed(xs: seq<Value>, ws: seq<Arg>)
    requires |ws| == |xs| && forall i :: 0 <= i < |xs| ==> Enc(xs[i]) == One(ws[i]) && Dec(ws[i]) == xs[i]
    ensures forall i :: 0 <= i < |xs| ==> WellFormed(xs[i]) && Carries(ws[i], xs[i])
    decreases xs, 0
  {
    hide Enc, Dec, WellFormed, Carries;
    forall i | 0 <= i < |xs|
      ensures WellFormed(xs[i]) && Carries(ws[i], xs[i])
    {
      OnlyWellFormed(xs[i]);
      RoundTrip(xs[i]);
    }
  }

  lemma SigNoBrace(v: Value)
    ensures !HoldsEntries(Sig(v))
  {
  }

  lemma ArrayMade(xs: seq<Value>)
    requires Survives(Array(xs))
    ensures xs != [] && EncAll(xs).Some? && DecItems(EncAll(xs).value) == xs
    ensures |Sig(xs[0])| <= MAX_SIGNATURE
    ensures forall w :: w in EncAll(xs).value ==> SigOf(w) == Sig(xs[0])
  {
    hide EncAll, DecItems, SigOf, IsElement, Sig;
    SigNoBrace(xs[0]);
  }

  lemma {:induction false} OnlyWellFormedArray(xs: seq<Value>)
    requires Survives(Array(xs))
    ensures WellFormed(Array(xs))
    decreases xs, 1
  {
    hide Enc, EncAll, DecItems, Dec, Sig, Sound, SigOf, Print, Survives;
    ArrayMade(xs);
    var ws := EncAll(xs).value;
    NoneDropped(xs);
    NoneRefused(ws);
    AllWellFormed(xs, ws);
    assert xs[0] in xs;
    SigIsPrint(xs[0]);
    forall i | 0 <= i < |xs|
      ensures Shape(xs[i]) == Shape(xs[0])
    {
      assert ws[i] in ws && Carries(ws[i], xs[i]);
      SigIsPrint(xs[i]);
      PrintInjective(Shape(xs[i]), Shape(xs[0]));
    }
  }

  lemma StructMade(xs: seq<Value>)
    requires Survives(Struct(xs))
    ensures EncAll(xs).Some? && EncAll(xs).value != [] && DecAll(EncAll(xs).value) == xs
  {
    hide EncAll, DecAll;
  }

  lemma {:induction false} OnlyWellFormedStruct(xs: seq<Value>)
    requires Survives(Struct(xs))
    ensures WellFormed(Struct(xs))
    decreases xs, 1
  {
    hide Enc, EncAll, Dec, Survives;
    StructMade(xs);
    NoneDropped(xs);
    AllWellFormed(xs, EncAll(xs).value);
  }

  lemma {:induction false} OnlyWellFormedVariant(x: Value)
    requires Survives(Variant(x))
    ensures WellFormed(Variant(x))
    decreases x, 2
  {
    hide Sig, Shape, Print, WellFormed;
    VariantMade(x);
    OnlyWellFormed(x);
    SigIsPrint(x);
    VariantWellFormed(x);
  }

  lemma VariantMade(x: Value)
    requires Survives(Variant(x))
    ensures Survives(x) && |Sig(x)| <= MAX_SIGNATURE
  {
    hide Sig, IsSingle;
  }

  lemma VariantWellFormed(x: Value)
    requires WellFormed(x) && |Print(Shape(x))| <= MAX_SIGNATURE
    ensures WellFormed(Variant(x))
  {
  }

  // ---- dicts

  lemma DictMade(es: seq<Entry>)
    requires Survives(Dict(es))
    ensures es != [] && EncEntries(es).Some? && DecEntries(EncEntries(es).value) == es
    ensures forall w :: w in EncEntries(es).value ==> SigOf(w) == Cut(EntrySig(es[0]))
  {
    hide EncEntries, DecEntries, SigOf, IsElement, Sig, TypeString, TypeOf;
  }

  lemma {:induction false} OnlyWellFormedEntry(e: Entry, a: Arg)
    requires EncEntry(e) == One(a) && a.AEntry? && Dec(a.value) == e.value
    ensures WellFormedEntry(e) && EntryCarried(a, e)
    decreases e, 0
  {
    OnlyWellFormed(e.value);
    EntryRoundTrip(e);
  }

  lemma {:induction false} OnlyWellFormedDict(es: seq<Entry>)
    requires Survives(Dict(es))
    ensures WellFormed(Dict(es))
    decreases es, 1
  {
    hide Enc, EncEntry, EncEntries, Dec, DecEntries, Sig, EntrySig, Sound, SigOf, Print, PrintEntry, Shape, EntryShape,
         Survives, WellFormedEntry, Equal;
    DictMade(es);
    var ws := EncEntries(es).value;
    EntriesWritten(es);
    NoneMerged(ws);
    forall i | 0 <= i < |es|
      ensures WellFormedEntry(es[i]) && EntryCarried(ws[i], es[i])
    {
      OnlyWellFormedEntry(es[i], ws[i]);
    }
    assert ws[0] in ws && EntryCarried(ws[0], es[0]);
    EntrySigIsPrint(es[0]);
    forall i | 0 <= i < |es|
      ensures EntryShape(es[i]) == EntryShape(es[0])
    {
      assert ws[i] in ws && EntryCarried(ws[i], es[i]);
      SameEntryShape(es[i], es[0]);
    }
  }

  lemma SameEntryShape(d: Entry, e: Entry)
    requires WellFormedEntry(d) && WellFormedEntry(e)
    requires EntryShape(d).TDict? && EntryShape(e).TDict?
    requires PrintEntry(EntryShape(d).key, EntryShape(d).value) == PrintEntry(EntryShape(e).key, EntryShape(e).value)
    ensures EntryShape(d) == EntryShape(e)
  {
    hide EntryShape, PrintEntry, WellFormedEntry;
    EntrySigIsPrint(d);
    EntrySigIsPrint(e);
    PrintInjective(EntryShape(d), EntryShape(e));
  }

  /** The exact condition for one value. */
  lemma SurvivesIffWellFormed(v: Value)
    ensures Survives(v) <==> WellFormed(v)
  {
    hide Enc, Dec, WellFormed;
    if WellFormed(v) {
      RoundTrip(v);
    }
    if Survives(v) {
      OnlyWellFormed(v);
    }
  }

  /** An empty array is dropped, two zeros as keys are merged, and two NaN keys are kept. */
  lemma SurvivalShown()
    ensures !Survives(Array([]))
    ensures var v := Scalar(Int32(1));
      && !Survives(Dict([Entry(Scalar(Double(Zero(false))), v), Entry(Scalar(Double(Zero(true))), v)]))
      && Survives(Dict([Entry(Scalar(Double(NaN(0))), v), Entry(Scalar(Double(NaN(0))), v)]))
  {
    hide Survives, Print, PrintEntry;
    var v := Scalar(Int32(1));
    var zeros := [Entry(Scalar(Double(Zero(false))), v), Entry(Scalar(Double(Zero(true))), v)];
    var nans := [Entry(Scalar(Double(NaN(0))), v), Entry(Scalar(Double(NaN(0))), v)];
    SurvivesIffWellFormed(Array([]));
    SurvivesIffWellFormed(Dict(zeros));
    SurvivesIffWellFormed(Dict(nans));
    assert Equal(zeros[0].key, zeros[1].key);
    NaNKeysFit(nans[0]);
  }

  lemma NaNKeysFit(e: Entry)
    requires e == Entry(Scalar(Double(NaN(0))), Scalar(Int32(1)))
    ensures |PrintEntry(EntryShape(e).key, EntryShape(e).value)| <= MAX_SIGNATURE
  {
    assert Print(Shape(Scalar(Int32(1)))) == "i";
  }

  // ---- messages

  /** The body is accepted, and reading it back yields the same values in the same order. */
  ghost predicate MessageSurvives(content: seq<Value>) {
    && EncAll(content).Some? && |SigsOf(EncAll(content).value)| <= MAX_SIGNATURE
    && DecAll(EncAll(content).value) == content
  }

  /** The exact condition for a message: its values are well formed and the signature
      of its body is within the limit. */
  lemma MessageSurvivesIffWellFormed(content: seq<Value>)
    ensures MessageSurvives(content) <==>
      (forall v :: v in content ==> WellFormed(v)) && |PrintAll(Shapes(content))| <= MAX_SIGNATURE
  {
    hide Enc, Dec, WellFormed, Carries, SigsOf, PrintAll;
    if forall v :: v in content ==> WellFormed(v) {
      AllRoundTrip(content);
      SigsCarried(content, EncAll(content).value);
      DecCarried(content, EncAll(content).value);
    }
    if MessageSurvives(content) {
      NoneDropped(content);
      AllWellFormed(content, EncAll(content).value);
    }
  }
}
