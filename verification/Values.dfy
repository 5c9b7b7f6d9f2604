/** The values EdbusData, EdbusDict and EdbusList stand for, and what their
    operations mean when every copy is taken to be a copy of the whole value. */
module Values {

  /** EdbusDataType. */
  datatype Type =
    | InvalidT | ByteT | BoolT | Int16T | UInt16T | Int32T | UInt32T | Int64T | UInt64T
    | DoubleT | StringT | ObjectPathT | ArrayT | StructT | DictT | VariantT

  /** A double, as far as carrying and comparing it goes: every number but zero has one
      representation, zero has two, and any other bits are not a number. */
  datatype Ieee = NaN(bits: int) | Zero(negative: bool) | Number(bits: int)

  /** Numbers are only carried and compared, never computed with. */
  datatype Basic =
    | Byte(int) | Bool(bool) | Int16(int) | UInt16(int) | Int32(int) | UInt32(int)
    | Int64(int) | UInt64(int) | Double(d: Ieee) | String(string) | ObjectPath(string)

  datatype Value =
    | Invalid
    | Scalar(basic: Basic)
    | Array(elems: seq<Value>)
    | Struct(elems: seq<Value>)
    | Dict(entries: seq<Entry>)
    | Variant(value: Value)

  datatype Entry = Entry(key: Value, value: Value)

  function TypeOf(v: Value): Type {
    match v
    case Invalid => InvalidT
    case Scalar(Byte(_)) => ByteT
    case Scalar(Bool(_)) => BoolT
    case Scalar(Int16(_)) => Int16T
    case Scalar(UInt16(_)) => UInt16T
    case Scalar(Int32(_)) => Int32T
    case Scalar(UInt32(_)) => UInt32T
    case Scalar(Int64(_)) => Int64T
    case Scalar(UInt64(_)) => UInt64T
    case Scalar(Double(_)) => DoubleT
    case Scalar(String(_)) => StringT
    case Scalar(ObjectPath(_)) => ObjectPathT
    case Array(_) => ArrayT
    case Struct(_) => StructT
    case Dict(_) => DictT
    case Variant(_) => VariantT
  }

  /** EdbusData::basic_type: everything but the containers, so the invalid value too. */
  predicate IsBasic(v: Value) {
    TypeOf(v) !in {ArrayT, StructT, DictT, VariantT}
  }

  // ---- equality

  /** == on doubles, as IEEE 754 has it: the zeros are equal, and NaN equals nothing. */
  predicate SameDouble(x: Ieee, y: Ieee) {
    match x
    case NaN(_) => false
    case Zero(_) => y.Zero?
    case Number(_) => x == y
  }

  predicate SameBasic(x: Basic, y: Basic) {
    if x.Double? && y.Double? then SameDouble(x.d, y.d) else x == y
  }

  /** EdbusData::operator== of two objects that share nothing. As the code has it, the
      DICT branch compares the left operand's dict with itself, so any two dicts pass as
      equal. */
  predicate Equal(a: Value, b: Value)
    decreases a
  {
    TypeOf(a) == TypeOf(b) &&
    match a
    case Invalid => true
    case Scalar(x) => SameBasic(x, b.basic)
    case Array(xs) => |xs| == |b.elems| && forall i :: 0 <= i < |xs| ==> Equal(xs[i], b.elems[i])
    case Struct(xs) => |xs| == |b.elems| && forall i :: 0 <= i < |xs| ==> Equal(xs[i], b.elems[i])
    case Dict(_) => true
    case Variant(x) => Equal(x, b.value)
  }

  /** No dict, no NaN and no zero double anywhere. */
  predicate Definite(v: Value) {
    match v
    case Invalid => true
    case Scalar(x) => x.Double? ==> x.d.Number?
    case Array(xs) => forall x :: x in xs ==> Definite(x)
    case Struct(xs) => forall x :: x in xs ==> Definite(x)
    case Dict(_) => false
    case Variant(x) => Definite(x)
  }

  /** v with one more entry in every outermost dict and the sign of every zero turned:
      what the code cannot tell from v. */
  function Blur(v: Value): Value {
    match v
    case Invalid => v
    case Scalar(x) => if x.Double? && x.d.Zero? then Scalar(Double(Zero(!x.d.negative))) else v
    case Array(xs) => Array(BlurAll(xs))
    case Struct(xs) => Struct(BlurAll(xs))
    case Dict(es) => Dict(es + [Entry(Invalid, Invalid)])
    case Variant(x) => Variant(Blur(x))
  }

  function BlurAll(xs: seq<Value>): (r: seq<Value>)
    ensures |r| == |xs|
    ensures forall i :: 0 <= i < |xs| ==> r[i] == Blur(xs[i])
  {
    if xs == [] then [] else [Blur(xs[0])] + BlurAll(xs[1..])
  }

  /** A value that equals itself equals its blur, which differs unless v is definite. */
  lemma {:induction false} EqualBlur(v: Value)
    requires Equal(v, v)
    ensures Equal(v, Blur(v))
    ensures Blur(v) == v <==> Definite(v)
  {
    match v
    case Invalid =>
    case Scalar(_) =>
    case Array(xs) => EqualBlurAll(xs);
    case Struct(xs) => EqualBlurAll(xs);
    case Dict(es) => assert |es + [Entry(Invalid, Invalid)]| != |es|;
    case Variant(x) => EqualBlur(x);
  }

  lemma {:induction false} EqualBlurAll(xs: seq<Value>)
    requires forall i :: 0 <= i < |xs| ==> Equal(xs[i], xs[i])
    ensures forall i :: 0 <= i < |xs| ==> Equal(xs[i], BlurAll(xs)[i])
    ensures BlurAll(xs) == xs <==> forall x :: x in xs ==> Definite(x)
  {
    forall i | 0 <= i < |xs|
      ensures Equal(xs[i], BlurAll(xs)[i]) && (Blur(xs[i]) == xs[i] <==> Definite(xs[i]))
    {
      EqualBlur(xs[i]);
    }
    if forall x :: x in xs ==> Definite(x) {
      assert BlurAll(xs) == xs;
    } else {
      var i :| 0 <= i < |xs| && !Definite(xs[i]);
      assert BlurAll(xs)[i] != xs[i];
    }
  }

  lemma {:induction false} EqualOnDefinite(a: Value, b: Value)
    requires Definite(a)
    ensures Equal(a, b) <==> a == b
    decreases a
  {
    match a
    case Invalid =>
    case Scalar(_) =>
    case Array(xs) =>
      if b.Array? && |b.elems| == |xs| {
        DefiniteItems(xs, b.elems);
      }
    case Struct(xs) =>
      if b.Struct? && |b.elems| == |xs| {
        DefiniteItems(xs, b.elems);
      }
    case Dict(_) => assert false;
    case Variant(x) =>
      if b.Variant? {
        EqualOnDefinite(x, b.value);
      }
  }

  lemma {:induction false} DefiniteItems(xs: seq<Value>, ys: seq<Value>)
    requires |xs| == |ys| && forall x :: x in xs ==> Definite(x)
    ensures (forall i :: 0 <= i < |xs| ==> Equal(xs[i], ys[i])) <==> xs == ys
    decreases xs
  {
    forall i | 0 <= i < |xs|
      ensures Equal(xs[i], ys[i]) <==> xs[i] == ys[i]
    {
      EqualOnDefinite(xs[i], ys[i]);
    }
  }

  /** The code's equality is true equality for exactly the values that hold no dict, no
      NaN and no zero double. */
  lemma EqualIsEqualityIffDefinite(a: Value)
    ensures (forall b :: Equal(a, b) <==> a == b) <==> Definite(a)
  {
    hide Definite;
    if Definite(a) {
      forall b
        ensures Equal(a, b) <==> a == b
      {
        EqualOnDefinite(a, b);
      }
    } else if Equal(a, a) {
      EqualBlur(a);
      assert Equal(a, Blur(a)) && Blur(a) != a;
    } else {
      assert Equal(a, a) != (a == a);
    }
  }

  lemma DictsPassAsEqual()
    ensures var d := Dict([Entry(Scalar(String("k")), Scalar(Int32(1)))]);
      Equal(d, Dict([])) && d != Dict([])
  {
  }

  // ---- equality of basic values

  predicate IsNaN(v: Value) {
    v.Scalar? && v.basic.Double? && v.basic.d.NaN?
  }

  /** One value for both zeros. */
  function Canon(v: Value): Value {
    if v.Scalar? && v.basic.Double? && v.basic.d.Zero? then Scalar(Double(Zero(false))) else v
  }

  lemma EqualOnBasic(a: Value, b: Value)
    requires IsBasic(a)
    ensures Equal(a, b) <==> !IsNaN(a) && Canon(a) == Canon(b)
    ensures Equal(a, b) == Equal(b, a)
  {
  }

  // ---- equality of objects that may share blocks

  /** What operator== may answer if parts of a and b may be one object: such a part passes
      as equal to itself (`&other == this`), even if it holds a NaN. */
  predicate Loose(a: Value, b: Value)
    decreases a
  {
    TypeOf(a) == TypeOf(b) &&
    match a
    case Invalid => true
    case Scalar(x) => SameBasic(x, b.basic)
    case Array(xs) => |xs| == |b.elems| && forall i :: 0 <= i < |xs| ==> xs[i] == b.elems[i] || Loose(xs[i], b.elems[i])
    case Struct(xs) => |xs| == |b.elems| && forall i :: 0 <= i < |xs| ==> xs[i] == b.elems[i] || Loose(xs[i], b.elems[i])
    case Dict(_) => true
    case Variant(x) => x == b.value || Loose(x, b.value)
  }

  /** No NaN in v or in the arrays, structs and variants that it is made of; the
      comparison of a dict does not look into it. */
  predicate NoNaN(v: Value) {
    match v
    case Invalid => true
    case Scalar(_) => !IsNaN(v)
    case Array(xs) => forall x :: x in xs ==> NoNaN(x)
    case Struct(xs) => forall x :: x in xs ==> NoNaN(x)
    case Dict(_) => true
    case Variant(x) => NoNaN(x)
  }

  /** A container with such a NaN is the only thing that is not firm. */
  predicate Firm(v: Value) {
    IsBasic(v) || NoNaN(v)
  }

  lemma {:induction false} EqualSelf(v: Value)
    ensures Equal(v, v) <==> NoNaN(v)
  {
    match v
    case Invalid =>
    case Scalar(_) =>
    case Array(xs) => EqualSelves(xs);
    case Struct(xs) => EqualSelves(xs);
    case Dict(_) =>
    case Variant(x) => EqualSelf(x);
  }

  lemma {:induction false} EqualSelves(xs: seq<Value>)
    ensures (forall i :: 0 <= i < |xs| ==> Equal(xs[i], xs[i])) <==> forall x :: x in xs ==> NoNaN(x)
  {
    hide Equal, NoNaN;
    forall i | 0 <= i < |xs|
      ensures Equal(xs[i], xs[i]) <==> NoNaN(xs[i])
    {
      EqualSelf(xs[i]);
    }
    if x :| x in xs && !NoNaN(x) {
      var i :| 0 <= i < |xs| && xs[i] == x;
      assert !Equal(xs[i], xs[i]);
    }
  }

  lemma LooseOnBasic(a: Value, b: Value)
    requires IsBasic(a)
    ensures Loose(a, b) == Equal(a, b)
  {
  }

  lemma {:induction false} EqualIsLoose(a: Value, b: Value)
    requires Equal(a, b)
    ensures Loose(a, b)
  {
    match a
    case Invalid =>
    case Scalar(_) =>
    case Array(xs) => forall i | 0 <= i < |xs| ensures Loose(xs[i], b.elems[i]) { EqualIsLoose(xs[i], b.elems[i]); }
    case Struct(xs) => forall i | 0 <= i < |xs| ensures Loose(xs[i], b.elems[i]) { EqualIsLoose(xs[i], b.elems[i]); }
    case Dict(_) =>
    case Variant(x) => EqualIsLoose(x, b.value);
  }

  /** Compared with a firm value, sharing or not gives the same answer. */
  lemma {:induction false} LooseOnFirm(a: Value, b: Value)
    requires Firm(b) && Loose(a, b)
    ensures Equal(a, b)
    decreases a
  {
    match a
    case Invalid =>
    case Scalar(_) =>
    case Array(xs) => LooseItems(xs, b.elems);
    case Struct(xs) => LooseItems(xs, b.elems);
    case Dict(_) =>
    case Variant(x) =>
      if x == b.value {
        EqualSelf(x);
      } else {
        LooseOnFirm(x, b.value);
      }
  }

  lemma {:induction false} LooseItems(xs: seq<Value>, ys: seq<Value>)
    requires |xs| == |ys|
    requires forall i :: 0 <= i < |xs| ==> NoNaN(ys[i]) && (xs[i] == ys[i] || Loose(xs[i], ys[i]))
    ensures forall i :: 0 <= i < |xs| ==> Equal(xs[i], ys[i])
    decreases xs
  {
    forall i | 0 <= i < |xs|
      ensures Equal(xs[i], ys[i])
    {
      if xs[i] == ys[i] {
        EqualSelf(ys[i]);
      } else {
        LooseOnFirm(xs[i], ys[i]);
      }
    }
  }

  lemma LooseSelf(v: Value)
    requires !IsBasic(v)
    ensures Loose(v, v)
  {
  }

  /** Firm values are exactly those against which sharing cannot change an answer. */
  lemma LooseIsEqualIffFirm(b: Value)
    ensures (forall a :: Loose(a, b) <==> Equal(a, b)) <==> Firm(b)
  {
    hide Loose, Equal, NoNaN, IsBasic;
    forall a
      ensures Equal(a, b) ==> Loose(a, b)
      ensures Firm(b) && Loose(a, b) ==> Equal(a, b)
    {
      if Equal(a, b) {
        EqualIsLoose(a, b);
      }
      if Firm(b) && Loose(a, b) {
        LooseOnFirm(a, b);
      }
    }
    EqualSelf(b);
    if !Firm(b) {
      LooseSelf(b);
      assert Loose(b, b) && !Equal(b, b);
    }
  }

  /** v with one zero, and with nothing in its dicts: all that a comparison looks at. */
  function Seen(v: Value): Value {
    match v
    case Invalid => v
    case Scalar(_) => Canon(v)
    case Array(xs) => Array(SeenAll(xs))
    case Struct(xs) => Struct(SeenAll(xs))
    case Dict(_) => Dict([])
    case Variant(x) => Variant(Seen(x))
  }

  function SeenAll(xs: seq<Value>): (r: seq<Value>)
    ensures |r| == |xs|
    ensures forall i :: 0 <= i < |xs| ==> r[i] == Seen(xs[i])
  {
    if xs == [] then [] else [Seen(xs[0])] + SeenAll(xs[1..])
  }

  /** What the two comparisons answer, for all values: they look at the same, and differ in
      whether a NaN equals itself. */
  lemma {:induction false} ComparedAsSeen(a: Value, b: Value)
    ensures Equal(a, b) <==> NoNaN(a) && Seen(a) == Seen(b)
    ensures Loose(a, b) <==> !IsNaN(a) && Seen(a) == Seen(b)
    decreases a, 1
  {
    hide Equal, Loose, NoNaN, Seen;
    match a
    case Array(xs) => ArrayAsSeen(xs, b);
    case Struct(xs) => StructAsSeen(xs, b);
    case Variant(x) => VariantAsSeen(x, b);
    case _ => OutsideAsSeen(a, b);
  }

  lemma OutsideAsSeen(a: Value, b: Value)
    requires a.Invalid? || a.Scalar? || a.Dict?
    ensures Equal(a, b) <==> NoNaN(a) && Seen(a) == Seen(b)
    ensures Loose(a, b) <==> !IsNaN(a) && Seen(a) == Seen(b)
  {
  }

  lemma {:induction false} ArrayAsSeen(xs: seq<Value>, b: Value)
    ensures Equal(Array(xs), b) <==> NoNaN(Array(xs)) && Seen(Array(xs)) == Seen(b)
    ensures Loose(Array(xs), b) <==> Seen(Array(xs)) == Seen(b)
    decreases xs, 1
  {
    hide Equal, Loose, NoNaN;
    ArrayCompared(xs, b);
    if b.Array? && |b.elems| == |xs| {
      ItemsAsSeen(xs, b.elems);
    }
  }

  lemma ArrayCompared(xs: seq<Value>, b: Value)
    ensures var like := b.Array? && |b.elems| == |xs|;
      && (Equal(Array(xs), b) <==> like && forall i :: 0 <= i < |xs| ==> Equal(xs[i], b.elems[i]))
      && (Loose(Array(xs), b) <==> like && forall i :: 0 <= i < |xs| ==> xs[i] == b.elems[i] || Loose(xs[i], b.elems[i]))
    ensures NoNaN(Array(xs)) <==> forall x :: x in xs ==> NoNaN(x)
  {
  }

  lemma {:induction false} StructAsSeen(xs: seq<Value>, b: Value)
    ensures Equal(Struct(xs), b) <==> NoNaN(Struct(xs)) && Seen(Struct(xs)) == Seen(b)
    ensures Loose(Struct(xs), b) <==> Seen(Struct(xs)) == Seen(b)
    decreases xs, 1
  {
    hide Equal, Loose, NoNaN;
    StructCompared(xs, b);
    if b.Struct? && |b.elems| == |xs| {
      ItemsAsSeen(xs, b.elems);
    }
  }

  lemma StructCompared(xs: seq<Value>, b: Value)
    ensures var like := b.Struct? && |b.elems| == |xs|;
      && (Equal(Struct(xs), b) <==> like && forall i :: 0 <= i < |xs| ==> Equal(xs[i], b.elems[i]))
      && (Loose(Struct(xs), b) <==> like && forall i :: 0 <= i < |xs| ==> xs[i] == b.elems[i] || Loose(xs[i], b.elems[i]))
    ensures NoNaN(Struct(xs)) <==> forall x :: x in xs ==> NoNaN(x)
  {
  }

  lemma {:induction false} VariantAsSeen(x: Value, b: Value)
    ensures Equal(Variant(x), b) <==> NoNaN(Variant(x)) && Seen(Variant(x)) == Seen(b)
    ensures Loose(Variant(x), b) <==> Seen(Variant(x)) == Seen(b)
    decreases x, 3
  {
    if b.Variant? {
      PartAsSeen(x, b.value);
    }
  }

  /** Inside a container, being one object makes even two NaNs pass as equal. */
  lemma {:induction false} PartAsSeen(x: Value, y: Value)
    ensures Equal(x, y) <==> NoNaN(x) && Seen(x) == Seen(y)
    ensures x == y || Loose(x, y) <==> Seen(x) == Seen(y)
    decreases x, 2
  {
    hide Equal, Loose, NoNaN;
    ComparedAsSeen(x, y);
  }

  lemma {:induction false} ItemsAsSeen(xs: seq<Value>, ys: seq<Value>)
    requires |xs| == |ys|
    ensures (forall i :: 0 <= i < |xs| ==> Equal(xs[i], ys[i])) <==>
      (forall x :: x in xs ==> NoNaN(x)) && SeenAll(xs) == SeenAll(ys)
    ensures (forall i :: 0 <= i < |xs| ==> xs[i] == ys[i] || Loose(xs[i], ys[i])) <==> SeenAll(xs) == SeenAll(ys)
    decreases xs, 0
  {
    hide Equal, Loose, NoNaN, Seen;
    forall i | 0 <= i < |xs|
      ensures Equal(xs[i], ys[i]) <==> NoNaN(xs[i]) && Seen(xs[i]) == Seen(ys[i])
      ensures xs[i] == ys[i] || Loose(xs[i], ys[i]) <==> Seen(xs[i]) == Seen(ys[i])
    {
      PartAsSeen(xs[i], ys[i]);
    }
    assert SeenAll(xs) == SeenAll(ys) <==> forall i :: 0 <= i < |xs| ==> SeenAll(xs)[i] == SeenAll(ys)[i];
    assert forall i :: 0 <= i < |xs| ==> xs[i] in xs;
  }

  /** An array with a NaN is not firm; a dict with one is. */
  lemma SharingShown()
    ensures var a := Array([Scalar(Double(NaN(0)))]);
      !Firm(a) && Loose(a, a) && !Equal(a, a)
    ensures var d := Dict([Entry(Scalar(String("k")), Scalar(Double(NaN(0))))]);
      Firm(Array([d])) && Equal(Array([d]), Array([d]))
  {
    var nan := Scalar(Double(NaN(0)));
    assert nan in [nan] && [nan][0] == nan && !Equal(nan, nan);
    var a := Array([nan]);
    assert !Equal(a.elems[0], a.elems[0]);
    EqualSelf(a);
  }

  // ---- EdbusDict

  /** The position of the first entry with key k, or |es|. */
  function KeyAt(es: seq<Entry>, k: Value): (i: nat)
    ensures i <= |es|
    ensures forall j :: 0 <= j < i ==> !Equal(es[j].key, k)
    ensures i < |es| ==> Equal(es[i].key, k)
  {
    if es == [] || Equal(es[0].key, k) then 0 else 1 + KeyAt(es[1..], k)
  }

  predicate DictAccepts(es: seq<Entry>, k: Value, v: Value) {
    && IsBasic(k)
    && (es != [] ==> TypeOf(k) == TypeOf(es[0].key) && TypeOf(v) == TypeOf(es[0].value))
  }

  /** EdbusDict::append */
  function DictAppend(es: seq<Entry>, k: Value, v: Value): seq<Entry> {
    if !DictAccepts(es, k, v) then es
    else if KeyAt(es, k) < |es| then es[KeyAt(es, k) := Entry(es[KeyAt(es, k)].key, v)]
    else es + [Entry(k, v)]
  }

  /** EdbusDict::remove */
  function DictRemove(es: seq<Entry>, k: Value): seq<Entry> {
    if KeyAt(es, k) < |es| then es[..KeyAt(es, k)] + es[KeyAt(es, k) + 1..] else es
  }

  /** EdbusDict::find */
  function DictFind(es: seq<Entry>, k: Value): Value {
    if KeyAt(es, k) < |es| then es[KeyAt(es, k)].value else Invalid
  }

  // ---- EdbusList

  function ItemAt(xs: seq<Value>, v: Value): (i: nat)
    ensures i <= |xs|
    ensures forall j :: 0 <= j < i ==> !Equal(xs[j], v)
    ensures i < |xs| ==> Equal(xs[i], v)
  {
    if xs == [] || Equal(xs[0], v) then 0 else 1 + ItemAt(xs[1..], v)
  }

  predicate ListAccepts(isArray: bool, xs: seq<Value>, v: Value) {
    isArray && xs != [] ==> TypeOf(v) == TypeOf(xs[0])
  }

  /** EdbusList::append */
  function ListAppend(isArray: bool, xs: seq<Value>, v: Value): seq<Value> {
    if ListAccepts(isArray, xs, v) then xs + [v] else xs
  }

  /** xs without the element at i, if there is one. */
  function CutAt(xs: seq<Value>, i: nat): seq<Value> {
    if i < |xs| then xs[..i] + xs[i + 1..] else xs
  }

  /** r is xs with the element at i gone and those behind it one place further on the left. */
  ghost predicate Shifted(xs: seq<Value>, i: nat, r: seq<Value>)
    requires i < |xs|
  {
    && |r| == |xs| - 1
    && (forall j :: 0 <= j < i ==> r[j] == xs[j])
    && (forall j :: i <= j < |r| ==> r[j] == xs[j + 1])
  }

  lemma CutShifts(xs: seq<Value>, i: nat)
    ensures if i < |xs| then Shifted(xs, i, CutAt(xs, i)) else CutAt(xs, i) == xs
  {
  }

  /** EdbusList::remove */
  function ListRemove(xs: seq<Value>, v: Value): seq<Value> {
    CutAt(xs, ItemAt(xs, v))
  }

  /** The first of the elements equal to v goes, or, if none is, nothing. */
  lemma RemoveShifts(xs: seq<Value>, v: Value)
    ensures forall i: nat :: i < |xs| && Equal(xs[i], v) && (forall j :: 0 <= j < i ==> !Equal(xs[j], v)) ==>
      Shifted(xs, i, ListRemove(xs, v))
    ensures (forall x :: x in xs ==> !Equal(x, v)) ==> ListRemove(xs, v) == xs
  {
    hide Equal, Shifted, CutAt;
    CutShifts(xs, ItemAt(xs, v));
  }

  /** Where remove may find v if parts of v may be shared with elements of xs. */
  predicate MayFind(xs: seq<Value>, v: Value, i: nat) {
    && i <= |xs|
    && (forall j :: 0 <= j < i ==> !Equal(xs[j], v))
    && (i < |xs| ==> Loose(xs[i], v))
  }

  lemma MayFindFirm(xs: seq<Value>, v: Value, i: nat)
    requires MayFind(xs, v, i) && Firm(v)
    ensures i == ItemAt(xs, v)
  {
    hide Equal, Loose;
    if i < |xs| {
      LooseOnFirm(xs[i], v);
    }
  }

  lemma ItemAtMayFind(xs: seq<Value>, v: Value)
    ensures MayFind(xs, v, ItemAt(xs, v))
  {
    hide Equal, Loose;
    if ItemAt(xs, v) < |xs| {
      EqualIsLoose(xs[ItemAt(xs, v)], v);
    }
  }

  /** EdbusList::remove_all */
  function ListRemoveAll(xs: seq<Value>, v: Value): (r: seq<Value>)
    ensures forall x :: x in r <==> x in xs && !Equal(x, v)
  {
    if xs == [] then []
    else if Equal(xs[0], v) then ListRemoveAll(xs[1..], v)
    else [xs[0]] + ListRemoveAll(xs[1..], v)
  }

  lemma {:induction false} RemoveAllSnoc(xs: seq<Value>, x: Value, v: Value)
    ensures ListRemoveAll(xs + [x], v) == ListRemoveAll(xs, v) + if Equal(x, v) then [] else [x]
  {
    hide Equal;
    if xs != [] {
      assert (xs + [x])[1..] == xs[1..] + [x];
      RemoveAllSnoc(xs[1..], x, v);
    } else {
      assert (xs + [x])[1..] == [];
    }
  }

  lemma NothingKept(v: Value)
    ensures ListRemoveAll([], v) == []
  {
  }

  /** How many elements are not equal to v. */
  function Unlike(xs: seq<Value>, v: Value): nat {
    if xs == [] then 0 else Unlike(xs[..|xs| - 1], v) + if Equal(xs[|xs| - 1], v) then 0 else 1
  }

  /** Every element that is not equal to v is still there, behind as many as were before it. */
  lemma {:induction false} RemoveAllKeeps(xs: seq<Value>, v: Value)
    ensures |ListRemoveAll(xs, v)| == Unlike(xs, v)
    ensures forall i :: 0 <= i < |xs| && !Equal(xs[i], v) ==>
      Unlike(xs[..i], v) < |ListRemoveAll(xs, v)| && ListRemoveAll(xs, v)[Unlike(xs[..i], v)] == xs[i]
  {
    hide Equal, ListRemoveAll;
    if xs == [] {
      NothingKept(v);
    } else {
      var n := |xs| - 1;
      assert xs == xs[..n] + [xs[n]];
      RemoveAllSnoc(xs[..n], xs[n], v);
      RemoveAllKeeps(xs[..n], v);
      forall i | 0 <= i < n && !Equal(xs[i], v)
        ensures Unlike(xs[..i], v) < |ListRemoveAll(xs, v)| && ListRemoveAll(xs, v)[Unlike(xs[..i], v)] == xs[i]
      {
        assert xs[..n][..i] == xs[..i] && xs[..n][i] == xs[i];
      }
    }
  }

  /** What remove_all may leave of xs if parts of v may be shared with elements of xs. */
  predicate MayLeave(xs: seq<Value>, v: Value, r: seq<Value>)
    decreases |xs|
  {
    if xs == [] then r == []
    else
      var n, m := |xs| - 1, |r| - 1;
      || (Loose(xs[n], v) && MayLeave(xs[..n], v, r))
      || (r != [] && r[m] == xs[n] && !Equal(xs[n], v) && MayLeave(xs[..n], v, r[..m]))
  }

  function Picked(xs: seq<Value>, keep: seq<bool>): seq<Value>
    requires |keep| == |xs|
  {
    var n := |xs| - 1;
    if xs == [] then [] else Picked(xs[..n], keep[..n]) + if keep[n] then [xs[n]] else []
  }

  /** What is kept where sharing decides: all that cannot pass as equal, and nothing that
      must. */
  ghost predicate Allowed(xs: seq<Value>, v: Value, keep: seq<bool>)
    requires |keep| == |xs|
  {
    forall i :: 0 <= i < |xs| ==> if keep[i] then !Equal(xs[i], v) else Loose(xs[i], v)
  }

  /** So remove_all takes its elements away one by one, each for what it is. */
  lemma MayLeaveIff(xs: seq<Value>, v: Value, r: seq<Value>)
    ensures MayLeave(xs, v, r) <==> exists keep :: |keep| == |xs| && Allowed(xs, v, keep) && r == Picked(xs, keep)
  {
    hide MayLeave, Allowed, Picked;
    if MayLeave(xs, v, r) {
      var keep := KeptOf(xs, v, r);
    }
    if keep :| |keep| == |xs| && Allowed(xs, v, keep) && r == Picked(xs, keep) {
      PickedMayBeLeft(xs, v, keep);
    }
  }

  lemma {:induction false} KeptOf(xs: seq<Value>, v: Value, r: seq<Value>) returns (keep: seq<bool>)
    requires MayLeave(xs, v, r)
    ensures |keep| == |xs| && Allowed(xs, v, keep) && r == Picked(xs, keep)
  {
    hide Equal, Loose, Allowed, Picked;
    if xs == [] {
      keep := [];
      NothingPicked(v);
    } else {
      var n, m := |xs| - 1, |r| - 1;
      if Loose(xs[n], v) && MayLeave(xs[..n], v, r) {
        keep := KeptOf(xs[..n], v, r);
        OneMoreAllowed(xs, v, keep, false);
        keep := keep + [false];
      } else {
        keep := KeptOf(xs[..n], v, r[..m]);
        OneMoreAllowed(xs, v, keep, true);
        keep := keep + [true];
      }
    }
  }

  lemma NothingPicked(v: Value)
    ensures Picked([], []) == [] && Allowed([], v, [])
  {
  }

  lemma {:induction false} PickedMayBeLeft(xs: seq<Value>, v: Value, keep: seq<bool>)
    requires |keep| == |xs| && Allowed(xs, v, keep)
    ensures MayLeave(xs, v, Picked(xs, keep))
  {
    hide Equal, Loose, Allowed;
    if xs != [] {
      var n := |xs| - 1;
      FrontAllowed(xs, v, keep);
      PickedMayBeLeft(xs[..n], v, keep[..n]);
      var r := Picked(xs, keep);
      if keep[n] {
        assert r[..|r| - 1] == Picked(xs[..n], keep[..n]);
      } else {
        assert r == Picked(xs[..n], keep[..n]);
      }
    }
  }

  lemma OneMoreAllowed(xs: seq<Value>, v: Value, keep: seq<bool>, last: bool)
    requires xs != [] && |keep| == |xs| - 1 && Allowed(xs[..|xs| - 1], v, keep)
    requires if last then !Equal(xs[|xs| - 1], v) else Loose(xs[|xs| - 1], v)
    ensures Allowed(xs, v, keep + [last])
    ensures Picked(xs, keep + [last]) == Picked(xs[..|xs| - 1], keep) + if last then [xs[|xs| - 1]] else []
  {
    hide Equal, Loose;
    assert (keep + [last])[..|xs| - 1] == keep;
  }

  lemma FrontAllowed(xs: seq<Value>, v: Value, keep: seq<bool>)
    requires xs != [] && |keep| == |xs| && Allowed(xs, v, keep)
    ensures Allowed(xs[..|xs| - 1], v, keep[..|xs| - 1])
    ensures if keep[|xs| - 1] then !Equal(xs[|xs| - 1], v) else Loose(xs[|xs| - 1], v)
  {
    hide Equal, Loose;
  }

  lemma NothingLeft(v: Value)
    ensures MayLeave([], v, [])
  {
  }

  lemma {:induction false} MayLeaveFirm(xs: seq<Value>, v: Value, r: seq<Value>)
    requires MayLeave(xs, v, r) && Firm(v)
    ensures r == ListRemoveAll(xs, v)
  {
    hide Equal, Loose, ListRemoveAll;
    if xs == [] {
      NothingKept(v);
    } else {
      var n := |xs| - 1;
      assert xs == xs[..n] + [xs[n]];
      RemoveAllSnoc(xs[..n], xs[n], v);
      if Loose(xs[n], v) {
        LooseOnFirm(xs[n], v);
        MayLeaveFirm(xs[..n], v, r);
      } else {
        MayLeaveFirm(xs[..n], v, r[..|r| - 1]);
      }
    }
  }

  lemma {:induction false} RemoveAllMayLeave(xs: seq<Value>, v: Value)
    ensures MayLeave(xs, v, ListRemoveAll(xs, v))
  {
    hide Equal, Loose, ListRemoveAll;
    if xs == [] {
      NothingKept(v);
    } else {
      var n := |xs| - 1;
      assert xs == xs[..n] + [xs[n]];
      RemoveAllSnoc(xs[..n], xs[n], v);
      RemoveAllMayLeave(xs[..n], v);
      if Equal(xs[n], v) {
        EqualIsLoose(xs[n], v);
        assert ListRemoveAll(xs, v) == ListRemoveAll(xs[..n], v);
      } else {
        var r := ListRemoveAll(xs, v);
        assert r[..|r| - 1] == ListRemoveAll(xs[..n], v);
      }
    }
  }

  /** One turn of remove_all's loop: kept is done, xs[j..] is still to be looked at, and
      the comparison answered e. */
  lemma RemoveAllTurn(xs: seq<Value>, j: nat, v: Value, kept: seq<Value>, ys: seq<Value>, e: bool)
    requires j < |xs| && MayLeave(xs[..j], v, kept) && ys == kept + xs[j..]
    requires (Equal(xs[j], v) ==> e) && (e ==> Loose(xs[j], v))
    ensures ys[|kept|] == xs[j]
    ensures e ==> MayLeave(xs[..j + 1], v, kept) && ys[..|kept|] + ys[|kept| + 1..] == kept + xs[j + 1..]
    ensures !e ==> MayLeave(xs[..j + 1], v, kept + [xs[j]]) && ys == kept + [xs[j]] + xs[j + 1..]
  {
    hide Equal, Loose;
    assert xs[..j + 1][..j] == xs[..j];
    assert (kept + [xs[j]])[..|kept|] == kept;
  }
}
