/** The marshaller and the signature builder of EdbusMessage. */
module Marshal {
  import opened Wrappers
  import opened Values
  import opened Signature
  import opened Wire

  /** from_edbusdata_type_to_dbus_type_string; the invalid type has no string. */
  function TypeString(t: Type): string {
    match t
    case InvalidT => ""
    case ByteT => "y"
    case BoolT => "b"
    case Int16T => "n"
    case UInt16T => "q"
    case Int32T => "i"
    case UInt32T => "u"
    case Int64T => "x"
    case UInt64T => "t"
    case DoubleT => "d"
    case StringT => "s"
    case ObjectPathT => "o"
    case ArrayT => "a"
    case StructT => "r"
    case DictT => "e"
    case VariantT => "v"
  }

  // ---- the signature of a value

  /** What build_signature appends: containers are described by their first element,
      structs by all, and empty containers by nothing. */
  function Sig(v: Value): string
    decreases v, 0
  {
    match v
    case Dict(es) => if es == [] then "" else "a" + EntrySig(es[0])
    case Array(xs) => if xs == [] then "" else "a" + Sig(xs[0])
    case Struct(xs) => if xs == [] then "" else "(" + SigAll(xs) + ")"
    case _ => TypeString(TypeOf(v))
  }

  function EntrySig(e: Entry): string
    decreases e, 0
  {
    "{" + TypeString(TypeOf(e.key)) + Sig(e.value) + "}"
  }

  function SigAll(xs: seq<Value>): string
    decreases xs, 0
  {
    if xs == [] then "" else SigAll(xs[..|xs| - 1]) + Sig(xs[|xs| - 1])
  }

  /** build_signature */
  method BuildSignature(v: Value, sig0: string) returns (sig: string)
    ensures sig == sig0 + Sig(v)
    decreases v, 0
  {
    hide TypeOf, TypeString;
    sig := sig0;
    match v {
      case Dict(es) =>
        if |es| < 1 {
          return;
        }
        sig := sig + "a" + "{";
        var e := es[0];
        sig := sig + TypeString(TypeOf(e.key));
        sig := ItemSignature(e.value, sig);
        sig := sig + "}";
        assert sig == sig0 + ("a" + EntrySig(e));
      case Array(xs) =>
        if |xs| < 1 {
          return;
        }
        sig := sig + "a";
        sig := ItemSignature(xs[0], sig);
        assert sig == sig0 + ("a" + Sig(xs[0]));
      case Struct(xs) =>
        if |xs| < 1 {
          return;
        }
        sig := sig + "(";
        assert sig == sig0 + "(" + SigAll(xs[..0]);
        for i := 0 to |xs|
          invariant sig == sig0 + "(" + SigAll(xs[..i])
        {
          assert xs[..i + 1][..i] == xs[..i] && xs[..i + 1][i] == xs[i];
          assert SigAll(xs[..i + 1]) == SigAll(xs[..i]) + Sig(xs[i]);
          sig := ItemSignature(xs[i], sig);
          assert sig == sig0 + "(" + SigAll(xs[..i + 1]);
        }
        assert xs[..|xs|] == xs;
        sig := sig + ")";
        assert sig == sig0 + ("(" + SigAll(xs) + ")");
      case _ =>
        sig := sig + TypeString(TypeOf(v));
    }
  }

  /** The type string of a basic element, or the signature built for it. */
  method ItemSignature(v: Value, sig0: string) returns (sig: string)
    ensures sig == sig0 + Sig(v)
    decreases v, 1
  {
    if IsBasic(v) {
      sig := sig0 + TypeString(TypeOf(v));
    } else {
      sig := BuildSignature(v, sig0);
    }
  }

  // ---- what marshalling makes of a value

  /** The call breaks the message, writes nothing, or writes one argument. */
  datatype Out = Broken | Nothing | One(a: Arg)

  function Wires(o: Out): Option<seq<Arg>> {
    match o
    case Broken => None
    case Nothing => Some([])
    case One(a) => Some([a])
  }

  /** A container opened with sig, filled and closed. */
  function Make(kind: Kind, sig: string, outs: Option<seq<Arg>>): Out {
    if MayOpen(kind, sig) && outs.Some? && (forall a :: a in outs.value ==> Accepts(Frame(kind, sig, []), a))
       && Closed(Frame(kind, sig, outs.value)).Some?
    then One(Closed(Frame(kind, sig, outs.value)).value)
    else Broken
  }

  /** snprintf into sig[256] keeps at most 255 characters. */
  function Cut(s: string): string {
    if |s| <= MAX_SIGNATURE then s else s[..MAX_SIGNATURE]
  }

  function Enc(v: Value): Out
    decreases v, 0
  {
    match v
    case Invalid => Broken
    case Scalar(_) => EncBasic(v)
    case Dict(es) => if es == [] then Nothing else Make(OpenArray, Cut(EntrySig(es[0])), EncEntries(es))
    case Array(xs) => if xs == [] then Nothing else Make(OpenArray, Sig(xs[0]), EncAll(xs))
    case Struct(xs) => Make(OpenStruct, "", EncAll(xs))
    case Variant(x) => if x == Invalid then Nothing else Make(OpenVariant, Sig(x), Wires(Enc(x)))
  }

  /** There is no branch for object paths. */
  function EncBasic(v: Value): Out {
    if v.Scalar? && !v.basic.ObjectPath? then One(ABasic(v.basic)) else Broken
  }

  function EncAll(xs: seq<Value>): Option<seq<Arg>>
    decreases xs, 0
  {
    if xs == [] then Some([]) else Join(EncAll(xs[..|xs| - 1]), Wires(Enc(xs[|xs| - 1])))
  }

  function EncEntry(e: Entry): Out
    decreases e, 0
  {
    var k, x := EncBasic(e.key), Enc(e.value);
    if k.One? && x.One? && !x.a.AEntry? then One(AEntry(k.a, x.a)) else Broken
  }

  function EncEntries(es: seq<Entry>): Option<seq<Arg>>
    decreases es, 0
  {
    if es == [] then Some([]) else Join(EncEntries(es[..|es| - 1]), Wires(EncEntry(es[|es| - 1])))
  }

  // ---- the marshaller

  lemma OpenCloseAppends(s: State, kind: Kind, sig: string, outs: Option<seq<Arg>>, m: State)
    requires s.frames != [] && kind in {OpenArray, OpenStruct, OpenVariant}
    requires Appended(Open(s, kind, sig), outs, m)
    ensures Appended(s, Wires(Make(kind, sig, outs)), Close(m))
  {
    hide SigOf, IsElement, IsSingle, Accepts;
    var f := Frame(kind, sig, []);
    assert Top(Open(s, kind, sig)) == f;
    assert m.frames[..|s.frames|] == s.frames;
    var rest := m.(frames := s.frames);
    if m.ok {
      assert Top(m) == Frame(kind, sig, outs.value);
      if Closed(Top(m)).Some? {
        PutAppended(rest, Closed(Top(m)).value);
        assert Close(m) == Put(rest, Closed(Top(m)).value);
        assert rest == s;
      }
    }
  }

  /** to_dbus_iter_from_basic_type */
  method FromBasic(w: Writer, v: Value)
    requires w.state.frames != [] && IsBasic(v)
    modifies w
    ensures Appended(old(w.state), Wires(EncBasic(v)), w.state)
    ensures EncBasic(v).One? ==> w.state == Put(old(w.state), EncBasic(v).a)
  {
    if v.Scalar? && !v.basic.ObjectPath? {
      PutAppended(w.state, ABasic(v.basic));
      w.AppendBasic(v.basic);
    } else {
      w.Abort();
    }
  }

  /** to_dbus_iter_from_edbusdata_type */
  method FromData(w: Writer, v: Value)
    requires w.state.frames != []
    modifies w
    ensures Appended(old(w.state), Wires(Enc(v)), w.state)
    decreases v, 1
  {
    hide TypeOf, Make, Put, Accepts;
    BasicShape(v);
    if IsBasic(v) {
      FromBasic(w, v);
    } else {
      match v
      case Dict(es) => FromDict(w, es);
      case Array(xs) => FromArray(w, xs);
      case Struct(xs) => FromStruct(w, xs);
      case Variant(x) => FromVariant(w, x);
    }
  }

  lemma BasicShape(v: Value)
    ensures IsBasic(v) <==> v.Invalid? || v.Scalar?
    ensures IsBasic(v) ==> Enc(v) == EncBasic(v)
  {
  }

  lemma NothingAppended(s: State)
    requires s.frames != []
    ensures Appended(s, Some([]), s)
  {
  }

  /** to_dbus_iter_from_array */
  method FromArray(w: Writer, xs: seq<Value>)
    requires w.state.frames != []
    modifies w
    ensures Appended(old(w.state), Wires(Enc(Array(xs))), w.state)
    decreases xs, 2
  {
    hide TypeOf, Make, Close, Sig, Appended;
    if |xs| < 1 {
      NothingAppended(w.state);
      return;
    }
    var sig := ItemSignature(xs[0], "");
    assert "" + Sig(xs[0]) == Sig(xs[0]);
    w.OpenContainer(OpenArray, sig);
    FromAll(w, xs);
    OpenCloseAppends(old(w.state), OpenArray, sig, EncAll(xs), w.state);
    AppendedHeight(Open(old(w.state), OpenArray, sig), EncAll(xs), w.state);
    w.CloseContainer();
  }

  lemma AppendedHeight(s: State, outs: Option<seq<Arg>>, m: State)
    requires Appended(s, outs, m)
    ensures |m.frames| == |s.frames|
  {
  }

  /** The loop over the elements of an array or a struct. */
  method FromAll(w: Writer, xs: seq<Value>)
    requires w.state.frames != [] && Top(w.state).kind in {Body, OpenArray, OpenStruct}
    modifies w
    ensures Appended(old(w.state), EncAll(xs), w.state)
    decreases xs, 1
  {
    hide Enc, Appended;
    NothingAppended(w.state);
    for i := 0 to |xs|
      invariant Appended(old(w.state), EncAll(xs[..i]), w.state)
      invariant w.state.frames != []
    {
      ghost var m := w.state;
      FromData(w, xs[i]);
      AppendedJoin(old(w.state), EncAll(xs[..i]), m, Wires(Enc(xs[i])), w.state);
      assert xs[..i + 1][..i] == xs[..i] && xs[..i + 1][i] == xs[i];
      AppendedHeight(m, Wires(Enc(xs[i])), w.state);
    }
    assert xs[..|xs|] == xs;
  }

  /** to_dbus_iter_from_struct */
  method FromStruct(w: Writer, xs: seq<Value>)
    requires w.state.frames != []
    modifies w
    ensures Appended(old(w.state), Wires(Enc(Struct(xs))), w.state)
    decreases xs, 2
  {
    hide Make, Close, Appended;
    w.OpenContainer(OpenStruct, "");
    FromAll(w, xs);
    OpenCloseAppends(old(w.state), OpenStruct, "", EncAll(xs), w.state);
    AppendedHeight(Open(old(w.state), OpenStruct, ""), EncAll(xs), w.state);
    w.CloseContainer();
  }

  /** to_dbus_iter_from_variant */
  method FromVariant(w: Writer, x: Value)
    requires w.state.frames != []
    modifies w
    ensures Appended(old(w.state), Wires(Enc(Variant(x))), w.state)
    decreases x, 2
  {
    hide Make, Close, Appended, Sig;
    if x == Invalid {
      NothingAppended(w.state);
      return;
    }
    var sig := ItemSignature(x, "");
    assert "" + Sig(x) == Sig(x);
    w.OpenContainer(OpenVariant, sig);
    FromData(w, x);
    OpenCloseAppends(old(w.state), OpenVariant, sig, Wires(Enc(x)), w.state);
    AppendedHeight(Open(old(w.state), OpenVariant, sig), Wires(Enc(x)), w.state);
    w.CloseContainer();
  }

  /** to_dbus_iter_from_dict */
  method FromDict(w: Writer, es: seq<Entry>)
    requires w.state.frames != []
    modifies w
    ensures Appended(old(w.state), Wires(Enc(Dict(es))), w.state)
    decreases es, 2
  {
    hide Make, Close, Appended, Sig, TypeOf, TypeString;
    if |es| < 1 {
      NothingAppended(w.state);
      return;
    }
    var valueSig := ItemSignature(es[0].value, "");
    var sig := "{" + TypeString(TypeOf(es[0].key)) + valueSig + "}";
    assert "" + Sig(es[0].value) == Sig(es[0].value);
    assert sig == EntrySig(es[0]);
    if |sig| > MAX_SIGNATURE {
      sig := sig[..MAX_SIGNATURE];
    }
    w.OpenContainer(OpenArray, sig);
    FromEntries(w, es);
    OpenCloseAppends(old(w.state), OpenArray, sig, EncEntries(es), w.state);
    AppendedHeight(Open(old(w.state), OpenArray, sig), EncEntries(es), w.state);
    w.CloseContainer();
  }

  method FromEntries(w: Writer, es: seq<Entry>)
    requires w.state.frames != [] && Top(w.state).kind == OpenArray
    modifies w
    ensures Appended(old(w.state), EncEntries(es), w.state)
    decreases es, 1
  {
    hide EncEntry, Appended;
    NothingAppended(w.state);
    for i := 0 to |es|
      invariant Appended(old(w.state), EncEntries(es[..i]), w.state)
      invariant w.state.frames != []
    {
      ghost var m := w.state;
      FromEntry(w, es[i]);
      AppendedJoin(old(w.state), EncEntries(es[..i]), m, Wires(EncEntry(es[i])), w.state);
      assert es[..i + 1][..i] == es[..i] && es[..i + 1][i] == es[i];
      AppendedHeight(m, Wires(EncEntry(es[i])), w.state);
    }
    assert es[..|es|] == es;
  }

  /** One dict entry: the key, which must be basic, then the value. */
  method FromEntry(w: Writer, e: Entry)
    requires w.state.frames != []
    modifies w
    ensures Appended(old(w.state), Wires(EncEntry(e)), w.state)
    decreases e, 0
  {
    w.OpenContainer(OpenEntry, "");
    if IsBasic(e.key) {
      FromBasic(w, e.key);
    } else {
      w.Abort();
    }
    ghost var m := w.state;
    FromData(w, e.value);
    EntryAppends(old(w.state), e, m, w.state);
    w.CloseContainer();
  }

  lemma EntryAppends(s: State, e: Entry, m: State, m': State)
    requires s.frames != []
    requires Appended(Open(s, OpenEntry, ""), Wires(EncBasic(e.key)), m)
    requires Appended(m, Wires(Enc(e.value)), m')
    ensures |m'.frames| > 1 && Appended(s, Wires(EncEntry(e)), Close(m'))
  {
    hide SigOf, Enc;
    var f := Frame(OpenEntry, "", []);
    assert Top(Open(s, OpenEntry, "")) == f;
    assert m'.frames[..|s.frames|] == s.frames;
    var k, x := EncBasic(e.key), Enc(e.value);
    if m'.ok {
      assert Top(m') == Frame(OpenEntry, "", Top(m').items);
      if k.One? && x.One? {
        assert Top(m').items == [k.a, x.a];
        assert x.a in Wires(x).value && Accepts(Top(m), x.a);
        assert Closed(Top(m')) == Some(AEntry(k.a, x.a));
        assert m'.(frames := s.frames) == s;
        PutAppended(s, AEntry(k.a, x.a));
      }
    }
  }
}
