/** What every run of append, remove and clear keeps of an EdbusDict. */
module DictRuns {
  import opened Values

  datatype Op = Append(key: Value, value: Value) | Remove(key: Value) | Clear

  function Step(es: seq<Entry>, op: Op): seq<Entry> {
    match op
    case Append(k, v) => DictAppend(es, k, v)
    case Remove(k) => DictRemove(es, k)
    case Clear => []
  }

  function Run(ops: seq<Op>): seq<Entry> {
    if ops == [] then [] else Step(Run(ops[..|ops| - 1]), ops[|ops| - 1])
  }

  /** A dict as a mathematical map: found is keyed by numbers, so both zeros are one key,
      lost keeps, in order, the entries that went in under NaN, and keys are all the keys as
      they went in, in the order in which they first did. What the dict takes in is stated
      on the first two alone. */
  datatype Model = Model(found: map<Value, Value>, lost: seq<Entry>, keys: seq<Value>)

  const NONE: Model := Model(map[], [], [])

  ghost predicate Accepts(m: Model, k: Value, v: Value) {
    && IsBasic(k)
    && (forall k' :: k' in m.found ==> TypeOf(k') == TypeOf(k) && TypeOf(m.found[k']) == TypeOf(v))
    && (forall e :: e in m.lost ==> TypeOf(e.key) == TypeOf(k) && TypeOf(e.value) == TypeOf(v))
  }

  ghost function Put(m: Model, k: Value, v: Value): Model {
    if IsNaN(k) then m.(lost := m.lost + [Entry(k, v)], keys := m.keys + [k])
    else m.(found := m.found[Canon(k) := v], keys := if Canon(k) in m.found then m.keys else m.keys + [k])
  }

  /** The keys that are not the number or other value c. */
  function KeysBut(keys: seq<Value>, c: Value): seq<Value> {
    if keys == [] then []
    else
      var k := keys[|keys| - 1];
      KeysBut(keys[..|keys| - 1], c) + if !IsNaN(k) && Canon(k) == c then [] else [k]
  }

  ghost function Without(m: Model, c: Value): Model {
    m.(found := m.found - {c}, keys := KeysBut(m.keys, c))
  }

  ghost function ModelStep(m: Model, op: Op): Model {
    match op
    case Append(k, v) => if Accepts(m, k, v) then Put(m, k, v) else m
    case Remove(k) => Without(m, Canon(k))
    case Clear => NONE
  }

  function Look(m: Model, k: Value): Value {
    if Canon(k) in m.found then m.found[Canon(k)] else Invalid
  }

  ghost function ModelRun(ops: seq<Op>): Model {
    if ops == [] then NONE else ModelStep(ModelRun(ops[..|ops| - 1]), ops[|ops| - 1])
  }

  /** Keys basic, pairwise unequal and of one type; values of one outer type. */
  ghost predicate Uniform(es: seq<Entry>) {
    && UnequalKeys(es)
    && (es != [] ==> IsBasic(es[0].key) && OfTypes(es, TypeOf(es[0].key), TypeOf(es[0].value)))
  }

  ghost predicate UnequalKeys(es: seq<Entry>) {
    forall i, j :: 0 <= i < j < |es| ==> IsNaN(es[i].key) || Canon(es[i].key) != Canon(es[j].key)
  }

  ghost predicate OfTypes(es: seq<Entry>, kt: Type, vt: Type) {
    forall e :: e in es ==> TypeOf(e.key) == kt && TypeOf(e.value) == vt
  }

  /** The entries under NaN. */
  function Lost(es: seq<Entry>): seq<Entry> {
    if es == [] then []
    else Lost(es[..|es| - 1]) + if IsNaN(es[|es| - 1].key) then [es[|es| - 1]] else []
  }

  /** e is the entry for the number or other value c. */
  predicate Under(e: Entry, c: Value) {
    !IsNaN(e.key) && Canon(e.key) == c
  }

  function KeysOf(es: seq<Entry>): (r: seq<Value>)
    ensures |r| == |es| && forall i :: 0 <= i < |es| ==> r[i] == es[i].key
  {
    if es == [] then [] else KeysOf(es[..|es| - 1]) + [es[|es| - 1].key]
  }

  /** m holds exactly the entries of es, in their order. */
  ghost predicate Mirrors(es: seq<Entry>, m: Model) {
    && m.keys == KeysOf(es)
    && m.lost == Lost(es)
    && (forall e :: e in es && !IsNaN(e.key) ==> Canon(e.key) in m.found && m.found[Canon(e.key)] == e.value)
    && (forall c :: c in m.found ==> exists e :: e in es && Under(e, c))
  }

  lemma KeyAtExact(es: seq<Entry>, k: Value)
    requires Uniform(es)
    ensures forall j :: 0 <= j < KeyAt(es, k) ==> !Under(es[j], Canon(k))
    ensures KeyAt(es, k) < |es| ==> Under(es[KeyAt(es, k)], Canon(k))
  {
    forall i | 0 <= i < |es|
      ensures Equal(es[i].key, k) <==> Under(es[i], Canon(k))
    {
      assert es[i] in es;
      EqualOnBasic(es[i].key, k);
    }
  }

  lemma FindMirrors(es: seq<Entry>, m: Model, k: Value)
    requires Uniform(es) && Mirrors(es, m)
    ensures KeyAt(es, k) < |es| <==> Canon(k) in m.found
    ensures DictFind(es, k) == Look(m, k)
  {
    hide Uniform, Lost, Canon, IsNaN, KeyAt;
    KeyAtExact(es, k);
  }

  /** The first entry is where the map can see its types. */
  lemma FirstSeen(es: seq<Entry>, m: Model)
    requires Mirrors(es, m) && es != []
    ensures if IsNaN(es[0].key) then es[0] in m.lost
      else Canon(es[0].key) in m.found && m.found[Canon(es[0].key)] == es[0].value
  {
    LostIn(es);
  }

  lemma {:induction false} LostIn(es: seq<Entry>)
    ensures forall e :: e in Lost(es) <==> e in es && IsNaN(e.key)
  {
    if es != [] {
      LostIn(es[..|es| - 1]);
      assert es == es[..|es| - 1] + [es[|es| - 1]];
    }
  }

  lemma CanonType(k: Value)
    ensures TypeOf(Canon(k)) == TypeOf(k)
  {
  }

  lemma AcceptsMirrors(es: seq<Entry>, m: Model, k: Value, v: Value)
    requires Uniform(es) && Mirrors(es, m)
    ensures DictAccepts(es, k, v) <==> Accepts(m, k, v)
  {
    hide TypeOf, IsBasic, Canon, IsNaN, UnequalKeys, Lost;
    LostIn(es);
    if es != [] {
      FirstSeen(es, m);
      CanonType(es[0].key);
    }
    forall c | c in m.found
      ensures es != [] && TypeOf(c) == TypeOf(es[0].key) && TypeOf(m.found[c]) == TypeOf(es[0].value)
    {
      var e :| e in es && Under(e, c);
      CanonType(e.key);
    }
  }

  // ---- an entry's value is replaced

  lemma {:induction false} LostPut(es: seq<Entry>, i: nat, v: Value)
    requires i < |es| && !IsNaN(es[i].key)
    ensures Lost(es[i := Entry(es[i].key, v)]) == Lost(es)
  {
    hide IsNaN;
    var n := |es| - 1;
    var r := es[i := Entry(es[i].key, v)];
    if i == n {
      assert r[..n] == es[..n];
    } else {
      assert r[..n] == es[..n][i := Entry(es[i].key, v)];
      LostPut(es[..n], i, v);
    }
  }

  lemma PutEntries(es: seq<Entry>, i: nat, v: Value, r: seq<Entry>)
    requires i < |es| && r == es[i := Entry(es[i].key, v)] && UnequalKeys(es) && !IsNaN(es[i].key)
    ensures UnequalKeys(r) && Entry(es[i].key, v) in r && r[0].key == es[0].key
    ensures forall e :: e in r ==> e == Entry(es[i].key, v) || (e in es && !Under(e, Canon(es[i].key)))
    ensures forall e :: e in es && !Under(e, Canon(es[i].key)) ==> e in r
  {
    hide Canon, IsNaN;
    assert r[i] == Entry(es[i].key, v);
    assert forall j :: 0 <= j < |es| ==> r[j].key == es[j].key && (j != i ==> r[j] == es[j]);
    forall e | e in es && !Under(e, Canon(es[i].key))
      ensures e in r
    {
      var j :| 0 <= j < |es| && es[j] == e;
      assert r[j] == e;
    }
  }

  lemma KeysPut(es: seq<Entry>, i: nat, v: Value)
    requires i < |es|
    ensures KeysOf(es[i := Entry(es[i].key, v)]) == KeysOf(es)
  {
    hide KeysOf;
  }

  /** With the entry under c replaced by e, the map has its value there. */
  lemma PutFound(es: seq<Entry>, m: Model, e: Entry, c: Value, r: seq<Entry>)
    requires Mirrors(es, m) && c in m.found && Under(e, c) && e in r
    requires Lost(r) == Lost(es) && KeysOf(r) == KeysOf(es)
    requires forall d :: d in r ==> d == e || (d in es && !Under(d, c))
    requires forall d :: d in es && !Under(d, c) ==> d in r
    ensures Mirrors(r, m.(found := m.found[c := e.value]))
  {
    hide Canon, IsNaN, Lost, KeysOf;
    forall d | d in m.found && d != c
      ensures exists f :: f in r && Under(f, d)
    {
      var f :| f in es && Under(f, d);
      assert f in r;
    }
  }

  lemma PutUniform(es: seq<Entry>, e: Entry, r: seq<Entry>)
    requires Uniform(es) && UnequalKeys(r) && es != [] && r != [] && r[0].key == es[0].key
    requires TypeOf(e.key) == TypeOf(es[0].key) && TypeOf(e.value) == TypeOf(es[0].value)
    requires forall d :: d in r ==> d == e || d in es
    ensures Uniform(r)
  {
    hide UnequalKeys, TypeOf, IsBasic;
    assert r[0] in r && es[0] in es;
  }

  lemma PutMirrors(es: seq<Entry>, m: Model, i: nat, k: Value, v: Value)
    requires Uniform(es) && Mirrors(es, m) && i < |es| && Under(es[i], Canon(k)) && !IsNaN(k)
    requires TypeOf(v) == TypeOf(es[0].value)
    ensures var r := es[i := Entry(es[i].key, v)];
      Uniform(r) && Mirrors(r, Put(m, k, v))
  {
    hide TypeOf, UnequalKeys, Canon, IsNaN, Lost, KeysOf, IsBasic;
    var e := Entry(es[i].key, v);
    var r := es[i := e];
    PutEntries(es, i, v, r);
    LostPut(es, i, v);
    KeysPut(es, i, v);
    assert es[i] in es;
    PutUniform(es, e, r);
    PutFound(es, m, e, Canon(k), r);
  }

  // ---- an entry is added

  lemma SnocLost(es: seq<Entry>, e: Entry)
    ensures Lost(es + [e]) == Lost(es) + if IsNaN(e.key) then [e] else []
  {
    assert (es + [e])[..|es|] == es;
  }

  lemma SnocUniform(es: seq<Entry>, k: Value, v: Value)
    requires Uniform(es) && DictAccepts(es, k, v)
    requires forall j :: 0 <= j < |es| ==> !Under(es[j], Canon(k))
    ensures Uniform(es + [Entry(k, v)])
  {
    hide Canon, IsNaN, TypeOf;
    assert forall j :: 0 <= j < |es| ==> es[j] in es;
  }

  lemma SnocMirrors(es: seq<Entry>, m: Model, k: Value, v: Value)
    requires Mirrors(es, m) && (IsNaN(k) || Canon(k) !in m.found)
    ensures Mirrors(es + [Entry(k, v)], Put(m, k, v))
  {
    hide Canon, IsNaN, Lost, KeysOf;
    var n, r := Entry(k, v), es + [Entry(k, v)];
    SnocLost(es, n);
    assert n in r;
    assert KeysOf(r) == KeysOf(es) + [k];
    forall c | c in Put(m, k, v).found
      ensures exists e :: e in r && Under(e, c)
    {
      if c in m.found {
        var e :| e in es && Under(e, c);
        assert e in r;
      } else {
        assert Under(n, c);
      }
    }
  }

  // ---- an entry is removed

  lemma {:induction false} LostCut(es: seq<Entry>, i: nat)
    requires i < |es| && !IsNaN(es[i].key)
    ensures Lost(es[..i] + es[i + 1..]) == Lost(es)
  {
    hide IsNaN;
    var n := |es| - 1;
    var r := es[..i] + es[i + 1..];
    if i == n {
      assert r == es[..n];
    } else {
      assert r[..n - 1] == es[..n][..i] + es[..n][i + 1..] && r[n - 1] == es[n];
      LostCut(es[..n], i);
    }
  }

  lemma {:induction false} NoSuchKey(keys: seq<Value>, c: Value)
    requires forall k :: k in keys ==> IsNaN(k) || Canon(k) != c
    ensures KeysBut(keys, c) == keys
  {
    hide IsNaN, Canon;
    if keys != [] {
      NoSuchKey(keys[..|keys| - 1], c);
    }
  }

  lemma KeysCut(es: seq<Entry>, i: nat, c: Value)
    requires UnequalKeys(es) && i < |es| && Under(es[i], c)
    ensures KeysOf(es[..i] + es[i + 1..]) == KeysBut(KeysOf(es), c)
  {
    hide IsNaN, Canon, KeysOf, KeysBut;
    var keys := KeysOf(es);
    assert KeysOf(es[..i] + es[i + 1..]) == keys[..i] + keys[i + 1..];
    forall j | 0 <= j < |keys| && j != i
      ensures IsNaN(keys[j]) || Canon(keys[j]) != c
    {
    }
    KeyTaken(keys, i, c);
  }

  lemma {:induction false} KeyTaken(keys: seq<Value>, i: nat, c: Value)
    requires i < |keys| && !IsNaN(keys[i]) && Canon(keys[i]) == c
    requires forall j :: 0 <= j < |keys| && j != i ==> IsNaN(keys[j]) || Canon(keys[j]) != c
    ensures KeysBut(keys, c) == keys[..i] + keys[i + 1..]
  {
    hide IsNaN, Canon;
    var n := |keys| - 1;
    if i == n {
      NoSuchKey(keys[..n], c);
    } else {
      KeyTaken(keys[..n], i, c);
    }
  }

  lemma CutUnequal(es: seq<Entry>, i: nat, r: seq<Entry>)
    requires i < |es| && r == es[..i] + es[i + 1..] && UnequalKeys(es) && !IsNaN(es[i].key)
    ensures UnequalKeys(r)
    ensures forall e :: e in r ==> e in es && !Under(e, Canon(es[i].key))
    ensures forall e :: e in es && !Under(e, Canon(es[i].key)) ==> e in r
  {
    hide Canon, IsNaN;
    assert forall j :: 0 <= j < |r| ==> r[j] == if j < i then es[j] else es[j + 1];
    forall e | e in es && !Under(e, Canon(es[i].key))
      ensures e in r
    {
      var j :| 0 <= j < |es| && es[j] == e;
      assert r[if j < i then j else j - 1] == e;
    }
  }

  lemma CutUniform(es: seq<Entry>, r: seq<Entry>)
    requires Uniform(es) && UnequalKeys(r) && forall e :: e in r ==> e in es
    ensures Uniform(r)
  {
    hide TypeOf, UnequalKeys, IsBasic;
    if r != [] {
      assert r[0] in r && r[0] in es && es[0] in es;
      SameKind(r[0].key, es[0].key);
    }
  }

  lemma SameKind(k: Value, l: Value)
    requires TypeOf(k) == TypeOf(l)
    ensures IsBasic(k) == IsBasic(l)
  {
  }

  /** All entries but those under c mirror the map without c. */
  lemma CutFound(es: seq<Entry>, m: Model, c: Value, r: seq<Entry>)
    requires Mirrors(es, m) && Lost(r) == Lost(es) && KeysOf(r) == KeysBut(KeysOf(es), c)
    requires forall e :: e in r ==> e in es && !Under(e, c)
    requires forall e :: e in es && !Under(e, c) ==> e in r
    ensures Mirrors(r, Without(m, c))
  {
    hide Canon, IsNaN, Lost, KeysOf, KeysBut;
    forall d | d in m.found && d != c
      ensures exists e :: e in r && Under(e, d)
    {
      var e :| e in es && Under(e, d);
      assert e in r;
    }
  }

  lemma CutMirrors(es: seq<Entry>, m: Model, i: nat, c: Value)
    requires Uniform(es) && Mirrors(es, m) && i < |es| && Under(es[i], c)
    ensures var r := es[..i] + es[i + 1..];
      Uniform(r) && Mirrors(r, Without(m, c))
  {
    hide TypeOf, UnequalKeys, Canon, IsNaN, Lost, KeysOf, KeysBut, OfTypes, Mirrors, Without;
    var r := es[..i] + es[i + 1..];
    CutUnequal(es, i, r);
    CutUniform(es, r);
    LostCut(es, i);
    KeysCut(es, i, c);
    CutFound(es, m, c, r);
  }

  // ---- every run

  lemma MirroredKeys(es: seq<Entry>, m: Model)
    requires Mirrors(es, m)
    ensures KeysOf(es) == m.keys
  {
  }

  lemma NaNNotFound(es: seq<Entry>, k: Value)
    requires Uniform(es) && IsNaN(k)
    ensures KeyAt(es, k) == |es|
    ensures forall j :: 0 <= j < |es| ==> !Under(es[j], Canon(k))
  {
    hide KeyAt, Uniform;
    KeyAtExact(es, k);
  }

  lemma AppendMirrors(es: seq<Entry>, m: Model, k: Value, v: Value)
    requires Uniform(es) && Mirrors(es, m) && DictAccepts(es, k, v)
    ensures Uniform(DictAppend(es, k, v)) && Mirrors(DictAppend(es, k, v), Put(m, k, v))
  {
    hide Uniform, Mirrors, Canon, IsNaN, KeyAt, Put, Equal;
    KeyAtExact(es, k);
    FindMirrors(es, m, k);
    if IsNaN(k) {
      NaNNotFound(es, k);
    }
    if KeyAt(es, k) < |es| {
      PutMirrors(es, m, KeyAt(es, k), k, v);
    } else {
      SnocUniform(es, k, v);
      SnocMirrors(es, m, k, v);
    }
  }

  lemma NotUnder(es: seq<Entry>, m: Model, c: Value)
    requires Mirrors(es, m) && c !in m.found
    ensures Without(m, c) == m
  {
    hide IsNaN, Canon, KeysOf, KeysBut, Lost;
    assert m.found - {c} == m.found;
    NoSuchKey(KeysOf(es), c);
  }

  lemma StepMirrors(es: seq<Entry>, m: Model, op: Op)
    requires Uniform(es) && Mirrors(es, m)
    ensures Uniform(Step(es, op)) && Mirrors(Step(es, op), ModelStep(m, op))
  {
    hide Uniform, Mirrors, Accepts, DictAccepts, Canon, Put, KeyAt, Equal;
    match op
    case Append(k, v) =>
      AcceptsMirrors(es, m, k, v);
      if DictAccepts(es, k, v) {
        AppendMirrors(es, m, k, v);
      }
    case Remove(k) =>
      FindMirrors(es, m, k);
      KeyAtExact(es, k);
      if KeyAt(es, k) < |es| {
        CutMirrors(es, m, KeyAt(es, k), Canon(k));
      } else {
        NotUnder(es, m, Canon(k));
      }
    case Clear =>
      EmptyMirrors();
  }

  /** The model that mirrors a uniform dict. */
  ghost function ModelOf(es: seq<Entry>): Model {
    if es == [] then NONE else Put(ModelOf(es[..|es| - 1]), es[|es| - 1].key, es[|es| - 1].value)
  }

  lemma {:induction false} ModelMirrors(es: seq<Entry>)
    requires UnequalKeys(es)
    ensures Mirrors(es, ModelOf(es))
  {
    hide Canon, IsNaN, Put, Mirrors;
    if es == [] {
      EmptyMirrors();
    } else {
      var n := |es| - 1;
      ModelMirrors(es[..n]);
      KeySeen(es[..n], ModelOf(es[..n]), Canon(es[n].key));
      if !IsNaN(es[n].key) {
        NewKey(es, n);
      }
      assert es == es[..n] + [Entry(es[n].key, es[n].value)];
      SnocMirrors(es[..n], ModelOf(es[..n]), es[n].key, es[n].value);
    }
  }

  /** Every operation leaves a uniform dict uniform. */
  lemma StepUniform(es: seq<Entry>, op: Op)
    requires Uniform(es)
    ensures Uniform(Step(es, op))
  {
    hide UnequalKeys, Mirrors, Step, ModelStep;
    ModelMirrors(es);
    StepMirrors(es, ModelOf(es), op);
  }

  lemma EmptyMirrors()
    ensures Uniform([]) && Mirrors([], NONE)
  {
  }

  /** After any run the dict is uniform and holds exactly what the map holds, its keys as
      and in the order in which they first went in, and find reads the map. */
  lemma {:induction false} RunIsMap(ops: seq<Op>)
    ensures Uniform(Run(ops)) && Mirrors(Run(ops), ModelRun(ops))
    ensures KeysOf(Run(ops)) == ModelRun(ops).keys
    ensures forall k :: DictFind(Run(ops), k) == Look(ModelRun(ops), k)
  {
    hide Uniform, Mirrors, Accepts, DictFind, KeyAt, Canon, Put, KeysOf, Without;
    if ops == [] {
      EmptyMirrors();
    } else {
      RunIsMap(ops[..|ops| - 1]);
      StepMirrors(Run(ops[..|ops| - 1]), ModelRun(ops[..|ops| - 1]), ops[|ops| - 1]);
    }
    MirroredKeys(Run(ops), ModelRun(ops));
    forall k
      ensures DictFind(Run(ops), k) == Look(ModelRun(ops), k)
    {
      FindMirrors(Run(ops), ModelRun(ops), k);
    }
  }

  /** What mirrors a dict tells the very dict: its entries, their keys as they went in, and
      their order. */
  lemma {:induction false} MirrorIsExact(es: seq<Entry>, es': seq<Entry>, m: Model)
    requires Mirrors(es, m) && Mirrors(es', m)
    ensures es == es'
  {
    hide IsNaN, Canon, Lost, KeysOf;
    forall i | 0 <= i < |es| && !IsNaN(es[i].key)
      ensures es[i] == es'[i]
    {
      assert KeysOf(es)[i] == KeysOf(es')[i];
      assert es[i] in es && es'[i] in es';
    }
    assert forall i :: 0 <= i < |es| ==> KeysOf(es)[i] == KeysOf(es')[i];
    SameLost(es, es');
  }

  lemma {:induction false} SameLost(es: seq<Entry>, es': seq<Entry>)
    requires |es| == |es'| && Lost(es) == Lost(es')
    requires forall i :: 0 <= i < |es| ==> es[i].key == es'[i].key && (IsNaN(es[i].key) || es[i] == es'[i])
    ensures es == es'
  {
    hide IsNaN;
    if es != [] {
      var n := |es| - 1;
      assert es[n].key == es'[n].key;
      if IsNaN(es[n].key) {
        var m := |Lost(es)| - 1;
        assert es[n] == Lost(es)[m] && es'[n] == Lost(es')[m];
        assert Lost(es[..n]) == Lost(es)[..m] && Lost(es'[..n]) == Lost(es')[..m];
      } else {
        assert Lost(es[..n]) == Lost(es) && Lost(es'[..n]) == Lost(es');
      }
      SameLost(es[..n], es'[..n]);
    }
  }

  // ---- how much is lost

  /** An append that the dict takes in under NaN. */
  ghost predicate Loses(m: Model, op: Op) {
    op.Append? && IsNaN(op.key) && Accepts(m, op.key, op.value)
  }

  /** Since the dict was last cleared, something went in under NaN. */
  ghost predicate LostSince(ops: seq<Op>) {
    exists n: nat :: n < |ops| && Loses(ModelRun(ops[..n]), ops[n]) && forall j :: n < j < |ops| ==> ops[j] != Clear
  }

  lemma LostSinceSnoc(ops: seq<Op>, n: nat)
    requires |ops| == n + 1
    ensures LostSince(ops) <==> Loses(ModelRun(ops[..n]), ops[n]) || (LostSince(ops[..n]) && ops[n] != Clear)
  {
    hide Loses, ModelRun;
    if LostSince(ops[..n]) && ops[n] != Clear {
      var k: nat :| k < n && Loses(ModelRun(ops[..n][..k]), ops[..n][k]) && forall j :: k < j < n ==> ops[..n][j] != Clear;
      assert ops[..n][..k] == ops[..k];
      assert forall j :: k < j < n ==> ops[j] == ops[..n][j];
    }
    if k: nat :| k < n && Loses(ModelRun(ops[..k]), ops[k]) && forall j :: k < j < |ops| ==> ops[j] != Clear {
      assert ops[..n][..k] == ops[..k];
      assert Loses(ModelRun(ops[..n][..k]), ops[..n][k]);
    }
  }

  lemma {:induction false} LostIff(ops: seq<Op>)
    ensures ModelRun(ops).lost != [] <==> LostSince(ops)
  {
    hide Accepts, IsNaN, Canon, LostSince;
    if ops == [] {
      assert !LostSince([]) by {
        NothingLost();
      }
    } else {
      LostIff(ops[..|ops| - 1]);
      LostSinceSnoc(ops, |ops| - 1);
    }
  }

  lemma NothingLost()
    ensures !LostSince([])
  {
  }

  // ---- how many entries there are

  function KeySet(es: seq<Entry>): set<Value> {
    set e | e in es && !IsNaN(e.key) :: Canon(e.key)
  }

  lemma {:induction false} KeysCounted(es: seq<Entry>)
    requires UnequalKeys(es)
    ensures |KeySet(es)| + |Lost(es)| == |es|
  {
    hide Canon, IsNaN;
    if es != [] {
      var n := |es| - 1;
      assert forall i :: 0 <= i < |es| ==> es[i] in es;
      KeysCounted(es[..n]);
      if IsNaN(es[n].key) {
        assert KeySet(es) == KeySet(es[..n]);
      } else {
        NewKey(es, n);
      }
    }
  }

  lemma NewKey(es: seq<Entry>, n: nat)
    requires UnequalKeys(es) && |es| == n + 1 && !IsNaN(es[n].key)
    ensures Canon(es[n].key) !in KeySet(es[..n]) && KeySet(es) == KeySet(es[..n]) + {Canon(es[n].key)}
  {
    hide Canon, IsNaN;
    forall e | e in es[..n] && !IsNaN(e.key)
      ensures Canon(e.key) != Canon(es[n].key)
    {
      var i :| 0 <= i < n && es[..n][i] == e;
      assert es[i] == e;
    }
    assert es[n] in es && es == es[..n] + [es[n]];
  }

  lemma KeySeen(es: seq<Entry>, m: Model, c: Value)
    requires Mirrors(es, m)
    ensures c in KeySet(es) <==> c in m.found
  {
    hide Canon, IsNaN, Lost;
    if c in KeySet(es) {
      var e :| e in es && !IsNaN(e.key) && Canon(e.key) == c;
    }
    if c in m.found {
      var e :| e in es && Under(e, c);
    }
  }

  lemma SameKeys(es: seq<Entry>, m: Model)
    requires Mirrors(es, m)
    ensures KeySet(es) == m.found.Keys && Lost(es) == m.lost
  {
    hide KeySet, Lost;
    forall c
      ensures c in KeySet(es) <==> c in m.found
    {
      KeySeen(es, m, c);
    }
  }

  /** After any run the dict has one entry for each key of the map and those that went in
      under NaN, so it is the map alone exactly if nothing did since it was last cleared. */
  lemma RunCounts(ops: seq<Op>)
    ensures |Run(ops)| == |ModelRun(ops).found| + |ModelRun(ops).lost|
    ensures |Run(ops)| == |ModelRun(ops).found| <==> !LostSince(ops)
  {
    hide Mirrors, Lost, KeySet, LostSince, Canon, IsNaN, UnequalKeys, TypeOf, IsBasic;
    RunIsMap(ops);
    LostIff(ops);
    KeysCounted(Run(ops));
    SameKeys(Run(ops), ModelRun(ops));
  }

  /** What a dict takes in is found there afterwards exactly if its key is not NaN. */
  lemma AppendFoundIff(es: seq<Entry>, m: Model, k: Value, v: Value)
    requires Uniform(es) && Mirrors(es, m) && DictAccepts(es, k, v)
    ensures var r := DictAppend(es, k, v);
      KeyAt(r, k) < |r| <==> !IsNaN(k)
    ensures !IsNaN(k) ==> DictFind(DictAppend(es, k, v), k) == v
  {
    hide Uniform, Mirrors, KeyAt, Equal, DictAppend, DictFind, Canon, IsNaN, DictAccepts;
    AppendMirrors(es, m, k, v);
    FindMirrors(DictAppend(es, k, v), Put(m, k, v), k);
    if IsNaN(k) {
      NaNNotFound(DictAppend(es, k, v), k);
    }
  }

  /** A key that is there keeps its place, and its zero, and gets the new value. */
  lemma PlaceIsKept(v: Value, w: Value)
    requires TypeOf(v) == TypeOf(w)
    ensures var minus, plus, one := Scalar(Double(Zero(true))), Scalar(Double(Zero(false))), Scalar(Double(Number(1)));
      Run([Append(minus, v), Append(one, v), Append(plus, w)]) == [Entry(minus, w), Entry(one, v)]
  {
    hide TypeOf;
    var minus, plus, one := Scalar(Double(Zero(true))), Scalar(Double(Zero(false))), Scalar(Double(Number(1)));
    assert TypeOf(minus) == DoubleT && TypeOf(plus) == DoubleT && TypeOf(one) == DoubleT by {
      DoubleType(minus.basic.d);
      DoubleType(plus.basic.d);
      DoubleType(one.basic.d);
    }
    var ops := [Append(minus, v), Append(one, v), Append(plus, w)];
    assert ops[..2] == [Append(minus, v), Append(one, v)] && ops[..2][..1] == [Append(minus, v)] && ops[..2][..1][..0] == [];
    assert Run(ops[..2][..1]) == [Entry(minus, v)];
    assert Run(ops[..2]) == [Entry(minus, v), Entry(one, v)];
  }

  lemma DoubleType(d: Ieee)
    ensures TypeOf(Scalar(Double(d))) == DoubleT
  {
  }

  /** A value appended under NaN is there twice after a second time, is never found, and
      cannot be removed. */
  lemma NaNIsLost()
    ensures var k, v := Scalar(Double(NaN(0))), Scalar(Int32(1));
      var es := Run([Append(k, v), Append(k, v), Remove(k)]);
      es == [Entry(k, v), Entry(k, v)] && DictFind(es, k) == Invalid
  {
    var k, v := Scalar(Double(NaN(0))), Scalar(Int32(1));
    var ops := [Append(k, v), Append(k, v), Remove(k)];
    assert ops[..2] == [Append(k, v), Append(k, v)] && ops[..2][..1] == [Append(k, v)] && ops[..2][..1][..0] == [];
    assert Run(ops[..2][..1]) == [Entry(k, v)];
    assert Run(ops[..2]) == [Entry(k, v), Entry(k, v)];
  }
}
