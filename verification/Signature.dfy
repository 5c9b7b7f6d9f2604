/** D-Bus type signatures ("Type System" in the D-Bus Specification): how a complete
    type is written, and the grammar that reads it back. */
module Signature {
  import opened Wrappers

  /** A single complete type. A dict is an array of dict entries. */
  datatype Ty =
    | TBasic(code: char)
    | TVariant
    | TArray(elem: Ty)
    | TDict(key: char, value: Ty)
    | TStruct(fields: seq<Ty>)

  const MAX_SIGNATURE: nat := 255

  /** The codes of the basic types. */
  predicate IsCode(c: char) {
    c in {'y', 'b', 'n', 'q', 'i', 'u', 'x', 't', 'd', 's', 'o', 'g', 'h'}
  }

  lemma CodesApart()
    ensures !IsCode('a') && !IsCode('v') && !IsCode('(') && !IsCode(')') && !IsCode('{') && !IsCode('}')
  {
  }

  /** Struct types have at least one field, dict keys are basic. */
  predicate Complete(t: Ty) {
    match t
    case TBasic(c) => IsCode(c)
    case TVariant => true
    case TArray(e) => Complete(e)
    case TDict(k, v) => IsCode(k) && Complete(v)
    case TStruct(fs) => fs != [] && forall f :: f in fs ==> Complete(f)
  }

  function Print(t: Ty): string
    decreases t, 0
  {
    match t
    case TBasic(c) => [c]
    case TVariant => "v"
    case TArray(e) => "a" + Print(e)
    case TDict(k, v) => "a" + PrintEntry(k, v)
    case TStruct(fs) => "(" + PrintAll(fs) + ")"
  }

  function PrintEntry(k: char, v: Ty): string
    decreases v, 1
  {
    "{" + [k] + Print(v) + "}"
  }

  function PrintAll(fs: seq<Ty>): string
    decreases fs, 0
  {
    if fs == [] then "" else Print(fs[0]) + PrintAll(fs[1..])
  }

  // ---- the grammar

  function ParseOne(s: string): (r: Option<(Ty, string)>)
    ensures r.Some? ==> |r.value.1| < |s|
    decreases |s|, 0
  {
    if s == "" then None
    else if IsCode(s[0]) then Some((TBasic(s[0]), s[1..]))
    else if s[0] == 'v' then Some((TVariant, s[1..]))
    else if s[0] == '(' then ParseStruct(s[1..])
    else if s[0] == 'a' && |s| > 1 && s[1] == '{' then ParseEntry(s[2..])
    else if s[0] == 'a' then
      match ParseOne(s[1..])
      case None => None
      case Some((e, rest)) => Some((TArray(e), rest))
    else None
  }

  /** What follows "a{". */
  function ParseEntry(s: string): (r: Option<(Ty, string)>)
    ensures r.Some? ==> |r.value.1| < |s|
    decreases |s|, 0
  {
    if s == "" || !IsCode(s[0]) then None
    else
      match ParseOne(s[1..])
      case None => None
      case Some((v, rest)) => if rest != "" && rest[0] == '}' then Some((TDict(s[0], v), rest[1..])) else None
  }

  /** What follows "(". */
  function ParseStruct(s: string): (r: Option<(Ty, string)>)
    ensures r.Some? ==> |r.value.1| < |s|
    decreases |s|, 2
  {
    match ParseFields(s)
    case None => None
    case Some((fs, rest)) => if fs == [] then None else Some((TStruct(fs), rest))
  }

  function ParseFields(s: string): (r: Option<(seq<Ty>, string)>)
    ensures r.Some? ==> |r.value.1| < |s|
    decreases |s|, 1
  {
    if s == "" then None
    else if s[0] == ')' then Some(([], s[1..]))
    else
      match ParseOne(s)
      case None => None
      case Some((f, rest)) =>
        match ParseFields(rest)
        case None => None
        case Some((fs, rest')) => Some(([f] + fs, rest'))
  }

  predicate IsSingle(s: string) {
    ParseOne(s).Some? && ParseOne(s).value.1 == ""
  }

  /** What an array may be declared to hold: a complete type or a dict entry. */
  predicate IsElement(s: string) {
    if s != "" && s[0] == '{' then IsSingle("a" + s) else IsSingle(s)
  }

  // ---- reading undoes writing

  lemma {:induction false} ParsePrint(t: Ty, rest: string)
    requires Complete(t)
    ensures ParseOne(Print(t) + rest) == Some((t, rest))
    decreases t, 0
  {
    hide IsCode;
    CodesApart();
    var s := Print(t) + rest;
    match t
    case TBasic(c) =>
      assert s[1..] == rest;
    case TVariant =>
      assert s[1..] == rest;
    case TArray(e) =>
      assert s[1..] == Print(e) + rest;
      PrintStart(e);
      ParsePrint(e, rest);
    case TDict(k, v) =>
      DictText(k, v, rest);
      ParsePrintEntry(k, v, rest);
    case TStruct(fs) =>
      assert s[1..] == PrintAll(fs) + (")" + rest);
      ParsePrintAll(fs, rest);
  }

  lemma DictText(k: char, v: Ty, rest: string)
    ensures Print(TDict(k, v)) + rest == "a{" + ([k] + (Print(v) + ("}" + rest)))
  {
  }

  lemma {:induction false} ParsePrintEntry(k: char, v: Ty, rest: string)
    requires IsCode(k) && Complete(v)
    ensures ParseEntry([k] + (Print(v) + ("}" + rest))) == Some((TDict(k, v), rest))
    decreases v, 1
  {
    var tail := Print(v) + ("}" + rest);
    assert ([k] + tail)[1..] == tail && ("}" + rest)[1..] == rest;
    ParsePrint(v, "}" + rest);
  }

  lemma {:induction false} ParsePrintAll(fs: seq<Ty>, rest: string)
    requires forall f :: f in fs ==> Complete(f)
    ensures ParseFields(PrintAll(fs) + (")" + rest)) == Some((fs, rest))
    decreases fs, 0
  {
    hide IsCode;
    CodesApart();
    var s := PrintAll(fs) + (")" + rest);
    if fs == [] {
      assert s == ")" + rest && s[1..] == rest;
    } else {
      var tail := PrintAll(fs[1..]) + (")" + rest);
      assert s == Print(fs[0]) + tail;
      PrintStart(fs[0]);
      ParsePrint(fs[0], tail);
      ParsePrintAll(fs[1..], rest);
      assert s[0] == Print(fs[0])[0] && [fs[0]] + fs[1..] == fs;
    }
  }

  lemma PrintStart(t: Ty)
    requires Complete(t)
    ensures Print(t) != "" && Print(t)[0] != '{' && Print(t)[0] != ')'
  {
    hide IsCode;
    CodesApart();
  }

  /** What the grammar reads is what printing its result writes. */
  lemma {:induction false} PrintParse(s: string)
    requires ParseOne(s).Some?
    ensures Complete(ParseOne(s).value.0) && s == Print(ParseOne(s).value.0) + ParseOne(s).value.1
    decreases |s|, 0
  {
    hide IsCode;
    CodesApart();
    if IsCode(s[0]) || s[0] == 'v' {
    } else if s[0] == '(' {
      PrintParseFields(s[1..]);
    } else if |s| > 1 && s[1] == '{' {
      PrintParseEntry(s[2..]);
      var (t, rest) := ParseOne(s).value;
      assert s == "a" + ("{" + s[2..]);
      assert s == "a" + PrintEntry(t.key, t.value) + rest;
    } else {
      PrintParse(s[1..]);
    }
  }

  lemma DictComplete(k: char, v: Ty)
    requires IsCode(k) && Complete(v)
    ensures Complete(TDict(k, v))
  {
  }

  lemma {:induction false} PrintParseEntry(s: string)
    requires ParseEntry(s).Some?
    ensures var (t, rest) := ParseEntry(s).value;
      t.TDict? && Complete(t) && "{" + s == PrintEntry(t.key, t.value) + rest
    decreases |s|, 1
  {
    hide IsCode, ParseOne, Print, Complete;
    PrintParse(s[1..]);
    var (v, rest) := ParseOne(s[1..]).value;
    DictComplete(s[0], v);
    assert s == [s[0]] + (Print(v) + rest) && rest == "}" + rest[1..];
  }

  lemma {:induction false} PrintParseFields(s: string)
    requires ParseFields(s).Some?
    ensures forall f :: f in ParseFields(s).value.0 ==> Complete(f)
    ensures s == PrintAll(ParseFields(s).value.0) + ")" + ParseFields(s).value.1
    decreases |s|, 1
  {
    hide IsCode;
    CodesApart();
    if s[0] != ')' {
      PrintParse(s);
      var (f, rest) := ParseOne(s).value;
      PrintParseFields(rest);
      var (fs, rest') := ParseFields(rest).value;
      assert ([f] + fs)[1..] == fs;
    }
  }

  /** Signatures are prefix-free: a type can be read off the front of any text in one way. */
  lemma PrefixFree(t: Ty, t': Ty, rest: string, rest': string)
    requires Complete(t) && Complete(t') && Print(t) + rest == Print(t') + rest'
    ensures t == t' && rest == rest'
  {
    ParsePrint(t, rest);
    ParsePrint(t', rest');
  }

  lemma PrintInjective(t: Ty, t': Ty)
    requires Complete(t) && Complete(t') && Print(t) == Print(t')
    ensures t == t'
  {
    assert Print(t) + "" == Print(t) && Print(t') + "" == Print(t');
    PrefixFree(t, t', "", "");
  }

  lemma PrintedIsSingle(t: Ty)
    requires Complete(t)
    ensures IsSingle(Print(t)) && IsElement(Print(t))
  {
    assert Print(t) + "" == Print(t);
    ParsePrint(t, "");
    PrintStart(t);
  }

  lemma PrintedIsEntry(k: char, v: Ty)
    requires IsCode(k) && Complete(v)
    ensures IsElement(PrintEntry(k, v))
  {
    PrintedIsSingle(TDict(k, v));
  }
}
