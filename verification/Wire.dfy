/** libdbus as the marshaller uses it: an appending iterator over open containers
    and a reading iterator over a message's arguments. */
module Wire {
  import opened Wrappers
  import opened Values
  import opened Signature

  /** A marshalled argument. Arrays and variants carry the signature they were opened with. */
  datatype Arg =
    | ABasic(b: Basic)
    | AArray(declared: string, items: seq<Arg>)
    | AStruct(fields: seq<Arg>)
    | AEntry(key: Arg, value: Arg)
    | AVariant(declared: string, item: Arg)

  function BasicCode(b: Basic): char {
    match b
    case Byte(_) => 'y'
    case Bool(_) => 'b'
    case Int16(_) => 'n'
    case UInt16(_) => 'q'
    case Int32(_) => 'i'
    case UInt32(_) => 'u'
    case Int64(_) => 'x'
    case UInt64(_) => 't'
    case Double(_) => 'd'
    case String(_) => 's'
    case ObjectPath(_) => 'o'
  }

  /** The signature of what was actually written. */
  function SigOf(a: Arg): string {
    match a
    case ABasic(b) => [BasicCode(b)]
    case AArray(sig, _) => "a" + sig
    case AStruct(fs) => "(" + SigsOf(fs) + ")"
    case AEntry(k, v) => "{" + SigOf(k) + SigOf(v) + "}"
    case AVariant(_, _) => "v"
  }

  function SigsOf(args: seq<Arg>): string {
    if args == [] then "" else SigsOf(args[..|args| - 1]) + SigOf(args[|args| - 1])
  }

  // ---- writing

  datatype Kind = Body | OpenArray | OpenStruct | OpenEntry | OpenVariant

  datatype Frame = Frame(kind: Kind, declared: string, items: seq<Arg>)

  /** May a be appended here? Arrays and variants hold what they were declared to hold. */
  predicate Accepts(f: Frame, a: Arg) {
    match f.kind
    case Body => !a.AEntry?
    case OpenArray => SigOf(a) == f.declared
    case OpenStruct => !a.AEntry?
    case OpenEntry => |f.items| < 2 && !a.AEntry? && (f.items == [] ==> a.ABasic?)
    case OpenVariant => f.items == [] && SigOf(a) == f.declared
  }

  predicate MayOpen(kind: Kind, sig: string) {
    match kind
    case OpenArray => IsElement(sig) && |sig| <= MAX_SIGNATURE
    case OpenVariant => IsSingle(sig) && |sig| <= MAX_SIGNATURE
    case _ => true
  }

  /** The argument that a container makes when it is closed, if it is complete. */
  function Closed(f: Frame): Option<Arg> {
    match f.kind
    case Body => None
    case OpenArray => Some(AArray(f.declared, f.items))
    case OpenStruct => if f.items == [] then None else Some(AStruct(f.items))
    case OpenEntry => if |f.items| == 2 then Some(AEntry(f.items[0], f.items[1])) else None
    case OpenVariant => if |f.items| == 1 then Some(AVariant(f.declared, f.items[0])) else None
  }

  /** ok says that no call has been refused so far; the last frame is the innermost. */
  datatype State = State(ok: bool, frames: seq<Frame>)

  function Top(s: State): Frame
    requires s.frames != []
  {
    s.frames[|s.frames| - 1]
  }

  function SetTop(s: State, f: Frame): State
    requires s.frames != []
  {
    s.(frames := s.frames[|s.frames| - 1 := f])
  }

  function Put(s: State, a: Arg): State
    requires s.frames != []
  {
    if s.ok && Accepts(Top(s), a) then SetTop(s, Top(s).(items := Top(s).items + [a]))
    else s.(ok := false)
  }

  function Open(s: State, kind: Kind, sig: string): State {
    State(s.ok && MayOpen(kind, sig), s.frames + [Frame(kind, sig, [])])
  }

  function Close(s: State): State
    requires |s.frames| > 1
  {
    var rest := s.(frames := s.frames[..|s.frames| - 1]);
    match Closed(Top(s))
    case None => rest.(ok := false)
    case Some(a) => Put(rest, a)
  }

  /** The appending DBusMessageIter with the iterators opened from it. */
  class Writer {
    var state: State

    constructor ()
      ensures state == State(true, [Frame(Body, "", [])])
    {
      state := State(true, [Frame(Body, "", [])]);
    }

    method AppendBasic(b: Basic)
      requires state.frames != []
      modifies this
      ensures state == Put(old(state), ABasic(b))
    {
      state := Put(state, ABasic(b));
    }

    method OpenContainer(kind: Kind, sig: string)
      modifies this
      ensures state == Open(old(state), kind, sig)
    {
      state := Open(state, kind, sig);
    }

    method CloseContainer()
      requires |state.frames| > 1
      modifies this
      ensures state == Close(old(state))
    {
      state := Close(state);
    }

    /** An assertion of the caller failed: nothing written counts any more. */
    method Abort()
      modifies this
      ensures state == old(state).(ok := false)
    {
      state := state.(ok := false);
    }
  }

  /** From s to s' exactly the arguments of out were appended to the innermost open
      container, or, where one is missing or not accepted there, the message broke;
      everything further out is as it was, so opens and closes are balanced. */
  ghost predicate Appended(s: State, out: Option<seq<Arg>>, s': State) {
    && s.frames != [] && |s'.frames| == |s.frames|
    && s'.frames[..|s.frames| - 1] == s.frames[..|s.frames| - 1]
    && Top(s').kind == Top(s).kind && Top(s').declared == Top(s).declared
    && (s'.ok <==> s.ok && out.Some? && forall a :: a in out.value ==> Accepts(Top(s), a))
    && (s'.ok ==> Top(s').items == Top(s).items + out.value)
  }

  lemma PutAppended(s: State, a: Arg)
    requires s.frames != []
    ensures Appended(s, Some([a]), Put(s, a))
  {
  }

  function Join(out: Option<seq<Arg>>, more: Option<seq<Arg>>): Option<seq<Arg>> {
    if out.Some? && more.Some? then Some(out.value + more.value) else None
  }

  /** Appending is sequential where acceptance does not depend on what is there. */
  lemma AppendedJoin(s: State, out: Option<seq<Arg>>, m: State, more: Option<seq<Arg>>, s': State)
    requires Appended(s, out, m) && Appended(m, more, s')
    requires Top(s).kind in {Body, OpenArray, OpenStruct}
    ensures Appended(s, Join(out, more), s')
  {
    hide SigOf;
    forall a
      ensures Accepts(Top(m), a) == Accepts(Top(s), a)
    {
    }
    if out.Some? && more.Some? {
      assert forall a :: a in out.value + more.value <==> a in out.value || a in more.value;
    }
  }

  // ---- reading

  /** The code that dbus_message_iter_get_arg_type reports, 0 at the end. */
  function ArgCode(a: Arg): char {
    match a
    case ABasic(b) => BasicCode(b)
    case AArray(_, _) => 'a'
    case AStruct(_) => 'r'
    case AEntry(_, _) => 'e'
    case AVariant(_, _) => 'v'
  }

  function Inside(a: Arg): seq<Arg> {
    match a
    case ABasic(_) => []
    case AArray(_, items) => items
    case AStruct(fs) => fs
    case AEntry(k, v) => [k, v]
    case AVariant(_, x) => [x]
  }

  /** The reading DBusMessageIter. */
  class Iter {
    const args: seq<Arg>
    var pos: nat

    constructor (args: seq<Arg>)
      ensures this.args == args && pos == 0
    {
      this.args := args;
      pos := 0;
    }

    method GetArgType() returns (c: char)
      ensures c == if pos < |args| then ArgCode(args[pos]) else '\0'
    {
      c := if pos < |args| then ArgCode(args[pos]) else '\0';
    }

    /** Only the first character of the declared element type matters. */
    method GetElementType() returns (c: char)
      requires pos < |args| && args[pos].AArray?
      ensures var sig := args[pos].declared;
        c == if sig == "" then '\0' else if sig[0] == '{' then 'e' else if sig[0] == '(' then 'r' else sig[0]
    {
      var sig := args[pos].declared;
      c := if sig == "" then '\0' else if sig[0] == '{' then 'e' else if sig[0] == '(' then 'r' else sig[0];
    }

    method GetBasic() returns (b: Basic)
      requires pos < |args| && args[pos].ABasic?
      ensures b == args[pos].b
    {
      b := args[pos].b;
    }

    method Recurse() returns (sub: Iter)
      requires pos < |args|
      ensures fresh(sub) && sub.args == Inside(args[pos]) && sub.pos == 0
    {
      sub := new Iter(Inside(args[pos]));
    }

    method Next()
      modifies this
      ensures pos == if old(pos) < |args| then old(pos) + 1 else old(pos)
    {
      if pos < |args| {
        pos := pos + 1;
      }
    }
  }
}
