/** The OnlyShowIn and NotShowIn lists of a desktop file: at most one of them is ever
    there, and what was written is read back. */
module DesktopFile {
  import opened Wrappers
  import opened ConfigText
  import opened ConfigModel
  import opened ConfigLookup
  import Config
  import Tokens

  const ENTRY_SECT: string := "Desktop Entry"
  const ONLY: string := "OnlyShowIn"
  const NOT: string := "NotShowIn"

  /** A Config's contents and which section it has cached. */
  datatype State = State(conf: Conf, cached: Option<nat>)

  predicate Ready(s: State) {
    s.cached.Some? ==> s.cached.value < |s.conf|
  }

  function AfterSet(s: State, section: string, key: string, value: string): (r: State)
    requires Ready(s)
    ensures Ready(r)
  {
    State(Set(s.conf, s.cached, section, key, value), CacheAfter(s.conf, s.cached, section))
  }

  function AfterGet(s: State, section: string): (r: State)
    requires Ready(s)
    ensures Ready(r)
  {
    s.(cached := CacheAfter(s.conf, s.cached, section))
  }

  /** The list as one string, up to a NUL in it. */
  function ListText(items: seq<string>): string {
    UpTo(Tokens.Joined(items, ';'), NUL)
  }

  /** set_only_show_in and set_not_show_in: refused if the other key is there. */
  function AfterSetList(s: State, mine: string, other: string, items: seq<string>): (r: State)
    requires Ready(s)
    ensures Ready(r)
  {
    var a := AfterGet(s, ENTRY_SECT);
    if Get(s.conf, s.cached, ENTRY_SECT, other).Some? || items == [] then a
    else AfterSet(a, ENTRY_SECT, mine, ListText(items))
  }

  datatype Command =
    | SetOnlyShowIn(items: seq<string>)
    | SetNotShowIn(items: seq<string>)
    | SetOther(section: string, key: string, value: string)
    | Look(section: string)

  /** The setters of other keys never write these two. */
  function Exec(s: State, c: Command): (r: State)
    requires Ready(s)
    ensures Ready(r)
  {
    match c
    case SetOnlyShowIn(items) => AfterSetList(s, ONLY, NOT, items)
    case SetNotShowIn(items) => AfterSetList(s, NOT, ONLY, items)
    case SetOther(section, key, value) => if key == ONLY || key == NOT then s else AfterSet(s, section, key, value)
    case Look(section) => AfterGet(s, section)
  }

  function Run(s: State, cs: seq<Command>): (r: State)
    requires Ready(s)
    ensures Ready(r)
  {
    if cs == [] then s else Exec(Run(s, cs[..|cs| - 1]), cs[|cs| - 1])
  }

  /** create_new: the type alone. */
  function Created(typ: string): (r: State)
    ensures Ready(r)
  {
    AfterSet(State([], None), ENTRY_SECT, "Type", typ)
  }

  // ---- never both

  ghost predicate OneList(es: seq<Entry>) {
    !(ONLY in Keys(es) && NOT in Keys(es))
  }

  ghost predicate NeverBoth(c: Conf) {
    forall i :: 0 <= i < |c| ==> OneList(c[i].entries)
  }

  lemma AddEntryOneList(es: seq<Entry>, key: string, value: string)
    requires OneList(es)
    requires key == ONLY ==> NOT !in Keys(es)
    requires key == NOT ==> ONLY !in Keys(es)
    ensures OneList(AddEntry(es, key, value))
  {
    hide Match, FindAt, Keys, AddEntry;
    AddEntryShape(es, key, value);
    assert |ONLY| != |NOT|;
  }

  /** A key that is not found is not there. */
  lemma NotFoundNotThere(es: seq<Entry>, key: string)
    requires FindAt(Keys(es), key) == |es|
    ensures key !in Keys(es)
  {
    hide Match, Keys;
    MatchReflexive(key);
  }

  /** Setting keeps to one list, if the other is not there when one is set. */
  lemma SetOneList(s: State, section: string, key: string, value: string)
    requires Ready(s) && NeverBoth(s.conf)
    requires key == ONLY ==> Get(s.conf, s.cached, section, NOT) == None
    requires key == NOT ==> Get(s.conf, s.cached, section, ONLY) == None
    ensures NeverBoth(AfterSet(s, section, key, value).conf)
  {
    hide Match, FindAt, Keys, AddEntry, FindSection, OneList;
    var i, a := FindSection(s.conf, s.cached, section), AddSection(s.conf, s.cached, section);
    if i == |s.conf| {
      NoList();
    }
    if key == ONLY && i < |s.conf| {
      NotFoundNotThere(a[i].entries, NOT);
    }
    if key == NOT && i < |s.conf| {
      NotFoundNotThere(a[i].entries, ONLY);
    }
    AddEntryOneList(a[i].entries, key, value);
  }

  lemma NoList()
    ensures OneList([]) && Keys([]) == []
  {
  }

  /** A second look for the same section finds what the first did. */
  lemma SecondLook(s: State, section: string, key: string)
    requires Ready(s)
    ensures var a := AfterGet(s, section);
      && FindSection(a.conf, a.cached, section) == FindSection(s.conf, s.cached, section)
      && Get(a.conf, a.cached, section, key) == Get(s.conf, s.cached, section, key)
  {
    hide Match, FindAt, Keys, Names;
  }

  lemma ExecNeverBoth(s: State, c: Command)
    requires Ready(s) && NeverBoth(s.conf)
    ensures NeverBoth(Exec(s, c).conf)
  {
    hide Get, NeverBoth, AfterSet, ListText, ENTRY_SECT, FindSection;
    match c {
      case SetOnlyShowIn(items) =>
        SecondLook(s, ENTRY_SECT, NOT);
        if Get(s.conf, s.cached, ENTRY_SECT, NOT) == None {
          SetOneList(AfterGet(s, ENTRY_SECT), ENTRY_SECT, ONLY, ListText(items));
        }
      case SetNotShowIn(items) =>
        SecondLook(s, ENTRY_SECT, ONLY);
        if Get(s.conf, s.cached, ENTRY_SECT, ONLY) == None {
          SetOneList(AfterGet(s, ENTRY_SECT), ENTRY_SECT, NOT, ListText(items));
        }
      case SetOther(section, key, value) =>
        if key != ONLY && key != NOT {
          SetOneList(s, section, key, value);
        }
      case Look(section) =>
    }
  }

  /** From create_new on, no run of the setters leaves both keys in one section, whatever
      the names and keys hash to. */
  lemma {:induction false} RunNeverBoth(s: State, cs: seq<Command>)
    requires Ready(s) && NeverBoth(s.conf)
    ensures NeverBoth(Run(s, cs).conf)
  {
    hide NeverBoth, Exec;
    if cs != [] {
      RunNeverBoth(s, cs[..|cs| - 1]);
      ExecNeverBoth(Run(s, cs[..|cs| - 1]), cs[|cs| - 1]);
    }
  }

  lemma CreatedRuns(typ: string, cs: seq<Command>)
    ensures NeverBoth(Run(Created(typ), cs).conf)
  {
    hide NeverBoth, Run, AfterSet;
    NoSections();
    assert "Type"[0] != ONLY[0] && "Type"[0] != NOT[0];
    SetOneList(State([], None), ENTRY_SECT, "Type", typ);
    RunNeverBoth(Created(typ), cs);
  }

  lemma NoSections()
    ensures NeverBoth([])
  {
  }

  // ---- reading back

  const BUFFER: nat := 255

  /** What get leaves in a buffer of 256 of which it is told 255: longer values are cut,
      and one of 255 is not terminated but runs on into what was there. */
  function Buffered(value: string, there: string): string {
    if |value| < BUFFER then value
    else if |value| == BUFFER then value + UpTo(there, NUL)
    else value[..BUFFER - 1]
  }

  lemma {:induction false} JoinedFreeOfNul(items: seq<string>, d: char)
    requires Tokens.AllPlain(items, d) && d != NUL
    ensures NUL !in Tokens.Joined(items, d)
  {
    if items != [] {
      JoinedFreeOfNul(items[1..], d);
    }
  }

  lemma ListTextWhole(items: seq<string>)
    requires Tokens.AllPlain(items, ';')
    ensures ListText(items) == Tokens.Joined(items, ';')
  {
    JoinedFreeOfNul(items, ';');
    IndexIs(Tokens.Joined(items, ';'), NUL, |Tokens.Joined(items, ';')|);
  }

  /** What reading the list gives, of a value of that text. */
  function ReadList(text: string, there: string): seq<string> {
    Tokens.Tokens(Buffered(text, there), ";")
  }

  /** A list that has been set is read back as it was exactly if its items are not empty
      and have no ";" and no NUL in them, and with a ";" for each they take less than the
      buffer; or the buffer exactly, if by chance nothing but ";" stands behind it. */
  lemma ReadBackIff(items: seq<string>, there: string)
    ensures ReadList(ListText(items), there) == items <==> Tokens.AllPlain(items, ';') && FitsBuffer(items, there)
  {
    hide ListText, Tokens.Tokens, Tokens.AllPlain, Tokens.Joined, UpTo;
    var text := ListText(items);
    var buf := Buffered(text, there);
    TokensFacts(buf);
    if Tokens.AllPlain(items, ';') {
      ListTextWhole(items);
      Tokens.TokensOfJoined(items, ';', "");
      Tokens.NoTokens(';');
      assert text + "" == text;
      Tokens.TokensOfJoined(items, ';', UpTo(there, NUL));
      assert items + Tokens.Tokens(UpTo(there, NUL), ";") == items <==> Tokens.Tokens(UpTo(there, NUL), ";") == [];
    }
  }

  /** Of a list of plain items that is too long, the items in its first 254 characters are
      read back, the last of them cut. */
  lemma CutRead(items: seq<string>, there: string)
    requires Tokens.AllPlain(items, ';') && |Tokens.Joined(items, ';')| > BUFFER
    ensures ReadList(ListText(items), there) == Tokens.Front(items, 254)
  {
    hide ListText, Tokens.Tokens, Tokens.AllPlain, Tokens.Joined, UpTo;
    ListTextWhole(items);
    Tokens.TokensOfFront(items, ';', 254);
  }

  predicate FitsBuffer(items: seq<string>, there: string) {
    var n := |Tokens.Joined(items, ';')|;
    n < BUFFER || (n == BUFFER && Tokens.Tokens(UpTo(there, NUL), ";") == [])
  }

  lemma TokensFacts(buf: string)
    ensures Tokens.AllPlain(Tokens.Tokens(buf, ";"), ';') && |Tokens.Joined(Tokens.Tokens(buf, ";"), ';')| <= |buf| + 1
  {
    Tokens.TokensPlain(buf, ';', 0);
    Tokens.TokensFit(buf, ';', 0);
  }

  /** Setting a list that is not refused makes it the value of its key. */
  lemma SetListThenGet(s: State, mine: string, other: string, items: seq<string>)
    requires Ready(s) && items != [] && Get(s.conf, s.cached, ENTRY_SECT, other) == None
    ensures var r := AfterSetList(s, mine, other, items);
      Get(r.conf, r.cached, ENTRY_SECT, mine) == Some(ListText(items))
  {
    hide Get, Set, ListText, CacheAfter;
    var a := AfterGet(s, ENTRY_SECT);
    SetThenGet(a.conf, a.cached, ENTRY_SECT, mine, ListText(items));
  }

  /** A setter that is refused leaves what both keys read as it was; one that is not leaves
      its own key with the list, and the other without a value. */
  lemma SetListReads(s: State, mine: string, other: string, items: seq<string>)
    requires Ready(s) && mine in {ONLY, NOT} && other in {ONLY, NOT} && mine != other
    ensures var r := AfterSetList(s, mine, other, items);
      var had := Get(s.conf, s.cached, ENTRY_SECT, other);
      && Get(r.conf, r.cached, ENTRY_SECT, other) == had
      && Get(r.conf, r.cached, ENTRY_SECT, mine) ==
        (if had.Some? || items == [] then Get(s.conf, s.cached, ENTRY_SECT, mine) else Some(ListText(items)))
      && (had.Some? || items == [] ==> r.conf == s.conf)
  {
    hide Get, Set, ListText, CacheAfter;
    SecondLook(s, ENTRY_SECT, mine);
    SecondLook(s, ENTRY_SECT, other);
    if Get(s.conf, s.cached, ENTRY_SECT, other) == None && items != [] {
      SetListThenGet(s, mine, other, items);
      OtherUntouched(AfterGet(s, ENTRY_SECT), mine, ListText(items), other);
    }
  }

  lemma NamesUnlike()
    ensures !Match(ONLY, NOT) && !Match(NOT, ONLY)
  {
    assert ONLY[0] == 'O' && NOT[0] == 'N';
  }

  lemma OtherUntouched(s: State, mine: string, value: string, other: string)
    requires Ready(s) && mine in {ONLY, NOT} && other in {ONLY, NOT} && mine != other
    requires Get(s.conf, s.cached, ENTRY_SECT, other) == None
    ensures var r := AfterSet(s, ENTRY_SECT, mine, value);
      Get(r.conf, r.cached, ENTRY_SECT, other) == None
  {
    hide Match, FindAt, Keys, Names, AddEntry, FindSection, ONLY, NOT, ENTRY_SECT;
    NamesUnlike();
    var a, i := AddSection(s.conf, s.cached, ENTRY_SECT), FindSection(s.conf, s.cached, ENTRY_SECT);
    var cached := CacheAfter(s.conf, s.cached, ENTRY_SECT);
    AddSectionFound(s.conf, s.cached, ENTRY_SECT);
    PutEntryFinds(a, i, mine, value, cached, ENTRY_SECT);
    AddEntryShape(a[i].entries, mine, value);
    var es := AddEntry(a[i].entries, mine, value);
    NothingFound(a[i].entries, mine, value, other);
  }

  lemma NothingFound(es: seq<Entry>, mine: string, value: string, other: string)
    requires FindAt(Keys(es), other) == |es| && !Match(mine, other)
    ensures FindAt(Keys(AddEntry(es, mine, value)), other) == |AddEntry(es, mine, value)|
  {
    hide Match, FindAt, Keys, AddEntry;
    var r := AddEntry(es, mine, value);
    AddEntryShape(es, mine, value);
    FindIs(Keys(r), other, |r|);
  }

  /** A new file has the one section, with the type alone. */
  lemma CreatedHolds(typ: string)
    ensures Created(typ).conf == [Sect(ENTRY_SECT, [Entry("Type", typ)])]
  {
    hide Match;
    assert Names([]) == [] && Keys([]) == [];
    assert FindAt([], ENTRY_SECT) == 0 && FindAt([], "Type") == 0;
    assert FindSection([], None, ENTRY_SECT) == 0;
    assert AddSection([], None, ENTRY_SECT) == [Sect(ENTRY_SECT, [])];
    assert AddEntry([], "Type", typ) == [Entry("Type", typ)];
  }

  /** Each item, also the last, is followed by a ";". */
  lemma ListShown()
    ensures ListText(["a", "b"]) == "a;b;"
  {
    Tokens.JoinedCons("a", ["b"], ';');
    Tokens.JoinedCons("b", [], ';');
    Tokens.NothingJoined(';');
    assert ["a"] + ["b"] == ["a", "b"] && ["b"] + [] == ["b"];
    var t := Tokens.Joined(["a", "b"], ';');
    assert t == "a;b;";
    IndexIs(t, NUL, 4);
  }

  // ---- the object

  datatype DeskError = Empty | Valid | Bad

  class DesktopFile {
    const config: Config.Config
    var errcode: DeskError

    constructor ()
      ensures config.Valid() && errcode == Empty && Now() == State([], None) && fresh(config)
    {
      config := new Config.Config();
      errcode := Empty;
    }

    ghost function Now(): (s: State)
      reads this, config, config.sectionList
      ensures Ready(s)
    {
      State(config.Contents(), config.Cached())
    }

    /** create_new, where typ is the name of one of the types. */
    method CreateNew(typ: string)
      requires config.Valid()
      modifies this`errcode, config, config.sectionList
      ensures config.Valid() && Now() == Created(typ) && errcode == DeskError.Valid
    {
      hide Set, CacheAfter, Config.Position, Sound;
      config.Clear();
      config.Set(ENTRY_SECT, "Type", typ);
      errcode := DeskError.Valid;
    }

    method SetOnlyShowIn(items: seq<string>)
      requires config.Valid()
      modifies config, config.sectionList
      ensures config.Valid()
      ensures errcode != Bad ==> Now() == AfterSetList(old(Now()), ONLY, NOT, items)
      ensures errcode == Bad ==> Now() == AfterGet(old(Now()), ENTRY_SECT)
    {
      hide Get, Set, CacheAfter, UpTo, Tokens.Joined;
      SetList(ONLY, NOT, items);
    }

    method SetNotShowIn(items: seq<string>)
      requires config.Valid()
      modifies config, config.sectionList
      ensures config.Valid()
      ensures errcode != Bad ==> Now() == AfterSetList(old(Now()), NOT, ONLY, items)
      ensures errcode == Bad ==> Now() == AfterGet(old(Now()), ENTRY_SECT)
    {
      hide Get, Set, CacheAfter, UpTo, Tokens.Joined;
      SetList(NOT, ONLY, items);
    }

    /** The two setters' body. */
    method SetList(mine: string, other: string, items: seq<string>)
      requires config.Valid()
      modifies config, config.sectionList
      ensures config.Valid()
      ensures errcode != Bad ==> Now() == AfterSetList(old(Now()), mine, other, items)
      ensures errcode == Bad ==> Now() == AfterGet(old(Now()), ENTRY_SECT)
    {
      hide Get, Set, CacheAfter, UpTo, Tokens.Joined, Config.Values, Config.Position, Distinct, Sound;
      var there := config.KeyExist(ENTRY_SECT, other);
      if there || items == [] || errcode == Bad {
        return;
      }
      var all := JoinItems(items);
      config.Set(ENTRY_SECT, mine, UpTo(all, NUL));
    }

    /** Setting OnlyShowIn and reading it: the list comes back exactly if its items are plain
        and it fits the buffer. */
    method SetAndShow(items: seq<string>, there: string) returns (ok: bool, lst: seq<string>)
      requires config.Valid() && errcode == DeskError.Valid && items != []
      requires Get(Now().conf, Now().cached, ENTRY_SECT, NOT) == None
      modifies config, config.sectionList
      ensures config.Valid() && ok
      ensures lst == items <==> Tokens.AllPlain(items, ';') && FitsBuffer(items, there)
    {
      hide Get, Set, CacheAfter, ReadList, ListText, FitsBuffer, Tokens.AllPlain, AfterSetList, Config.Values, Config.Position, Distinct, Sound;
      ghost var s := Now();
      SetListThenGet(s, ONLY, NOT, items);
      ReadBackIff(items, there);
      SetOnlyShowIn(items);
      ok, lst := ShowIn(ONLY, [], there);
    }

    /** The loop of the setters. */
    static method JoinItems(items: seq<string>) returns (all: string)
      ensures all == Tokens.Joined(items, ';')
    {
      hide Tokens.Joined;
      var i := 0;
      all := "";
      assert items[i..] == items;
      while i < |items|
        invariant i <= |items| && all + Tokens.Joined(items[i..], ';') == Tokens.Joined(items, ';')
      {
        Tokens.JoinedCons(items[i], items[i + 1..], ';');
        assert items[i..] == [items[i]] + items[i + 1..];
        all := all + items[i];
        all := all + [';'];
        i := i + 1;
      }
      assert items[i..] == [];
      Tokens.NothingJoined(';');
    }

    /** only_show_in and not_show_in, by their key, into a list; there is what the buffer held. */
    method ShowIn(key: string, list: seq<string>, there: string) returns (ok: bool, lst: seq<string>)
      requires config.Valid()
      modifies config`cached, config`errcode
      ensures config.Valid() && config.Contents() == old(config.Contents())
      ensures ok == (errcode == DeskError.Valid && Get(old(Now()).conf, old(Now()).cached, ENTRY_SECT, key).Some?)
      ensures lst == list + if ok then ReadList(Get(old(Now()).conf, old(Now()).cached, ENTRY_SECT, key).value, there) else []
    {
      hide Get, CacheAfter, UpTo, Buffered, Tokens.Tokens;
      if errcode != DeskError.Valid {
        return false, list;
      }
      var v := config.Get(ENTRY_SECT, key);
      if v == None {
        return false, list;
      }
      lst := Tokens.StringTok(list, Buffered(v.value, there), ";");
      return true, lst;
    }
  }
}
