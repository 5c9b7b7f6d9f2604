/** Config itself: the list of sections, the cached one, and the counters. */
module Config {
  import opened Wrappers
  import opened ConfigText
  import opened ConfigModel
  import opened ConfigScan

  class ConfigSection {
    const sname: string
    var entries: seq<Entry>

    function Value(): Sect
      reads this
    {
      Sect(sname, entries)
    }

    constructor (n: string)
      ensures sname == n && entries == []
    {
      sname := n;
      entries := [];
    }

    method FindEntry(key: string) returns (i: nat)
      ensures i == FindAt(Keys(entries), key)
    {
      hide Match, FindAt, Keys;
      i := 0;
      while i < |entries| && !Match(entries[i].key, key)
        invariant i <= |entries|
        invariant forall j :: 0 <= j < i ==> !Match(Keys(entries)[j], key)
      {
        i := i + 1;
      }
      FindIs(Keys(entries), key, i);
    }

    /** add_entry */
    method Add(key: string, value: string)
      modifies this
      ensures entries == AddEntry(old(entries), key, value)
    {
      hide Match, FindAt, Keys;
      var i := FindEntry(key);
      if i == |entries| {
        entries := entries + [Entry(key, value)];
      } else {
        entries := entries[i := Entry(entries[i].key, value)];
      }
    }
  }

  ghost function Values(ss: seq<ConfigSection>): (c: Conf)
    reads ss
    ensures |c| == |ss| && forall i :: 0 <= i < |ss| ==> c[i] == ss[i].Value()
  {
    if ss == [] then [] else Values(ss[..|ss| - 1]) + [ss[|ss| - 1].Value()]
  }

  lemma DistinctGrown(ss: seq<ConfigSection>, s: ConfigSection)
    requires Distinct(ss) && s !in ss
    ensures Distinct(ss + [s])
  {
  }

  /** Where s is in the list. */
  ghost function Position(ss: seq<ConfigSection>, s: ConfigSection?): (p: Option<nat>)
    ensures p.Some? ==> p.value < |ss| && ss[p.value] == s
    ensures p.None? ==> forall i :: 0 <= i < |ss| ==> ss[i] != s
  {
    if ss == [] then None
    else if ss[|ss| - 1] == s then Some(|ss| - 1)
    else Position(ss[..|ss| - 1], s)
  }

  lemma PositionIs(ss: seq<ConfigSection>, s: ConfigSection, i: nat)
    requires Distinct(ss) && i < |ss| && ss[i] == s
    ensures Position(ss, s) == Some(i)
  {
  }

  lemma PositionKept(ss: seq<ConfigSection>, n: ConfigSection, s: ConfigSection?)
    requires s != n
    ensures Position(ss + [n], s) == Position(ss, s)
  {
    assert (ss + [n])[..|ss|] == ss;
  }

  class Config {
    var errcode: Error
    var linenum: nat
    var sectnum: nat
    var cached: ConfigSection?
    var sectionList: seq<ConfigSection>

    ghost predicate Valid()
      reads this, sectionList
    {
      && Distinct(sectionList)
      && sectnum == |sectionList|
      && (cached != null ==> cached in sectionList)
      && Sound(Contents())
    }

    ghost function Contents(): Conf
      reads this, sectionList
    {
      Values(sectionList)
    }

    ghost function Cached(): Option<nat>
      reads this
    {
      Position(sectionList, cached)
    }

    /** A loading's state, with tsect the section that entries go to. */
    ghost function State(tsect: ConfigSection?): (st: Loading)
      reads this, sectionList
      ensures Indexed(st)
    {
      Loading(Contents(), Cached(), Position(sectionList, tsect), errcode, linenum)
    }

    constructor ()
      ensures Valid() && Contents() == [] && cached == null && errcode == Success && linenum == 0
    {
      errcode, linenum, sectnum, cached, sectionList := Success, 0, 0, null, [];
    }

    method Clear()
      modifies this
      ensures Valid() && sectionList == [] && cached == null && errcode == Success && linenum == 0
    {
      sectionList := [];
      errcode, linenum, sectnum, cached := Success, 0, 0, null;
    }

    /** find_section */
    method FindSection(section: string) returns (s: ConfigSection?)
      requires Valid()
      modifies this`cached
      ensures Valid()
      ensures var i := ConfigModel.FindSection(Contents(), old(Cached()), section);
        if i < |sectionList| then s == sectionList[i] && cached == s && Cached() == Some(i)
        else s == null && cached == old(cached)
    {
      hide Match, FindAt, Names, Sound, Values, Distinct;
      if cached != null && Match(cached.sname, section) {
        return cached;
      }
      var it := 0;
      while it < |sectionList|
        invariant it <= |sectionList|
        invariant forall j :: 0 <= j < it ==> !Match(Names(Contents())[j], section)
      {
        if Match(sectionList[it].sname, section) {
          FindIs(Names(Contents()), section, it);
          cached := sectionList[it];
          PositionIs(sectionList, cached, it);
          return cached;
        }
        it := it + 1;
      }
      FindIs(Names(Contents()), section, it);
      return null;
    }

    lemma Grown(s: ConfigSection)
      requires Valid()
      ensures Values(sectionList + [s]) == Contents() + [s.Value()]
    {
      assert (sectionList + [s])[..|sectionList|] == sectionList;
    }

    /** add_section */
    method AddSection(section: string) returns (s: ConfigSection)
      requires Valid()
      modifies this
      ensures Valid() && errcode == old(errcode) && linenum == old(linenum)
      ensures old(sectionList) <= sectionList && fresh(sectionList[|old(sectionList)|..])
      ensures Contents() == ConfigModel.AddSection(old(Contents()), old(Cached()), section)
      ensures Cached() == ConfigModel.CacheAfter(old(Contents()), old(Cached()), section)
      ensures Position(sectionList, s) == Some(ConfigModel.FindSection(old(Contents()), old(Cached()), section))
    {
      hide Match, FindAt, Names, Sound, ConfigModel.FindSection, Values, Position, Distinct;
      AddSectionSound(Contents(), Cached(), section);
      var found := FindSection(section);
      if found != null {
        PositionIs(sectionList, found, ConfigModel.FindSection(Contents(), old(Cached()), section));
        return found;
      }
      s := new ConfigSection(section);
      Grown(s);
      DistinctGrown(sectionList, s);
      PositionKept(sectionList, s, cached);
      sectnum := sectnum + 1;
      sectionList := sectionList + [s];
      PositionIs(sectionList, s, |sectionList| - 1);
    }

    /** add_entry on a section of this */
    method Put(s: ConfigSection, key: string, value: string)
      requires Valid() && s in sectionList
      modifies s
      ensures Valid()
      ensures Contents() == PutEntry(old(Contents()), Position(sectionList, s).value, key, value)
    {
      hide Match, FindAt, Names, Sound, AddEntry;
      ghost var i := Position(sectionList, s).value;
      PutEntrySound(Contents(), i, key, value);
      s.Add(key, value);
      assert Contents() == PutEntry(old(Contents()), i, key, value);
    }

    /** set */
    method Set(section: string, key: string, value: string)
      requires Valid()
      modifies this, sectionList
      ensures Valid() && errcode == old(errcode) && linenum == old(linenum)
      ensures Contents() == ConfigModel.Set(old(Contents()), old(Cached()), section, key, value)
      ensures Cached() == ConfigModel.CacheAfter(old(Contents()), old(Cached()), section)
    {
      hide Match, FindAt, Names, Sound, AddEntry, ConfigModel.FindSection, ConfigModel.AddSection, Values;
      var s := AddSection(section);
      assert sectionList == old(sectionList) + sectionList[|old(sectionList)|..];
      Put(s, key, value);
    }

    /** key_exist */
    method KeyExist(section: string, key: string) returns (exist: bool)
      requires Valid()
      modifies this`cached
      ensures Valid() && Contents() == old(Contents())
      ensures exist == ConfigModel.Get(Contents(), old(Cached()), section, key).Some?
      ensures Cached() == ConfigModel.CacheAfter(Contents(), old(Cached()), section)
    {
      hide Match, FindAt, Names, Keys, Sound, ConfigModel.FindSection, Values, Position;
      var cs := FindSection(section);
      if cs == null {
        return false;
      }
      var i := cs.FindEntry(key);
      return i < |cs.entries|;
    }

    /** The getters, up to the conversion of the value found. */
    method Get(section: string, key: string) returns (value: Option<string>)
      requires Valid()
      modifies this`cached, this`errcode
      ensures Valid() && Contents() == old(Contents())
      ensures value == ConfigModel.Get(Contents(), old(Cached()), section, key)
      ensures Cached() == ConfigModel.CacheAfter(Contents(), old(Cached()), section)
      ensures errcode == if value.Some? then old(errcode)
        else if ConfigModel.FindSection(Contents(), old(Cached()), section) == |Contents()| then SectionMissing
        else KeyMissing
    {
      hide Match, FindAt, Names, Keys, Sound, ConfigModel.FindSection, Values, Position;
      var cs := FindSection(section);
      if cs == null {
        errcode := SectionMissing;
        return None;
      }
      var i := cs.FindEntry(key);
      if i == |cs.entries| {
        errcode := KeyMissing;
        return None;
      }
      return Some(cs.entries[i].value);
    }

    /** load's branch for a line that begins with "[". */
    method TakeSection(line: string, tsect: ConfigSection?) returns (r: ConfigSection?)
      requires Valid() && (tsect != null ==> tsect in sectionList)
      modifies this
      ensures Valid() && (r != null ==> r in sectionList)
      ensures old(sectionList) <= sectionList && fresh(sectionList[|old(sectionList)|..])
      ensures State(r) == Take(old(State(tsect)), ScanSection(line))
    {
      hide Match, Sound, FindAt, Names, ConfigModel.FindSection, ConfigModel.AddSection, Values, Distinct,
        CacheAfter, ScanSection, Position;
      var item := ReadSection(line);
      SectionItems(line);
      if !item.Section? {
        errcode := if item.BadSection? then FileBad else Overrun;
        return tsect;
      }
      r := AddSection(item.name);
    }

    /** load's branch for any other line that is not blank. */
    method TakeData(line: string, tsect: ConfigSection?)
      requires Valid() && (tsect != null ==> tsect in sectionList)
      modifies this`errcode, sectionList
      ensures Valid()
      ensures State(tsect) == Take(old(State(tsect)), ScanKeyValues(line))
    {
      hide Match, Sound, FindAt, Names, Values, Distinct, PutEntry, ScanKeyValues, Position;
      DataItems(line);
      if tsect == null {
        errcode := SectionMissing;
        return;
      }
      var item := ReadKeyValue(line);
      if !item.Data? {
        errcode := if item.BadData? then FileBad else Overrun;
        return;
      }
      Put(tsect, item.key, item.value);
    }

    /** One turn of load's loop; r is the section that entries go to next. */
    method TakeLine(line: string, tsect: ConfigSection?) returns (r: ConfigSection?)
      requires Valid() && errcode == Success && (tsect != null ==> tsect in sectionList)
      modifies this, sectionList
      ensures Valid() && (r != null ==> r in sectionList)
      ensures old(sectionList) <= sectionList && fresh(sectionList[|old(sectionList)|..])
      ensures State(r) == Step(old(State(tsect)), Classify(line))
    {
      hide Match, Sound, Values, Distinct, ScanSection, ScanKeyValues, Position, TrimLeft, UpTo, Take;
      BlankTaken(tsect);
      linenum := linenum + 1;
      var bufp := EatSpaces(UpTo(line, NUL));
      r := tsect;
      if bufp == "" || bufp[0] == '#' {
        return;
      }
      if bufp[0] == '[' {
        r := TakeSection(bufp[1..], tsect);
      } else {
        TakeData(bufp, tsect);
      }
    }

    lemma SectionItems(line: string)
      ensures var i := ScanSection(line); i.Section? || i.BadSection? || i.LongSection?
    {
    }

    lemma DataItems(line: string)
      ensures var i := ScanKeyValues(line); i.Data? || i.BadData? || i.LongData?
    {
    }

    lemma BlankTaken(tsect: ConfigSection?)
      ensures Take(State(tsect).(lines := linenum + 1), Blank) == State(tsect).(lines := linenum + 1)
    {
    }

    /** load's loop, on a cleared Config. */
    method ReadLines(text: string)
      requires Valid() && sectionList == [] && cached == null && errcode == Success && linenum == 0
      modifies this
      ensures Valid() && fresh(sectionList)
      ensures var r := ConfigModel.Load(text);
        errcode == r.err && Contents() == r.conf && linenum == r.lines && Cached() == r.cached
    {
      hide Sound, Step, Run, Lines, Classify, Values, Position, Distinct, Indexed, Valid;
      var tsect: ConfigSection?, at := null, 0;
      var buf, next := GetLine(text, 0);
      Started(tsect);
      while buf.Some? && errcode == Success
        invariant at <= next <= |text|
        invariant Valid() && (tsect != null ==> tsect in sectionList) && fresh(sectionList)
        invariant Run(State(tsect), Lines(text[at..])) == ConfigModel.Load(text)
        invariant buf.None? ==> Lines(text[at..]) == []
        invariant buf.Some? ==> at < next && Lines(text[at..]) == [buf.value] + Lines(text[next..])
        decreases |text| - at
      {
        RunFirst(State(tsect), buf.value, Lines(text[next..]));
        ghost var before := sectionList;
        tsect := TakeLine(buf.value, tsect);
        assert sectionList == before + sectionList[|before|..];
        at := next;
        buf, next := GetLine(text, at);
      }
      RunEnds(State(tsect), Lines(text[at..]));
    }

    /** load; None is a file that cannot be opened. */
    method Load(text: Option<string>) returns (ok: bool)
      requires Valid()
      modifies this
      ensures Valid() && fresh(sectionList)
      ensures text == None ==> !ok && errcode == NoFile && Contents() == []
      ensures text.Some? ==> var r := ConfigModel.Load(text.value);
        ok == (r.err == Success) && errcode == r.err && Contents() == r.conf && linenum == r.lines && Cached() == r.cached
    {
      hide Sound, ConfigModel.Load, Position, Distinct;
      Clear();
      if text == None {
        errcode := NoFile;
        return false;
      }
      ReadLines(text.value);
      return errcode == Success;
    }

    lemma Started(tsect: ConfigSection?)
      requires sectionList == [] && cached == null && errcode == Success && linenum == 0
      ensures State(tsect) == EMPTY
    {
    }

    /** save's output; a blank line follows each section but the last. */
    method Save() returns (f: string)
      requires Valid()
      ensures f == ConfigModel.Save(Contents())
    {
      hide Valid, Values, ConfigModel.Save, SectText, SectionLine, DataLine, DataLines, Join;
      var it, sz := 0, |sectionList|;
      f := "";
      NothingSaved();
      while it < |sectionList|
        invariant it <= |sectionList| && it + sz == |sectionList|
        invariant f == ConfigModel.Save(Contents()[..it]) + if 0 < it < |sectionList| then [NL] else ""
      {
        SaveSect(Contents(), it);
        var s := sectionList[it];
        var part := SaveSection(s);
        f := f + part;
        if sz != 1 {
          f := f + [NL];
        }
        it, sz := it + 1, sz - 1;
      }
      assert Contents()[..it] == Contents();
    }

    /** save's inner loop */
    static method SaveSection(s: ConfigSection) returns (f: string)
      ensures f == SectText(s.Value())
    {
      hide SectionLine, DataLine, DataLines, Join;
      f := SectionLine(s.sname);
      NothingInIt();
      var e := 0;
      assert s.entries[..0] == [];
      while e < |s.entries|
        invariant e <= |s.entries| && f == SectionLine(s.sname) + Join(DataLines(s.entries[..e]))
      {
        SaveEntry(s.entries, e);
        f := f + DataLine(s.entries[e].key, s.entries[e].value);
        e := e + 1;
      }
      assert s.entries[..e] == s.entries;
    }
  }

  lemma NothingInIt()
    ensures Join(DataLines([])) == ""
  {
  }

  /** What save writes, loaded into a new Config, is accepted and gives the same sections
      and entries exactly when the contents are saveable. */
  method SaveAndLoad(a: Config) returns (b: Config, ok: bool)
    requires a.Valid()
    ensures b.Valid() && fresh(b)
    ensures ok && b.Contents() == a.Contents() <==> Saveable(a.Contents())
  {
    hide Saveable, ConfigModel.Save, ConfigModel.Load, Sound, Values, Distinct;
    var f := a.Save();
    b := new Config();
    RestoredIffSaveable(a.Contents());
    ok := b.Load(Some(f));
  }
}
