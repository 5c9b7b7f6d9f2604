/** Config as values: sections found by hash and prefix, loading as a fold over lines,
    and exactly which configurations saving and loading restores. */
module ConfigModel {
  import opened Wrappers
  import opened ConfigText

  datatype Entry = Entry(key: string, value: string)
  datatype Sect = Sect(name: string, entries: seq<Entry>)
  type Conf = seq<Sect>

  // ---- lookup

  /** A char as it is added to the hash: sign-extended from eight bits. A Dafny
      character beyond those is no char of the source. */
  function CharBits(c: char): bv32 {
    if c as int >= 256 then 0
    else if c as int < 128 then (c as bv8) as bv32
    else (c as bv8) as bv32 | 0xFFFF_FF00
  }

  function Stir(h: bv32): bv32 {
    var h' := h + (h << 10);
    h' ^ (h' >> 6)
  }

  function Mix(h: bv32, c: char): bv32 {
    Stir(h + CharBits(c))
  }

  function HashState(s: string): bv32 {
    if s == "" then 0 else Mix(HashState(s[..|s| - 1]), s[|s| - 1])
  }

  function Finish(h: bv32): bv32 {
    var h' := h + (h << 3);
    var h'' := h' ^ (h' >> 11);
    h'' + (h'' << 15)
  }

  /** str_hash */
  function StrHash(s: string): bv32 {
    Finish(HashState(s))
  }

  /** The lookups' test: equal hashes, and the stored name's characters, that many of
      them, in the name looked for. */
  predicate Match(stored: string, wanted: string) {
    StrHash(stored) == StrHash(wanted) && stored <= wanted
  }

  lemma MatchReflexive(s: string)
    ensures Match(s, s)
  {
  }

  /** The first of the names that matches, or their number. */
  function FindAt(names: seq<string>, wanted: string): (i: nat)
    ensures i <= |names|
    ensures forall j :: 0 <= j < i ==> !Match(names[j], wanted)
    ensures i < |names| ==> Match(names[i], wanted)
  {
    hide Match;
    if names == [] || Match(names[0], wanted) then 0 else 1 + FindAt(names[1..], wanted)
  }

  lemma FindIs(names: seq<string>, wanted: string, i: nat)
    requires i <= |names| && (forall j :: 0 <= j < i ==> !Match(names[j], wanted)) && (i < |names| ==> Match(names[i], wanted))
    ensures FindAt(names, wanted) == i
  {
  }

  function Names(c: Conf): (r: seq<string>)
    ensures |r| == |c| && forall i :: 0 <= i < |c| ==> r[i] == c[i].name
  {
    if c == [] then [] else Names(c[..|c| - 1]) + [c[|c| - 1].name]
  }

  function Keys(es: seq<Entry>): (r: seq<string>)
    ensures |r| == |es| && forall i :: 0 <= i < |es| ==> r[i] == es[i].key
  {
    if es == [] then [] else Keys(es[..|es| - 1]) + [es[|es| - 1].key]
  }

  /** find_section: the cached section if it matches, else the first that does. */
  function FindSection(c: Conf, cached: Option<nat>, wanted: string): (i: nat)
    requires cached.Some? ==> cached.value < |c|
    ensures i <= |c|
    ensures i < |c| ==> Match(c[i].name, wanted)
    ensures i == |c| ==> forall j :: 0 <= j < |c| ==> !Match(c[j].name, wanted)
  {
    if cached.Some? && Match(c[cached.value].name, wanted) then cached.value else FindAt(Names(c), wanted)
  }

  /** No name is found under an earlier one: what adding only on a failed search leaves. */
  ghost predicate Ordered(names: seq<string>) {
    forall i, j :: 0 <= i < j < |names| ==> !Match(names[i], names[j])
  }

  /** No section hides behind another, nor any key behind another of its section. */
  ghost predicate Sound(c: Conf) {
    && Ordered(Names(c))
    && forall i :: 0 <= i < |c| ==> Ordered(Keys(c[i].entries))
  }

  /** add_entry */
  function AddEntry(es: seq<Entry>, key: string, value: string): seq<Entry> {
    var i := FindAt(Keys(es), key);
    if i < |es| then es[i := Entry(es[i].key, value)] else es + [Entry(key, value)]
  }

  /** add_section: the section found, or a new last one. */
  function AddSection(c: Conf, cached: Option<nat>, name: string): (r: Conf)
    requires cached.Some? ==> cached.value < |c|
    ensures FindSection(c, cached, name) < |r|
  {
    if FindSection(c, cached, name) < |c| then c else c + [Sect(name, [])]
  }

  /** What a lookup leaves cached. */
  function CacheAfter(c: Conf, cached: Option<nat>, name: string): Option<nat>
    requires cached.Some? ==> cached.value < |c|
  {
    var i := FindSection(c, cached, name);
    if i < |c| then Some(i) else cached
  }

  function PutEntry(c: Conf, i: nat, key: string, value: string): (r: Conf)
    requires i < |c|
    ensures |r| == |c|
  {
    c[i := Sect(c[i].name, AddEntry(c[i].entries, key, value))]
  }

  /** set */
  function Set(c: Conf, cached: Option<nat>, section: string, key: string, value: string): Conf
    requires cached.Some? ==> cached.value < |c|
  {
    PutEntry(AddSection(c, cached, section), FindSection(c, cached, section), key, value)
  }

  /** What the getters find before they convert it. */
  function Get(c: Conf, cached: Option<nat>, section: string, key: string): Option<string>
    requires cached.Some? ==> cached.value < |c|
  {
    var i := FindSection(c, cached, section);
    if i == |c| then None
    else
      var j := FindAt(Keys(c[i].entries), key);
      if j == |c[i].entries| then None else Some(c[i].entries[j].value)
  }

  lemma OrderedGrown(names: seq<string>, name: string)
    requires Ordered(names) && forall i :: 0 <= i < |names| ==> !Match(names[i], name)
    ensures Ordered(names + [name])
  {
    hide Match;
  }

  lemma NamesGrown(c: Conf, s: Sect)
    ensures Names(c + [s]) == Names(c) + [s.name]
  {
    assert (c + [s])[..|c|] == c;
  }

  lemma KeysGrown(es: seq<Entry>, e: Entry)
    ensures Keys(es + [e]) == Keys(es) + [e.key]
  {
    assert (es + [e])[..|es|] == es;
  }

  lemma AddSectionSound(c: Conf, cached: Option<nat>, name: string)
    requires Sound(c) && (cached.Some? ==> cached.value < |c|)
    ensures Sound(AddSection(c, cached, name))
  {
    hide Match, FindSection, Ordered, FindAt, Names, Keys;
    var r := AddSection(c, cached, name);
    if r != c {
      OrderedGrown(Names(c), name);
      NamesGrown(c, Sect(name, []));
      NoEntries();
    }
  }

  lemma AddEntryOrdered(es: seq<Entry>, k: string, v: string)
    requires Ordered(Keys(es))
    ensures Ordered(Keys(AddEntry(es, k, v)))
  {
    hide Match, Ordered, FindAt, Keys;
    var i, r := FindAt(Keys(es), k), AddEntry(es, k, v);
    if i < |es| {
      assert Keys(r) == Keys(es);
    } else {
      OrderedGrown(Keys(es), k);
      KeysGrown(es, Entry(k, v));
    }
  }

  lemma PutEntrySound(c: Conf, i: nat, key: string, value: string)
    requires Sound(c) && i < |c|
    ensures Sound(PutEntry(c, i, key, value))
  {
    hide Match, AddEntry, Ordered;
    AddEntryOrdered(c[i].entries, key, value);
    assert Names(PutEntry(c, i, key, value)) == Names(c);
  }

  // ---- loading

  /** Overrun stands for whatever happens once a buffer has been written past its end. */
  datatype Error = Success | NoFile | FileBad | SectionMissing | KeyMissing | Overrun

  /** cur is the section that entries go to; err stops the loop. */
  datatype Loading = Loading(conf: Conf, cached: Option<nat>, cur: Option<nat>, err: Error, lines: nat)

  predicate Indexed(st: Loading) {
    && (st.cached.Some? ==> st.cached.value < |st.conf|)
    && (st.cur.Some? ==> st.cur.value < |st.conf|)
  }

  /** What a line that has been counted does. */
  function Take(st: Loading, item: Item): (r: Loading)
    requires Indexed(st)
    ensures Indexed(r)
  {
    match item
    case Blank => st
    case BadSection => st.(err := FileBad)
    case LongSection => st.(err := Overrun)
    case Section(name) =>
      var i := FindSection(st.conf, st.cached, name);
      st.(conf := AddSection(st.conf, st.cached, name), cached := CacheAfter(st.conf, st.cached, name), cur := Some(i))
    case BadData => st.(err := if st.cur.None? then SectionMissing else FileBad)
    case LongData => st.(err := if st.cur.None? then SectionMissing else Overrun)
    case Data(k, v) =>
      if st.cur.None? then st.(err := SectionMissing)
      else st.(conf := PutEntry(st.conf, st.cur.value, k, v))
  }

  /** One line of the file; after an error no more is read. */
  function Step(st: Loading, item: Item): (r: Loading)
    requires Indexed(st)
    ensures Indexed(r)
  {
    if st.err != Success then st else Take(st.(lines := st.lines + 1), item)
  }

  const EMPTY: Loading := Loading([], None, None, Success, 0)

  function Run(st: Loading, lines: seq<string>): (r: Loading)
    requires Indexed(st)
    ensures Indexed(r)
  {
    if lines == [] then st else Step(Run(st, lines[..|lines| - 1]), Classify(lines[|lines| - 1]))
  }

  /** Config::load on the file's text. */
  function Load(text: string): (r: Loading)
    ensures Indexed(r)
  {
    Run(EMPTY, Lines(text))
  }

  // ---- saving

  function DataLines(es: seq<Entry>): seq<string> {
    if es == [] then [] else DataLines(es[..|es| - 1]) + [DataLine(es[|es| - 1].key, es[|es| - 1].value)]
  }

  function SectLines(s: Sect): seq<string> {
    [SectionLine(s.name)] + DataLines(s.entries)
  }

  /** The lines save writes: sections, set apart by blank lines. */
  function SaveLines(c: Conf): seq<string> {
    if c == [] then []
    else if |c| == 1 then SectLines(c[0])
    else SaveLines(c[..|c| - 1]) + [[NL]] + SectLines(c[|c| - 1])
  }

  function Save(c: Conf): string {
    Join(SaveLines(c))
  }

  lemma {:induction false} JoinAppend(a: seq<string>, b: seq<string>)
    ensures Join(a + b) == Join(a) + Join(b)
  {
    if a == [] {
      assert a + b == b;
    } else {
      assert (a + b)[0] == a[0] && (a + b)[1..] == a[1..] + b;
      JoinAppend(a[1..], b);
    }
  }

  lemma JoinOne(a: seq<string>, l: string)
    ensures Join(a + [l]) == Join(a) + l
  {
    JoinAppend(a, [l]);
    assert [l][1..] == [] && Join([l]) == l + Join([]);
  }

  lemma SaveEntry(es: seq<Entry>, j: nat)
    requires j < |es|
    ensures Join(DataLines(es[..j + 1])) == Join(DataLines(es[..j])) + DataLine(es[j].key, es[j].value)
  {
    hide DataLine, Join;
    assert es[..j + 1][..j] == es[..j];
    JoinOne(DataLines(es[..j]), DataLine(es[j].key, es[j].value));
  }

  function SectText(s: Sect): string {
    SectionLine(s.name) + Join(DataLines(s.entries))
  }

  lemma SectLinesText(s: Sect)
    ensures Join(SectLines(s)) == SectText(s)
  {
    hide SectionLine, DataLines;
    assert SectLines(s)[1..] == DataLines(s.entries);
  }

  /** What the turn for section i adds. */
  lemma SaveSect(c: Conf, i: nat)
    requires i < |c|
    ensures Save(c[..i + 1]) == Save(c[..i]) + (if i == 0 then "" else [NL]) + SectText(c[i])
  {
    hide SectText, SectLines, Join;
    SectLinesText(c[i]);
    assert c[..i + 1][..i] == c[..i];
    if i == 0 {
      assert c[..1] == [c[0]] && Join([]) == "" by {
        NothingJoined();
      }
    } else {
      JoinAppend(SaveLines(c[..i]) + [[NL]], SectLines(c[i]));
      JoinOne(SaveLines(c[..i]), [NL]);
    }
  }

  lemma SectTextShown()
    ensures SectText(Sect("a", [Entry("k", "v")])) == "[a]\nk=v\n"
    ensures SectText(Sect("b", [])) == "[b]\n"
  {
    hide Join;
    var es := [Entry("k", "v")];
    SaveEntry(es, 0);
    assert es[..0] == [] && es[..0 + 1] == es && DataLines([]) == [];
    NothingJoined();
    assert Join(DataLines(es)) == "k=v\n";
  }

  /** Two sections, one with an entry, as they are written. */
  lemma SavedShown()
    ensures Save([Sect("a", [Entry("k", "v")]), Sect("b", [])]) == "[a]\nk=v\n\n[b]\n"
  {
    SectTextShown();
    NothingSaved();
    hide SectText, Save;
    var c := [Sect("a", [Entry("k", "v")]), Sect("b", [])];
    SaveSect(c, 0);
    SaveSect(c, 1);
    assert c[..0] == [] && c[..0 + 1] == c[..1] && c[..1 + 1] == c;
  }

  lemma NothingSaved()
    ensures Save([]) == ""
  {
    NothingJoined();
  }

  lemma NothingJoined()
    ensures Join([]) == ""
  {
  }

  // ---- what can be saved and restored

  ghost predicate GoodEntries(es: seq<Entry>) {
    && (forall i :: 0 <= i < |es| ==> GoodKey(es[i].key) && Clean(es[i].value))
    && Ordered(Keys(es))
  }

  /** Names and keys trimmed, free of the delimiters and within the buffers; values
      trimmed and on one line; nothing found under something earlier. */
  ghost predicate Saveable(c: Conf) {
    && (forall i :: 0 <= i < |c| ==> GoodName(c[i].name) && GoodEntries(c[i].entries))
    && Ordered(Names(c))
  }

  lemma OrderedDistinct(names: seq<string>)
    requires Ordered(names)
    ensures forall i, j :: 0 <= i < j < |names| ==> names[i] != names[j]
  {
    forall i, j | 0 <= i < j < |names|
      ensures names[i] != names[j]
    {
      MatchReflexive(names[i]);
    }
  }

  lemma AddEntryGood(es: seq<Entry>, k: string, v: string)
    requires GoodEntries(es) && GoodKey(k) && Clean(v)
    ensures GoodEntries(AddEntry(es, k, v))
  {
    hide GoodKey, Clean, Match;
    var i, r := FindAt(Keys(es), k), AddEntry(es, k, v);
    if i < |es| {
      assert Keys(r) == Keys(es);
    } else {
      assert Keys(r) == Keys(es) + [k];
    }
  }

  lemma AddSectionSaveable(c: Conf, cached: Option<nat>, name: string)
    requires Saveable(c) && GoodName(name) && (cached.Some? ==> cached.value < |c|)
    ensures Saveable(AddSection(c, cached, name))
  {
    hide GoodName, Match, GoodEntries, FindSection, Ordered, Names, FindAt;
    NoEntries();
    if FindSection(c, cached, name) == |c| {
      NamesGrown(c, Sect(name, []));
      OrderedGrown(Names(c), name);
    }
  }

  lemma PutEntrySaveable(c: Conf, i: nat, k: string, v: string)
    requires Saveable(c) && GoodKey(k) && Clean(v) && i < |c|
    ensures Saveable(PutEntry(c, i, k, v))
  {
    hide GoodKey, GoodName, Clean, Match, GoodEntries, AddEntry, Ordered;
    AddEntryGood(c[i].entries, k, v);
    assert Names(PutEntry(c, i, k, v)) == Names(c);
  }

  lemma StepSaveable(st: Loading, item: Item)
    requires Indexed(st) && Saveable(st.conf) && GoodItem(item)
    ensures Saveable(Step(st, item).conf)
  {
    hide GoodKey, GoodName, Clean, Saveable, AddSection, PutEntry, FindSection, CacheAfter;
    if st.err == Success {
      match item
      case Section(name) => AddSectionSaveable(st.conf, st.cached, name);
      case Data(k, v) =>
        if st.cur.Some? {
          PutEntrySaveable(st.conf, st.cur.value, k, v);
        }
      case _ =>
    }
  }

  lemma NoEntries()
    ensures GoodEntries([]) && Ordered(Keys([]))
  {
  }

  lemma {:induction false} RunSaveable(lines: seq<string>)
    requires forall l :: l in lines ==> IsLine(l)
    ensures Saveable(Run(EMPTY, lines).conf)
  {
    hide Step, Classify, GoodItem;
    if lines == [] {
      assert Run(EMPTY, lines).conf == [];
    } else {
      RunSaveable(lines[..|lines| - 1]);
      ClassifyGood(lines[|lines| - 1]);
      StepSaveable(Run(EMPTY, lines[..|lines| - 1]), Classify(lines[|lines| - 1]));
    }
  }

  /** Whatever load puts in memory, from any text, can be saved and restored. */
  lemma LoadSaveable(text: string)
    ensures Saveable(Load(text).conf)
  {
    var rest := LinesOfText(text);
    RunSaveable(Lines(text));
  }

  // ---- loading what was saved

  lemma {:induction false} RunAppend(st: Loading, a: seq<string>, b: seq<string>)
    requires Indexed(st)
    ensures Run(st, a + b) == Run(Run(st, a), b)
  {
    hide Step, Classify;
    if b == [] {
      assert a + b == a;
    } else {
      var n := |b| - 1;
      assert (a + b)[..|a + b| - 1] == a + b[..n] && (a + b)[|a + b| - 1] == b[n];
      RunAppend(st, a, b[..n]);
    }
  }

  lemma {:induction false} RunStopped(st: Loading, lines: seq<string>)
    requires Indexed(st) && st.err != Success
    ensures Run(st, lines) == st
  {
    hide Classify;
    if lines != [] {
      RunStopped(st, lines[..|lines| - 1]);
    }
  }

  lemma RunOne(st: Loading, line: string)
    requires Indexed(st)
    ensures Run(st, [line]) == Step(st, Classify(line))
  {
    hide Step, Classify;
    assert [line][..0] == [];
  }

  lemma RunFirst(st: Loading, line: string, rest: seq<string>)
    requires Indexed(st)
    ensures Run(st, [line] + rest) == Run(Step(st, Classify(line)), rest)
  {
    hide Run, Step, Classify;
    RunAppend(st, [line], rest);
    RunOne(st, line);
  }

  /** An error ends the loading: the remaining lines are not read. */
  lemma RunEnds(st: Loading, rest: seq<string>)
    requires Indexed(st) && (st.err != Success || rest == [])
    ensures Run(st, rest) == st
  {
    if st.err != Success {
      RunStopped(st, rest);
    }
  }

  /** st with the entries es in its current section, which is the last and was empty. */
  ghost predicate Filled(st: Loading, es: seq<Entry>, r: Loading)
    requires st.conf != []
  {
    var n := |st.conf| - 1;
    r == st.(conf := st.conf[n := Sect(st.conf[n].name, es)], lines := st.lines + |es|)
  }

  lemma {:induction false} DataLinesLoad(st: Loading, es: seq<Entry>)
    requires Indexed(st) && st.err == Success && GoodEntries(es)
    requires st.conf != [] && st.conf[|st.conf| - 1].entries == [] && st.cur == Some(|st.conf| - 1)
    ensures Filled(st, es, Run(st, DataLines(es)))
  {
    hide Filled, Step, GoodEntries, Classify, DataLine, GoodKey, Clean;
    if es == [] {
      NothingFilled(st);
    } else {
      var m := |es| - 1;
      FrontGood(es);
      DataLinesLoad(st, es[..m]);
      LastGood(es);
      DataLineBack(es[m].key, es[m].value);
      NewEntry(es);
      assert DataLines(es)[..|DataLines(es)| - 1] == DataLines(es[..m]);
      FilledFurther(st, es, Run(st, DataLines(es[..m])));
    }
  }

  lemma NothingFilled(st: Loading)
    requires st.conf != [] && st.conf[|st.conf| - 1].entries == []
    ensures Filled(st, [], st)
  {
    var n := |st.conf| - 1;
    assert st.conf[n := Sect(st.conf[n].name, [])] == st.conf;
  }

  lemma FilledFurther(st: Loading, es: seq<Entry>, mid: Loading)
    requires Indexed(st) && Indexed(mid) && st.err == Success && st.conf != [] && st.cur == Some(|st.conf| - 1) && es != []
    requires Filled(st, es[..|es| - 1], mid) && AddEntry(es[..|es| - 1], es[|es| - 1].key, es[|es| - 1].value) == es
    ensures Filled(st, es, Step(mid, Data(es[|es| - 1].key, es[|es| - 1].value)))
  {
    hide AddEntry, FindSection, AddSection, CacheAfter;
    var n := |st.conf| - 1;
    assert mid.conf[n := Sect(st.conf[n].name, es)] == st.conf[n := Sect(st.conf[n].name, es)];
  }

  lemma LastGood(es: seq<Entry>)
    requires GoodEntries(es) && es != []
    ensures GoodKey(es[|es| - 1].key) && Clean(es[|es| - 1].value)
  {
  }

  lemma FrontGood(es: seq<Entry>)
    requires GoodEntries(es) && es != []
    ensures GoodEntries(es[..|es| - 1])
  {
    assert Keys(es[..|es| - 1]) == Keys(es)[..|es| - 1];
  }

  lemma NewEntry(es: seq<Entry>)
    requires GoodEntries(es) && es != []
    ensures AddEntry(es[..|es| - 1], es[|es| - 1].key, es[|es| - 1].value) == es
  {
    hide Match;
    var n := |es| - 1;
    assert Keys(es[..n]) == Keys(es)[..n];
    FindIs(Keys(es[..n]), es[n].key, n);
    assert es == es[..n] + [Entry(es[n].key, es[n].value)];
  }

  /** A loading that has restored c and would go on. */
  ghost predicate Restored(c: Conf, r: Loading) {
    r.conf == c && r.err == Success && r.cached == None
  }

  lemma FilledIs(st: Loading, es: seq<Entry>, r: Loading)
    requires st.conf != [] && Filled(st, es, r)
    ensures r.conf == st.conf[|st.conf| - 1 := Sect(st.conf[|st.conf| - 1].name, es)] && r.err == st.err && r.cached == st.cached
  {
  }

  lemma NamesFront(c: Conf)
    requires c != []
    ensures Names(c[..|c| - 1]) == Names(c)[..|c| - 1]
  {
  }

  lemma SectLinesLoad(st: Loading, c: Conf)
    requires Saveable(c) && c != [] && Indexed(st) && Restored(c[..|c| - 1], st)
    ensures Restored(c, Run(st, SectLines(c[|c| - 1])))
  {
    hide GoodEntries, Classify, SectionLine, DataLine, DataLines, Match, FindAt, Names, Run, Filled, GoodName;
    var n := |c| - 1;
    var t := c[n];
    SectionLineBack(t.name);
    RunOne(st, SectionLine(t.name));
    RunAppend(st, [SectionLine(t.name)], DataLines(t.entries));
    NamesFront(c);
    FindIs(Names(st.conf), t.name, n);
    var s := Step(st, Section(t.name));
    assert s.conf == c[..n] + [Sect(t.name, [])] && s.cur == Some(n);
    DataLinesLoad(s, t.entries);
    FilledIs(s, t.entries, Run(s, DataLines(t.entries)));
    assert s.conf[n := t] == c;
  }

  lemma FrontSaveable(c: Conf)
    requires Saveable(c) && c != []
    ensures Saveable(c[..|c| - 1])
  {
    assert Names(c[..|c| - 1]) == Names(c)[..|c| - 1];
  }

  lemma {:induction false} SaveLinesLoad(c: Conf)
    requires Saveable(c)
    ensures Restored(c, Run(EMPTY, SaveLines(c)))
  {
    hide Saveable, Classify, SectLines, Step;
    if c != [] {
      var n := |c| - 1;
      FrontSaveable(c);
      SaveLinesLoad(c[..n]);
      var st := Run(EMPTY, SaveLines(c[..n]));
      if n == 0 {
        assert c[..0] == [] && SaveLines(c) == SectLines(c[0]);
        SectLinesLoad(EMPTY, c);
      } else {
        RunAppend(EMPTY, SaveLines(c[..n]), [[NL]]);
        RunOne(st, [NL]);
        BlankKeeps(st);
        RunAppend(EMPTY, SaveLines(c[..n]) + [[NL]], SectLines(c[n]));
        SectLinesLoad(Run(EMPTY, SaveLines(c[..n]) + [[NL]]), c);
      }
    }
  }

  lemma BlankKeeps(st: Loading)
    requires Indexed(st) && st.err == Success
    ensures Step(st, Classify([NL])) == st.(lines := st.lines + 1)
  {
    BlankLineBack();
  }

  lemma {:induction false} DataLinesAreLines(es: seq<Entry>)
    requires GoodEntries(es)
    ensures forall l :: l in DataLines(es) ==> IsLine(l)
  {
    hide GoodEntries, DataLine, IsLine;
    if es != [] {
      FrontGood(es);
      DataLinesAreLines(es[..|es| - 1]);
      LastGood(es);
      DataLineBack(es[|es| - 1].key, es[|es| - 1].value);
    }
  }

  lemma {:induction false} SaveLinesAreLines(c: Conf)
    requires Saveable(c)
    ensures forall l :: l in SaveLines(c) ==> IsLine(l)
  {
    hide GoodEntries, SectionLine, IsLine, GoodName;
    if c != [] {
      var n := |c| - 1;
      FrontSaveable(c);
      SaveLinesAreLines(c[..n]);
      SectionLineBack(c[n].name);
      DataLinesAreLines(c[n].entries);
      BlankLineBack();
    }
  }

  /** Load accepts the text and has exactly c in memory. */
  ghost predicate Restores(text: string, c: Conf) {
    Load(text).err == Success && Load(text).conf == c
  }

  /** Exactly the saveable configurations are restored by loading what save writes. */
  lemma RestoredIffSaveable(c: Conf)
    ensures Restores(Save(c), c) <==> Saveable(c)
  {
    hide Saveable, SaveLines, Run;
    if Saveable(c) {
      SaveLinesAreLines(c);
      LinesOfJoin(SaveLines(c));
      SaveLinesLoad(c);
    }
    if Restores(Save(c), c) {
      LoadSaveable(Save(c));
    }
  }

  // ---- where loading stops, and why

  /** One of these lines names a section. */
  predicate Opened(lines: seq<string>) {
    exists i :: 0 <= i < |lines| && Classify(lines[i]).Section?
  }

  /** Line k is one that loading goes on after, if it gets there. */
  predicate Passes(lines: seq<string>, k: nat)
    requires k < |lines|
  {
    var i := Classify(lines[k]);
    i.Blank? || i.Section? || (i.Data? && Opened(lines[..k]))
  }

  /** Line k has a section's name that is too long, or such a key behind some section. */
  predicate TooLong(lines: seq<string>, k: nat)
    requires k < |lines|
  {
    Classify(lines[k]).LongSection? || (Classify(lines[k]).LongData? && Opened(lines[..k]))
  }

  /** Line k opens a section and does not close it, or has no "=" behind some section. */
  predicate Malformed(lines: seq<string>, k: nat)
    requires k < |lines|
  {
    Classify(lines[k]).BadSection? || (Classify(lines[k]).BadData? && Opened(lines[..k]))
  }

  /** Line k is meant for a section, and there is none before it. */
  predicate Homeless(lines: seq<string>, k: nat)
    requires k < |lines|
  {
    var i := Classify(lines[k]);
    (i.Data? || i.LongData? || i.BadData?) && !Opened(lines[..k])
  }

  /** The first line that loading does not go on after, or the number of lines. */
  function Stop(lines: seq<string>): (k: nat)
    ensures k <= |lines|
    ensures forall j :: 0 <= j < k ==> Passes(lines, j)
    ensures k < |lines| ==> !Passes(lines, k)
  {
    hide Classify, Opened;
    if lines == [] then 0
    else
      var n := |lines| - 1;
      var k := Stop(lines[..n]);
      assert forall j :: 0 <= j < n ==> Passes(lines[..n], j) == Passes(lines, j) by {
        PassesFront(lines, n);
      }
      if k < n then k else if Passes(lines, n) then n + 1 else n
  }

  lemma PassesFront(lines: seq<string>, n: nat)
    requires n <= |lines|
    ensures forall j :: 0 <= j < n ==> Passes(lines[..n], j) == Passes(lines, j)
  {
    hide Opened;
    forall j | 0 <= j < n
      ensures Passes(lines[..n], j) == Passes(lines, j)
    {
      assert lines[..n][..j] == lines[..j];
    }
  }

  lemma ReasonFront(lines: seq<string>, n: nat, k: nat)
    requires k < n <= |lines|
    ensures TooLong(lines[..n], k) == TooLong(lines, k)
    ensures Malformed(lines[..n], k) == Malformed(lines, k)
    ensures Homeless(lines[..n], k) == Homeless(lines, k)
  {
    assert lines[..n][..k] == lines[..k];
  }

  lemma OpenedSnoc(lines: seq<string>, n: nat)
    requires |lines| == n + 1
    ensures Opened(lines) <==> Opened(lines[..n]) || Classify(lines[n]).Section?
  {
    hide Classify;
    if Opened(lines[..n]) {
      var i :| 0 <= i < n && Classify(lines[..n][i]).Section?;
      assert Classify(lines[i]).Section?;
    }
    if i :| 0 <= i < |lines| && Classify(lines[i]).Section? && i < n {
      assert lines[..n][i] == lines[i];
    }
  }

  /** What the next line does to a loading that has come to it. */
  lemma LineTells(st: Loading, lines: seq<string>, n: nat)
    requires Indexed(st) && n < |lines| && st.err == Success && (st.cur.Some? <==> Opened(lines[..n]))
    ensures var r := Step(st, Classify(lines[n]));
      && (r.err == Success <==> Passes(lines, n))
      && (r.err == Overrun <==> TooLong(lines, n))
      && (r.err == FileBad <==> Malformed(lines, n))
      && (r.err == SectionMissing <==> Homeless(lines, n))
      && r.lines == st.lines + 1
      && (r.err == Success ==> (r.cur.Some? <==> Opened(lines[..n]) || Classify(lines[n]).Section?))
  {
    hide Opened, Classify, FindSection, AddSection, PutEntry, CacheAfter;
  }

  /** What the lines alone tell of loading them: whether it comes to its end, what stops it
      otherwise, the number of the line it has come to, and whether there is a section to put
      entries in. */
  lemma {:induction false} RunGoesOn(lines: seq<string>)
    ensures var r, k := Run(EMPTY, lines), Stop(lines);
      && (r.err == Success <==> k == |lines|)
      && (r.err == Overrun <==> k < |lines| && TooLong(lines, k))
      && (r.err == FileBad <==> k < |lines| && Malformed(lines, k))
      && (r.err == SectionMissing <==> k < |lines| && Homeless(lines, k))
      && r.lines == (if k < |lines| then k + 1 else k)
    ensures Run(EMPTY, lines).err == Success ==> (Run(EMPTY, lines).cur.Some? <==> Opened(lines))
  {
    hide Opened, Classify, Passes, TooLong, Malformed, Homeless, Step;
    if lines == [] {
      NothingRead();
    } else {
      var n := |lines| - 1;
      var st, k := Run(EMPTY, lines[..n]), Stop(lines[..n]);
      RunGoesOn(lines[..n]);
      if k < n {
        ReasonFront(lines, n, k);
        RunOne(st, lines[n]);
        RunStopped(st, [lines[n]]);
      } else {
        LineTells(st, lines, n);
        OpenedSnoc(lines, n);
        if Passes(lines, n) {
          ReasonsApart(lines, n);
        }
      }
    }
  }

  lemma ReasonsApart(lines: seq<string>, k: nat)
    requires k < |lines| && Passes(lines, k)
    ensures !TooLong(lines, k) && !Malformed(lines, k) && !Homeless(lines, k)
  {
    hide Classify, Opened;
  }

  lemma NothingRead()
    ensures Stop([]) == 0 && !Opened([]) && Run(EMPTY, []) == EMPTY
  {
  }

  /** Loading stops at a name or key that overruns its buffer. */
  predicate Overruns(lines: seq<string>) {
    Stop(lines) < |lines| && TooLong(lines, Stop(lines))
  }

  /** For every text without such a line: loading, saving and loading again gives what the
      first load gave. */
  lemma LoadSaveLoad(text: string)
    ensures !Overruns(Lines(text)) ==> Load(text).err != Overrun
    ensures !Overruns(Lines(text)) ==> Restores(Save(Load(text).conf), Load(text).conf)
  {
    RunGoesOn(Lines(text));
    LoadSaveable(text);
    RestoredIffSaveable(Load(text).conf);
  }

  /** A text that overruns: a section's name of as many characters as its buffer has. */
  lemma OverrunShown(name: string)
    requires |name| == SECTION_MAX && Clean(name) && ']' !in name
    ensures Overruns(Lines(SectionLine(name))) && Load(SectionLine(name)).err == Overrun
  {
    hide Run;
    var line := SectionLine(name);
    LongName(name);
    LinesOfJoin([line]);
    JoinOne([], line);
    NothingJoined();
    assert [] + [line] == [line] && Join([line]) == line;
    FirstLong(line);
    RunGoesOn([line]);
  }

  lemma FirstLong(line: string)
    requires Classify(line).LongSection?
    ensures Stop([line]) == 0 && TooLong([line], 0)
  {
    assert [line][0] == line;
  }
}
