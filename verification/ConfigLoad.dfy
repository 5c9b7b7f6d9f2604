/** What loading a text puts in memory: for each section and key the last value that the
    text gives it. */
module ConfigLoad {
  import opened Wrappers
  import opened ConfigText
  import opened ConfigModel
  import opened ConfigLookup

  /** The last section that these lines name. */
  function Under(lines: seq<string>): Option<string> {
    if lines == [] then None
    else
      match Classify(lines[|lines| - 1])
      case Section(name) => Some(name)
      case _ => Under(lines[..|lines| - 1])
  }

  /** The last value that these lines give the key in the section. */
  function Given(lines: seq<string>, section: string, key: string): Option<string> {
    if lines == [] then None
    else
      var rest := lines[..|lines| - 1];
      var i := Classify(lines[|lines| - 1]);
      if i.Data? && i.key == key && Under(rest) == Some(section) then Some(i.value) else Given(rest, section, key)
  }

  ghost predicate NamesSection(lines: seq<string>, name: string) {
    exists i :: 0 <= i < |lines| && Classify(lines[i]) == Section(name)
  }

  ghost predicate HasKey(lines: seq<string>, key: string) {
    exists i :: 0 <= i < |lines| && Classify(lines[i]).Data? && Classify(lines[i]).key == key
  }

  /** No two names of sections collide, nor two keys. */
  ghost predicate NoClash(lines: seq<string>) {
    && (forall s, t :: NamesSection(lines, s) && NamesSection(lines, t) ==> !Collides(s, t))
    && (forall k, l :: HasKey(lines, k) && HasKey(lines, l) ==> !Collides(k, l))
  }

  /** st is what these lines come to. */
  ghost predicate Holds(st: Loading, lines: seq<string>) {
    && Indexed(st) && Sound(st.conf)
    && (forall i :: 0 <= i < |st.conf| ==> NamesSection(lines, st.conf[i].name) && KeysFrom(st.conf[i].entries, lines))
    && (forall s :: NamesSection(lines, s) ==> s in Names(st.conf))
    && (if st.cur.Some? then Under(lines) == Some(st.conf[st.cur.value].name) else Under(lines) == None)
    && (forall s, k :: ExactGet(st.conf, s, k) == Given(lines, s, k))
  }

  ghost predicate KeysFrom(es: seq<Entry>, lines: seq<string>) {
    forall j :: 0 <= j < |es| ==> HasKey(lines, es[j].key)
  }

  // ---- one more line

  lemma SectionSnoc(lines: seq<string>, n: nat)
    requires |lines| == n + 1
    ensures forall s :: NamesSection(lines, s) <==> NamesSection(lines[..n], s) || Classify(lines[n]) == Section(s)
  {
    hide Classify;
    forall s | NamesSection(lines[..n], s)
      ensures NamesSection(lines, s)
    {
      var i :| 0 <= i < n && Classify(lines[..n][i]) == Section(s);
      assert Classify(lines[i]) == Section(s);
    }
    forall s | NamesSection(lines, s) && Classify(lines[n]) != Section(s)
      ensures NamesSection(lines[..n], s)
    {
      var i :| 0 <= i < |lines| && Classify(lines[i]) == Section(s);
      assert lines[..n][i] == lines[i];
    }
  }

  lemma KeySnoc(lines: seq<string>, n: nat)
    requires |lines| == n + 1
    ensures forall k :: HasKey(lines[..n], k) ==> HasKey(lines, k)
    ensures Classify(lines[n]).Data? ==> HasKey(lines, Classify(lines[n]).key)
  {
    hide Classify;
    forall k | HasKey(lines[..n], k)
      ensures HasKey(lines, k)
    {
      var i :| 0 <= i < n && Classify(lines[..n][i]).Data? && Classify(lines[..n][i]).key == k;
      assert Classify(lines[i]).Data? && Classify(lines[i]).key == k;
    }
  }

  lemma FrontClash(lines: seq<string>, n: nat)
    requires |lines| == n + 1 && NoClash(lines)
    ensures NoClash(lines[..n])
  {
    hide Collides, NamesSection, HasKey;
    SectionSnoc(lines, n);
    KeySnoc(lines, n);
  }

  lemma MoreKeys(es: seq<Entry>, lines: seq<string>, n: nat)
    requires |lines| == n + 1 && KeysFrom(es, lines[..n])
    ensures KeysFrom(es, lines)
  {
    hide HasKey;
    KeySnoc(lines, n);
  }

  lemma NoKeysYet(lines: seq<string>)
    ensures KeysFrom([], lines)
  {
  }

  /** A line that names a section finds it, or makes it. */
  lemma TakesSection(st: Loading, lines: seq<string>, n: nat, name: string)
    requires |lines| == n + 1 && NoClash(lines) && Holds(st, lines[..n]) && st.err == Success
    requires Classify(lines[n]) == Section(name)
    ensures Holds(Step(st, Section(name)), lines)
  {
    hide Collides, NamesSection, HasKey, Classify, Match, FindSection, ExactGet, Sound, KeysFrom, Names, NoneCollides;
    var r := Step(st, Section(name));
    SectionSnoc(lines, n);
    assert NamesSection(lines, name);
    NamesApart(st.conf, lines, name);
    SoundNames(st.conf);
    LookupExactIff(st.conf, name);
    var i := FindSection(st.conf, st.cached, name);
    assert st.cached.Some? ==> st.cached == Some(st.cached.value);
    assert i == ExactAt(Names(st.conf), name);
    AddSectionSound(st.conf, st.cached, name);
    NoKeysYet(lines);
    if r.conf != st.conf {
      NamesGrown(st.conf, Sect(name, []));
    }
    assert r.conf[i].name == name;
    assert Under(lines) == Some(name);
    forall s | NamesSection(lines, s)
      ensures s in Names(r.conf)
    {
    }
    forall i | 0 <= i < |r.conf|
      ensures NamesSection(lines, r.conf[i].name) && KeysFrom(r.conf[i].entries, lines)
    {
      if i < |st.conf| {
        MoreKeys(st.conf[i].entries, lines, n);
      }
    }
    forall s, k
      ensures ExactGet(r.conf, s, k) == Given(lines, s, k)
    {
      AddSectionGets(st.conf, st.cached, name, s, k);
    }
  }

  lemma SoundNames(c: Conf)
    requires Sound(c)
    ensures Ordered(Names(c))
  {
  }

  lemma NamesApart(c: Conf, lines: seq<string>, name: string)
    requires NoClash(lines) && NamesSection(lines, name)
    requires forall i :: 0 <= i < |c| ==> NamesSection(lines, c[i].name)
    ensures NoneCollides(Names(c), name)
  {
    hide Collides, NamesSection, HasKey;
  }

  lemma KeysApart(es: seq<Entry>, lines: seq<string>, key: string)
    requires NoClash(lines) && HasKey(lines, key) && KeysFrom(es, lines)
    ensures NoneCollides(Keys(es), key)
  {
    hide Collides, NamesSection, HasKey;
  }

  lemma AddedKeys(es: seq<Entry>, lines: seq<string>, key: string, value: string)
    requires KeysFrom(es, lines) && HasKey(lines, key)
    ensures KeysFrom(AddEntry(es, key, value), lines)
  {
    hide HasKey, Match, FindAt;
  }

  /** Sections are apart, so that each is where its own name is found. */
  lemma AtItsName(c: Conf, i: nat)
    requires Sound(c) && i < |c|
    ensures i == ExactAt(Names(c), c[i].name)
  {
    hide Match;
    OrderedDistinct(Names(c));
  }

  /** A line with a key and a value gives the key that value in the current section. */
  lemma TakesData(st: Loading, lines: seq<string>, n: nat, key: string, value: string)
    requires |lines| == n + 1 && NoClash(lines) && Holds(st, lines[..n]) && st.err == Success && st.cur.Some?
    requires Classify(lines[n]) == Data(key, value)
    ensures Holds(Step(st, Data(key, value)), lines)
  {
    hide Collides, NamesSection, HasKey, Classify, Match, ExactGet, Sound, KeysFrom, Names, NoneCollides, AddEntry;
    var r, i := Step(st, Data(key, value)), st.cur.value;
    SectionSnoc(lines, n);
    KeySnoc(lines, n);
    PutEntrySound(st.conf, i, key, value);
    PutEntryNames(st.conf, i, key, value);
    AtItsName(st.conf, i);
    MoreKeys(st.conf[i].entries, lines, n);
    KeysApart(st.conf[i].entries, lines, key);
    AddedKeys(st.conf[i].entries, lines, key, value);
    forall j | 0 <= j < |r.conf|
      ensures NamesSection(lines, r.conf[j].name) && KeysFrom(r.conf[j].entries, lines)
    {
      MoreKeys(st.conf[j].entries, lines, n);
    }
    forall s, k
      ensures ExactGet(r.conf, s, k) == Given(lines, s, k)
    {
      PutEntryUpdates(st.conf, i, key, value, s, k);
    }
  }

  lemma TakesBlank(st: Loading, lines: seq<string>, n: nat)
    requires |lines| == n + 1 && Holds(st, lines[..n]) && st.err == Success
    requires Classify(lines[n]) == Blank
    ensures Holds(Step(st, Blank), lines)
  {
    hide Collides, NamesSection, HasKey, Classify, Match, ExactGet, Sound, KeysFrom, Names;
    SectionSnoc(lines, n);
    forall i | 0 <= i < |st.conf|
      ensures KeysFrom(st.conf[i].entries, lines)
    {
      MoreKeys(st.conf[i].entries, lines, n);
    }
  }

  lemma HoldsNothing()
    ensures Holds(EMPTY, [])
  {
  }

  /** Loading lines that it goes on after. */
  lemma {:induction false} RunHolds(lines: seq<string>)
    requires Stop(lines) == |lines| && NoClash(lines)
    ensures Holds(Run(EMPTY, lines), lines)
  {
    hide NoClash, Holds, Classify, Passes, Step, Opened;
    if lines == [] {
      HoldsNothing();
    } else {
      var n := |lines| - 1;
      var st := Run(EMPTY, lines[..n]);
      FrontClash(lines, n);
      PassesFront(lines, n);
      RunHolds(lines[..n]);
      RunGoesOn(lines[..n]);
      PassingItem(lines, n);
      var i := Classify(lines[n]);
      if i.Section? {
        TakesSection(st, lines, n, i.name);
      } else if i.Data? {
        TakesData(st, lines, n, i.key, i.value);
      } else {
        TakesBlank(st, lines, n);
      }
    }
  }

  lemma PassingItem(lines: seq<string>, k: nat)
    requires k < |lines| && Passes(lines, k)
    ensures var i := Classify(lines[k]);
      i.Blank? || i.Section? || (i.Data? && Opened(lines[..k]))
  {
  }

  /** Loading any text whose names and keys do not collide: the sections are those named
      before it stops, and each key has the last value that it was given there. */
  lemma LoadIsGiven(text: string, section: string, key: string)
    requires NoClash(Lines(text)[..Stop(Lines(text))])
    ensures var lines := Lines(text)[..Stop(Lines(text))];
      && ExactGet(Load(text).conf, section, key) == Given(lines, section, key)
      && (section in Names(Load(text).conf) <==> NamesSection(lines, section))
  {
    hide NoClash, Classify, ExactGet, Given, NamesSection, Step, Run;
    var all := Lines(text);
    var k := Stop(all);
    PassesFront(all, k);
    StopsThere(all[..k]);
    RunHolds(all[..k]);
    ConfAtStop(all);
    HeldNames(Run(EMPTY, all[..k]), all[..k], section, key);
  }

  lemma StopsThere(lines: seq<string>)
    requires forall j :: 0 <= j < |lines| ==> Passes(lines, j)
    ensures Stop(lines) == |lines|
  {
    hide Passes;
  }

  lemma HeldNames(st: Loading, lines: seq<string>, section: string, key: string)
    requires Holds(st, lines)
    ensures ExactGet(st.conf, section, key) == Given(lines, section, key)
    ensures section in Names(st.conf) <==> NamesSection(lines, section)
  {
    hide NamesSection, Sound, KeysFrom, ExactGet, Given;
  }

  /** The line that stops it adds nothing. */
  lemma ConfAtStop(lines: seq<string>)
    ensures Run(EMPTY, lines).conf == Run(EMPTY, lines[..Stop(lines)]).conf
  {
    hide Classify, Passes, Step, Run, Opened;
    var k := Stop(lines);
    if k == |lines| {
      assert lines[..k] == lines;
    } else {
      var st := Run(EMPTY, lines[..k]);
      PassesFront(lines, k);
      StopsThere(lines[..k]);
      RunGoesOn(lines[..k]);
      LineTells(st, lines, k);
      StepFails(st, Classify(lines[k]));
      assert lines == lines[..k] + ([lines[k]] + lines[k + 1..]);
      RunAppend(EMPTY, lines[..k], [lines[k]] + lines[k + 1..]);
      RunFirst(st, lines[k], lines[k + 1..]);
      RunStopped(Step(st, Classify(lines[k])), lines[k + 1..]);
    }
  }

  lemma StepFails(st: Loading, item: Item)
    requires Indexed(st) && st.err == Success && Step(st, item).err != Success
    ensures Step(st, item).conf == st.conf
  {
  }
}
