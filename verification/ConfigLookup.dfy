/** When looking a section up by hash and prefix, with a cached section, finds the
    section of that name. */
module ConfigLookup {
  import opened Wrappers
  import opened ConfigModel

  /** Where a scan for the very name would end. */
  function ExactAt(names: seq<string>, wanted: string): (i: nat)
    ensures i <= |names|
    ensures forall j :: 0 <= j < i ==> names[j] != wanted
    ensures i < |names| ==> names[i] == wanted
  {
    if names == [] || names[0] == wanted then 0 else 1 + ExactAt(names[1..], wanted)
  }

  /** wanted properly extends a stored name and hashes the same. */
  predicate Collides(stored: string, wanted: string) {
    stored != wanted && Match(stored, wanted)
  }

  /** The scan is exact for a name unless a name stored before it collides with it. */
  lemma ScanExactIff(names: seq<string>, wanted: string)
    ensures FindAt(names, wanted) == ExactAt(names, wanted) <==>
      forall i :: 0 <= i < ExactAt(names, wanted) ==> !Collides(names[i], wanted)
  {
    hide Match;
    var e, f := ExactAt(names, wanted), FindAt(names, wanted);
    MatchReflexive(wanted);
    if e < |names| {
      assert Match(names[e], wanted);
    }
  }

  lemma HashNext(s: string, c: char, t: string, h: bv32)
    requires t == s + [c] && Mix(HashState(s), c) == h
    ensures HashState(t) == h
  {
    assert t[..|s|] == s;
  }

  lemma FooMixes()
    ensures Mix(0, 't') == 0x0001d735 && Mix(0x0001d735, 'h') == 0x077dcab3
    ensures Mix(0x077dcab3, 'i') == 0xfd5093f0 && Mix(0xfd5093f0, 's') == 0x3f5ca8e2
    ensures Mix(0x3f5ca8e2, ' ') == 0xb0c8b3c6 && Mix(0xb0c8b3c6, 'i') == 0xd0d715ef
    ensures Mix(0xd0d715ef, 's') == 0x2d845c1b && Mix(0x2d845c1b, ' ') == 0x3e0e9d1b
    ensures Mix(0x3e0e9d1b, 'f') == 0x7966b307 && Mix(0x7966b307, 'o') == 0x1464595b
    ensures Mix(0x1464595b, 'o') == 0xa75cafcd
  {
    hide CharBits;
    FooLetters();
  }

  lemma FooLetters()
    ensures CharBits('t') == 116 && CharBits('h') == 104 && CharBits('i') == 105 && CharBits('s') == 115
    ensures CharBits(' ') == 32 && CharBits('f') == 102 && CharBits('o') == 111
  {
  }

  lemma Finished()
    ensures Finish(0xa75cafcd) == 362178160 && Finish(0) == 0
  {
  }

  /** The values that the repository's test has for the hash. */
  lemma HashShown()
    ensures StrHash("this is foo") == 362178160 && StrHash("") == 0
  {
    FooMixes();
    Finished();
    hide Mix, Finish;
    HashNext("", 't', "t", 0x0001d735);
    HashNext("t", 'h', "th", 0x077dcab3);
    HashNext("th", 'i', "thi", 0xfd5093f0);
    HashNext("thi", 's', "this", 0x3f5ca8e2);
    HashNext("this", ' ', "this ", 0xb0c8b3c6);
    HashNext("this ", 'i', "this i", 0xd0d715ef);
    HashNext("this i", 's', "this is", 0x2d845c1b);
    HashNext("this is", ' ', "this is ", 0x3e0e9d1b);
    HashNext("this is ", 'f', "this is f", 0x7966b307);
    HashNext("this is f", 'o', "this is fo", 0x1464595b);
    HashNext("this is fo", 'o', "this is foo", 0xa75cafcd);
  }

  /** The two names collide: "arwoxek" leads the hash back to the state it had after "a". */
  lemma ACollision()
    ensures Collides("a", "arwoxek")
  {
    Mixes();
    hide Mix;
    HashNext("", 'a', "a", 0x00018270);
    HashNext("a", 'r', "ar", 0x06153ec9);
    HashNext("ar", 'w', "arw", 0x5a7e77bd);
    HashNext("arw", 'o', "arwo", 0x550e548c);
    HashNext("arwo", 'x', "arwox", 0x8c5bec90);
    HashNext("arwox", 'e', "arwoxe", 0xfffffff6);
    HashNext("arwoxe", 'k', "arwoxek", 0x00018270);
  }

  lemma Letters()
    ensures CharBits('a') == 97 && CharBits('r') == 114 && CharBits('w') == 119 && CharBits('o') == 111
    ensures CharBits('x') == 120 && CharBits('e') == 101 && CharBits('k') == 107
  {
  }

  lemma Mixes()
    ensures Mix(0, 'a') == 0x00018270 && Mix(0x00018270, 'r') == 0x06153ec9
    ensures Mix(0x06153ec9, 'w') == 0x5a7e77bd && Mix(0x5a7e77bd, 'o') == 0x550e548c
    ensures Mix(0x550e548c, 'x') == 0x8c5bec90 && Mix(0x8c5bec90, 'e') == 0xfffffff6
    ensures Mix(0xfffffff6, 'k') == 0x00018270
  {
    hide CharBits;
    Letters();
  }

  /** Neither a prefix alone nor a longer stored name passes the test. */
  lemma NoCollision()
    ensures !Match("a", "ar") && !Match("arwoxek", "a")
  {
    Mixes();
    HashesApart();
    hide Mix, Finish;
    HashNext("", 'a', "a", 0x00018270);
    HashNext("a", 'r', "ar", 0x06153ec9);
    assert |"arwoxek"| > |"a"|;
  }

  lemma HashesApart()
    ensures Finish(0x00018270) != Finish(0x06153ec9)
  {
  }

  /** A character beyond the first 128 is added as the negative number that a char is then. */
  lemma SignShown()
    ensures HashState("\U{E9}") == 0xfc005d66
  {
    assert CharBits('\U{E9}') == 0xFFFF_FFE9;
    assert Mix(0, '\U{E9}') == 0xfc005d66;
    hide Mix;
    HashNext("", '\U{E9}', "\U{E9}", 0xfc005d66);
  }

  /** So a lookup can find a section that does not have that name... */
  lemma ScanCanBeWrong()
    ensures FindAt(["a"], "arwoxek") != ExactAt(["a"], "arwoxek")
  {
    ACollision();
  }

  /** ...and saving can write a file that loading does not restore. */
  lemma SaveCanLose()
    ensures var c := [Sect("a", []), Sect("arwoxek", [])];
      !Restores(Save(c), c)
  {
    var c := [Sect("a", []), Sect("arwoxek", [])];
    ACollision();
    RestoredIffSaveable(c);
    assert Names(c)[0] == "a" && Names(c)[1] == "arwoxek";
  }

  /** With the two sections in the other order, looking up the one leaves cached what is then
      found for the other. */
  lemma CacheShown()
    ensures var c := [Sect("arwoxek", []), Sect("a", [])];
      && FindSection(c, None, "arwoxek") == 0
      && FindSection(c, CacheAfter(c, None, "a"), "arwoxek") == 1
  {
    hide Match;
    var c := [Sect("arwoxek", []), Sect("a", [])];
    ACollision();
    MatchReflexive("a");
    MatchReflexive("arwoxek");
    assert Names(c) == ["arwoxek", "a"];
    NoCollision();
    FindIs(Names(c), "arwoxek", 0);
    FindIs(Names(c), "a", 1);
  }

  ghost predicate CollisionFree(c: Conf) {
    forall i, j :: 0 <= i < |c| && 0 <= j < |c| ==> !Collides(c[i].name, c[j].name)
  }

  ghost predicate CacheTransparent(c: Conf) {
    forall k: nat, wanted :: k < |c| ==> FindSection(c, Some(k), wanted) == FindSection(c, None, wanted)
  }

  /** Two stored names that both match one wanted are both its prefixes. */
  lemma BothMatch(a: string, b: string, wanted: string)
    requires Match(a, wanted) && Match(b, wanted) && a != b
    ensures Collides(a, b) || Collides(b, a)
  {
    hide StrHash;
    if |a| <= |b| {
      assert a <= b;
    } else {
      assert b <= a;
    }
  }

  lemma CollisionOrder(names: seq<string>, i: nat, j: nat)
    requires Ordered(names) && i < |names| && j < |names| && Collides(names[i], names[j])
    ensures j < i
  {
    hide Match;
  }

  lemma DistinctAt(names: seq<string>, i: nat, j: nat)
    requires Ordered(names) && i < j < |names|
    ensures names[i] != names[j]
  {
    hide Match;
    MatchReflexive(names[i]);
  }

  lemma CacheHarmless(c: Conf, k: nat, wanted: string)
    requires Ordered(Names(c)) && CollisionFree(c) && k < |c|
    ensures FindSection(c, Some(k), wanted) == FindSection(c, None, wanted)
  {
    hide Match, Collides, Ordered, FindAt, Names;
    var names := Names(c);
    var f := FindAt(names, wanted);
    if Match(names[k], wanted) && f != k {
      DistinctAt(names, f, k);
      BothMatch(names[f], names[k], wanted);
    }
  }

  lemma CacheHarms(c: Conf, i: nat, j: nat)
    requires Ordered(Names(c)) && i < |c| && j < |c| && Collides(c[i].name, c[j].name)
    ensures FindSection(c, Some(i), c[j].name) != FindSection(c, None, c[j].name)
  {
    hide Match, Ordered, FindAt, Names;
    var names := Names(c);
    CollisionOrder(names, i, j);
    MatchReflexive(names[j]);
    assert FindAt(names, names[j]) <= j;
  }

  /** The cached section never changes an answer, exactly when no name in memory
      collides with another. */
  lemma CacheTransparentIff(c: Conf)
    requires Ordered(Names(c))
    ensures CacheTransparent(c) <==> CollisionFree(c)
  {
    hide Ordered, Names, Collides, FindSection;
    if CollisionFree(c) {
      forall k: nat, wanted | k < |c|
        ensures FindSection(c, Some(k), wanted) == FindSection(c, None, wanted)
      {
        CacheHarmless(c, k, wanted);
      }
    } else {
      var i: nat, j: nat :| i < |c| && j < |c| && Collides(c[i].name, c[j].name);
      CacheHarms(c, i, j);
    }
  }

  // ---- one lookup, whatever is cached

  ghost predicate NoneCollides(names: seq<string>, wanted: string) {
    forall i :: 0 <= i < |names| ==> !Collides(names[i], wanted)
  }

  ghost predicate AlwaysExact(c: Conf, wanted: string) {
    && FindSection(c, None, wanted) == ExactAt(Names(c), wanted)
    && forall k: nat :: k < |c| ==> FindSection(c, Some(k), wanted) == ExactAt(Names(c), wanted)
  }

  lemma ExactWhenNone(names: seq<string>, wanted: string)
    requires NoneCollides(names, wanted)
    ensures FindAt(names, wanted) == ExactAt(names, wanted)
  {
    ScanExactIff(names, wanted);
  }

  /** find_section answers for the very name whatever is cached, exactly when no name in
      memory collides with the one wanted. */
  lemma LookupExactIff(c: Conf, wanted: string)
    requires Ordered(Names(c))
    ensures AlwaysExact(c, wanted) <==> NoneCollides(Names(c), wanted)
  {
    hide Match, Ordered, FindAt, Names, ExactAt;
    var names := Names(c);
    if NoneCollides(names, wanted) {
      ExactWhenNone(names, wanted);
      forall k: nat | k < |c|
        ensures FindSection(c, Some(k), wanted) == ExactAt(names, wanted)
      {
        var e := ExactAt(names, wanted);
        if Match(names[k], wanted) && e < k {
          DistinctAt(names, e, k);
        }
      }
    } else {
      var i: nat :| i < |names| && Collides(names[i], wanted);
      assert FindSection(c, Some(i), wanted) == i;
    }
  }

  // ---- setting and getting

  /** The value that a list of entries has for a key. */
  function EntryAt(es: seq<Entry>, key: string): Option<string> {
    var j := ExactAt(Keys(es), key);
    if j == |es| then None else Some(es[j].value)
  }

  /** A configuration as a map from section and key to value. */
  function ExactGet(c: Conf, section: string, key: string): Option<string> {
    var i := ExactAt(Names(c), section);
    if i == |c| then None else EntryAt(c[i].entries, key)
  }

  /** No section collides with this name, nor any key with this one in its section. */
  ghost predicate Unambiguous(c: Conf, section: string, key: string) {
    && NoneCollides(Names(c), section)
    && forall i :: 0 <= i < |c| && c[i].name == section ==> NoneCollides(Keys(c[i].entries), key)
  }

  lemma GetIsExact(c: Conf, cached: Option<nat>, section: string, key: string)
    requires Sound(c) && (cached.Some? ==> cached.value < |c|) && Unambiguous(c, section, key)
    ensures Get(c, cached, section, key) == ExactGet(c, section, key)
  {
    hide Match, Ordered, FindAt, Names, Keys, ExactAt, NoneCollides, FindSection;
    LookupExactIff(c, section);
    var i := ExactAt(Names(c), section);
    if i < |c| {
      ExactWhenNone(Keys(c[i].entries), key);
    }
  }

  lemma AddEntryShape(es: seq<Entry>, key: string, value: string)
    ensures var i, r := FindAt(Keys(es), key), AddEntry(es, key, value);
      && Keys(r) == (if i < |es| then Keys(es) else Keys(es) + [key])
      && i < |r| && r[i].value == value
      && forall n :: 0 <= n < |es| && n != i ==> r[n] == es[n]
  {
    hide Match, FindAt;
  }

  lemma AddEntryFound(es: seq<Entry>, key: string, value: string)
    ensures var r := AddEntry(es, key, value);
      var j := FindAt(Keys(r), key);
      j < |r| && r[j].value == value
  {
    hide Match, FindAt, Keys, AddEntry;
    var i, r := FindAt(Keys(es), key), AddEntry(es, key, value);
    MatchReflexive(key);
    AddEntryShape(es, key, value);
    FindIs(Keys(r), key, i);
  }

  lemma AddSectionFound(c: Conf, cached: Option<nat>, name: string)
    requires cached.Some? ==> cached.value < |c|
    ensures var r := AddSection(c, cached, name);
      FindSection(r, CacheAfter(c, cached, name), name) == FindSection(c, cached, name)
  {
    hide Match;
    var i, r := FindSection(c, cached, name), AddSection(c, cached, name);
    MatchReflexive(name);
    if i == |c| {
      FindIs(Names(r), name, i);
    }
  }

  lemma PutEntryNames(c: Conf, i: nat, key: string, value: string)
    requires i < |c|
    ensures Names(PutEntry(c, i, key, value)) == Names(c)
  {
    hide AddEntry, Names;
    var r := PutEntry(c, i, key, value);
    assert forall k :: 0 <= k < |c| ==> r[k].name == c[k].name;
    assert forall k :: 0 <= k < |c| ==> Names(r)[k] == Names(c)[k];
  }

  lemma PutEntryFinds(c: Conf, i: nat, key: string, value: string, cached: Option<nat>, name: string)
    requires i < |c| && (cached.Some? ==> cached.value < |c|)
    ensures FindSection(PutEntry(c, i, key, value), cached, name) == FindSection(c, cached, name)
  {
    hide Match, AddEntry, FindAt, Names;
    PutEntryNames(c, i, key, value);
  }

  /** What has just been set is what is got, collisions or not. */
  lemma SetThenGet(c: Conf, cached: Option<nat>, section: string, key: string, value: string)
    requires cached.Some? ==> cached.value < |c|
    ensures Get(Set(c, cached, section, key, value), CacheAfter(c, cached, section), section, key) == Some(value)
  {
    hide Match, AddEntry, FindAt, Names, Keys, FindSection;
    var a, i := AddSection(c, cached, section), FindSection(c, cached, section);
    AddSectionFound(c, cached, section);
    PutEntryFinds(a, i, key, value, CacheAfter(c, cached, section), section);
    AddEntryFound(a[i].entries, key, value);
  }

  lemma ExactIs(names: seq<string>, wanted: string, i: nat)
    requires i <= |names| && (forall j :: 0 <= j < i ==> names[j] != wanted) && (i < |names| ==> names[i] == wanted)
    ensures ExactAt(names, wanted) == i
  {
  }

  lemma AddEntryUpdates(es: seq<Entry>, key: string, value: string, k: string)
    requires NoneCollides(Keys(es), key)
    ensures EntryAt(AddEntry(es, key, value), k) == if k == key then Some(value) else EntryAt(es, k)
  {
    hide Match, FindAt, NoneCollides, Keys, AddEntry, ExactAt;
    var i, j, r := ExactAt(Keys(es), key), ExactAt(Keys(es), k), AddEntry(es, key, value);
    ExactWhenNone(Keys(es), key);
    AddEntryShape(es, key, value);
    if i == |es| {
      ExactIs(Keys(r), k, if k == key then i else if j == |es| then |r| else j);
    }
  }

  lemma AddSectionGets(c: Conf, cached: Option<nat>, section: string, s: string, k: string)
    requires cached.Some? ==> cached.value < |c|
    ensures ExactGet(AddSection(c, cached, section), s, k) == ExactGet(c, s, k)
  {
    hide Match, FindSection;
    var r, e := AddSection(c, cached, section), ExactAt(Names(c), s);
    if r != c {
      ExactIs(Names(r), s, if e < |c| then e else if s == section then |c| else |r|);
    }
  }

  lemma PutEntryUpdates(c: Conf, i: nat, key: string, value: string, s: string, k: string)
    requires i < |c| && i == ExactAt(Names(c), c[i].name) && NoneCollides(Keys(c[i].entries), key)
    ensures ExactGet(PutEntry(c, i, key, value), s, k) ==
      if s == c[i].name && k == key then Some(value) else ExactGet(c, s, k)
  {
    hide Match, FindAt, NoneCollides, AddEntry, ExactAt, EntryAt, Keys, Names;
    PutEntryNames(c, i, key, value);
    AddEntryUpdates(c[i].entries, key, value, k);
  }

  /** set is the map's update at that section and key, when neither collides. */
  lemma SetIsUpdate(c: Conf, cached: Option<nat>, section: string, key: string, value: string, s: string, k: string)
    requires Sound(c) && (cached.Some? ==> cached.value < |c|) && Unambiguous(c, section, key)
    ensures ExactGet(Set(c, cached, section, key, value), s, k) ==
      if s == section && k == key then Some(value) else ExactGet(c, s, k)
  {
    hide Match, FindAt, Names, Keys, FindSection, AddEntry, ExactAt, NoneCollides, ExactGet, Ordered;
    var a, i := AddSection(c, cached, section), FindSection(c, cached, section);
    LookupExactIff(c, section);
    AddSectionGets(c, cached, section, s, k);
    if i == |c| {
      ExactIs(Names(a), section, i);
      NoKeys(key);
    }
    PutEntryUpdates(a, i, key, value, s, k);
  }

  lemma NoKeys(key: string)
    ensures NoneCollides(Keys([]), key)
  {
  }
}
