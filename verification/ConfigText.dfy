/** The text side of edelib's Config: lines, trimming, and the two scanners. */
module ConfigText {
  const NUL: char := '\0'
  const NL: char := '\n'
  const SECTION_MAX: nat := 128
  const KEY_MAX: nat := 128

  /** isspace in the C locale */
  predicate IsSpace(c: char) {
    c == ' ' || (9 <= c as int <= 13)
  }

  /** The position of the first c, or |s|. */
  function IndexOf(s: string, c: char): (i: nat)
    ensures i <= |s|
    ensures forall j :: 0 <= j < i ==> s[j] != c
    ensures i < |s| ==> s[i] == c
  {
    if s == "" || s[0] == c then 0 else 1 + IndexOf(s[1..], c)
  }

  lemma IndexIs(s: string, c: char, i: nat)
    requires i <= |s| && (forall j :: 0 <= j < i ==> s[j] != c) && (i < |s| ==> s[i] == c)
    ensures IndexOf(s, c) == i
  {
  }

  /** What precedes the first c. */
  function UpTo(s: string, c: char): string {
    s[..IndexOf(s, c)]
  }

  function TrimLeft(s: string): string {
    if s != "" && IsSpace(s[0]) then TrimLeft(s[1..]) else s
  }

  function TrimRight(s: string): string {
    if s != "" && IsSpace(s[|s| - 1]) then TrimRight(s[..|s| - 1]) else s
  }

  function Trim(s: string): string {
    TrimLeft(TrimRight(s))
  }

  predicate Trimmed(s: string) {
    s != "" ==> !IsSpace(s[0]) && !IsSpace(s[|s| - 1])
  }

  /** What load takes a line for. Overlong names and keys run over the end of their buffer. */
  datatype Item =
    | Blank
    | BadSection
    | LongSection
    | Section(name: string)
    | BadData
    | LongData
    | Data(key: string, value: string)

  /** scan_section on what follows "[": the name, if "]" comes within the buffer's size. */
  function ScanSection(s: string): Item {
    var l := TrimLeft(s);
    var i := IndexOf(l, ']');
    if i < SECTION_MAX then (if i < |l| then Section(TrimRight(l[..i])) else BadSection) else LongSection
  }

  /** scan_keyvalues: the key before the first "=" and the rest of the line, if there is one. */
  function ScanKeyValues(s: string): Item {
    var p := IndexOf(s, '=');
    if p == |s| then BadData
    else if p >= KEY_MAX then LongData
    else Data(Trim(s[..p]), Trim(UpTo(s[p + 1..], NL)))
  }

  /** A line is a C string: it ends at its first NUL. */
  function Classify(line: string): Item {
    var s := TrimLeft(UpTo(line, NUL));
    if s == "" || s[0] == '#' then Blank
    else if s[0] == '[' then ScanSection(s[1..])
    else ScanKeyValues(s)
  }

  /** The lines that config_getline delivers: each ends in a newline, and what follows
      the last newline is never delivered. */
  function Lines(text: string): seq<string>
    decreases |text|
  {
    var i := IndexOf(text, NL);
    if i == |text| then [] else [text[..i + 1]] + Lines(text[i + 1..])
  }

  predicate IsLine(l: string) {
    l != "" && IndexOf(l, NL) == |l| - 1
  }

  function Join(ls: seq<string>): string {
    if ls == [] then "" else ls[0] + Join(ls[1..])
  }

  lemma {:induction false} LinesOfJoin(ls: seq<string>)
    requires forall l :: l in ls ==> IsLine(l)
    ensures Lines(Join(ls)) == ls
  {
    if ls != [] {
      var text, n := Join(ls), |ls[0]|;
      assert IsLine(ls[0]);
      LinesOfJoin(ls[1..]);
      assert text[..n] == ls[0] && text[n..] == Join(ls[1..]);
      assert forall j :: 0 <= j < n ==> text[j] == ls[0][j];
      IndexIs(text, NL, n - 1);
    }
  }

  /** The lines are the text, up to what follows its last newline. */
  lemma {:induction false} LinesOfText(text: string) returns (rest: string)
    ensures text == Join(Lines(text)) + rest && NL !in rest
    ensures forall l :: l in Lines(text) ==> IsLine(l)
    decreases |text|
  {
    var i := IndexOf(text, NL);
    if i == |text| {
      rest := text;
    } else {
      IndexIs(text[..i + 1], NL, i);
      rest := LinesOfText(text[i + 1..]);
      var more := Lines(text[i + 1..]);
      assert ([text[..i + 1]] + more)[1..] == more;
      assert text == text[..i + 1] + text[i + 1..];
    }
  }

  // ---- trimming

  ghost predicate Part(t: string, s: string) {
    forall c :: c in t ==> c in s
  }

  lemma {:induction false} TrimLeftFacts(s: string)
    ensures Part(TrimLeft(s), s) && |TrimLeft(s)| <= |s|
    ensures TrimLeft(s) != "" ==> !IsSpace(TrimLeft(s)[0]) && TrimLeft(s)[|TrimLeft(s)| - 1] == s[|s| - 1]
    ensures s != "" && !IsSpace(s[0]) ==> TrimLeft(s) == s
  {
    if s != "" && IsSpace(s[0]) {
      TrimLeftFacts(s[1..]);
    }
  }

  lemma {:induction false} TrimRightFacts(s: string)
    ensures Part(TrimRight(s), s) && |TrimRight(s)| <= |s|
    ensures TrimRight(s) != "" ==> !IsSpace(TrimRight(s)[|TrimRight(s)| - 1]) && TrimRight(s)[0] == s[0]
    ensures s != "" && !IsSpace(s[0]) ==> TrimRight(s) != ""
    ensures Trimmed(s) ==> TrimRight(s) == s
  {
    if s != "" && IsSpace(s[|s| - 1]) {
      TrimRightFacts(s[..|s| - 1]);
    }
  }

  lemma TrimFacts(s: string)
    ensures Trimmed(Trim(s)) && Part(Trim(s), s) && |Trim(s)| <= |s|
    ensures s != "" && !IsSpace(s[0]) ==> Trim(s) != "" && Trim(s)[0] == s[0]
    ensures Trimmed(s) ==> Trim(s) == s
  {
    TrimRightFacts(s);
    TrimLeftFacts(TrimRight(s));
  }

  // ---- what the scanners can yield, and that it survives being printed

  predicate Clean(s: string) {
    Trimmed(s) && NL !in s && NUL !in s
  }

  predicate GoodName(s: string) {
    Clean(s) && ']' !in s && |s| < SECTION_MAX
  }

  predicate GoodKey(s: string) {
    Clean(s) && '=' !in s && |s| < KEY_MAX && (s != "" ==> s[0] != '#' && s[0] != '[')
  }

  ghost predicate GoodItem(i: Item) {
    match i
    case Section(n) => GoodName(n)
    case Data(k, v) => GoodKey(k) && Clean(v)
    case _ => true
  }

  lemma UpToFacts(s: string, c: char)
    ensures Part(UpTo(s, c), s) && c !in UpTo(s, c)
  {
  }

  /** In a line the newline can only be last. */
  lemma LineStart(line: string)
    requires IsLine(line)
    ensures var s := TrimLeft(UpTo(line, NUL));
      NUL !in s && (forall j :: 0 <= j < |s| - 1 ==> s[j] != NL) && (s != "" ==> !IsSpace(s[0]))
  {
    var u := UpTo(line, NUL);
    UpToFacts(line, NUL);
    assert forall j :: 0 <= j < |u| - 1 ==> u[j] != NL;
    TrimLeftFacts(u);
    TrimLeftInner(u);
  }

  lemma {:induction false} TrimLeftInner(s: string)
    requires forall j :: 0 <= j < |s| - 1 ==> s[j] != NL
    ensures forall j :: 0 <= j < |TrimLeft(s)| - 1 ==> TrimLeft(s)[j] != NL
  {
    if s != "" && IsSpace(s[0]) {
      TrimLeftInner(s[1..]);
    }
  }

  lemma SectionGood(s: string)
    requires NUL !in s && forall j :: 0 <= j < |s| - 1 ==> s[j] != NL
    ensures GoodItem(ScanSection(s))
  {
    var l := TrimLeft(s);
    var i := IndexOf(l, ']');
    TrimLeftFacts(s);
    TrimLeftInner(s);
    if i < |l| && i < SECTION_MAX {
      var n := l[..i];
      TrimRightFacts(n);
      assert NUL !in l && NL !in n && ']' !in n;
    }
  }

  lemma KeyValuesGood(s: string)
    requires s != "" && NUL !in s && !IsSpace(s[0]) && s[0] != '#' && s[0] != '['
    requires forall j :: 0 <= j < |s| - 1 ==> s[j] != NL
    ensures GoodItem(ScanKeyValues(s))
  {
    var p := IndexOf(s, '=');
    if p < |s| && p < KEY_MAX {
      var key, rest := s[..p], s[p + 1..];
      assert NL !in key && NUL !in key && '=' !in key;
      TrimFacts(key);
      UpToFacts(rest, NL);
      assert NUL !in rest;
      TrimFacts(UpTo(rest, NL));
    }
  }

  /** Whatever a line is taken for is good. */
  lemma ClassifyGood(line: string)
    requires IsLine(line)
    ensures GoodItem(Classify(line))
  {
    hide ScanSection, ScanKeyValues, GoodName, GoodKey, Clean, TrimLeft, UpTo, IsSpace;
    LineStart(line);
    var s := TrimLeft(UpTo(line, NUL));
    if s != "" && s[0] == '[' {
      assert forall j :: 0 <= j < |s[1..]| - 1 ==> s[1..][j] == s[j + 1];
      SectionGood(s[1..]);
    } else if s != "" && s[0] != '#' {
      KeyValuesGood(s);
    }
  }

  function SectionLine(name: string): string {
    "[" + name + "]" + [NL]
  }

  function DataLine(key: string, value: string): string {
    key + "=" + value + [NL]
  }

  lemma SectionLineBack(name: string)
    requires GoodName(name)
    ensures IsLine(SectionLine(name)) && Classify(SectionLine(name)) == Section(name)
  {
    var line, tail := SectionLine(name), name + ("]" + [NL]);
    IndexIs(line, NL, |line| - 1);
    IndexIs(line, NUL, |line|);
    assert UpTo(line, NUL) == line;
    TrimLeftFacts(line);
    assert line[1..] == tail;
    TrimLeftFacts(tail);
    assert tail[0] == if name == "" then ']' else name[0];
    IndexIs(tail, ']', |name|);
    assert tail[..|name|] == name;
    TrimRightFacts(name);
  }

  /** A name that fills the buffer is not read back. */
  lemma LongName(name: string)
    requires |name| == SECTION_MAX && Clean(name) && ']' !in name
    ensures IsLine(SectionLine(name)) && Classify(SectionLine(name)) == LongSection
  {
    var line, tail := SectionLine(name), name + ("]" + [NL]);
    IndexIs(line, NL, |line| - 1);
    IndexIs(line, NUL, |line|);
    assert UpTo(line, NUL) == line;
    TrimLeftFacts(line);
    assert line[1..] == tail;
    TrimLeftFacts(tail);
    IndexIs(tail, ']', |name|);
  }

  lemma KeyValuesBack(key: string, value: string)
    requires GoodKey(key) && Clean(value)
    ensures ScanKeyValues(DataLine(key, value)) == Data(key, value)
  {
    hide TrimRight, Trim, TrimLeft, IsSpace;
    var line, rest := DataLine(key, value), value + [NL];
    IndexIs(line, '=', |key|);
    assert line[..|key|] == key && line[|key| + 1..] == rest;
    IndexIs(rest, NL, |value|);
    assert UpTo(rest, NL) == value;
    TrimFacts(key);
    TrimFacts(value);
  }

  lemma DataLineBack(key: string, value: string)
    requires GoodKey(key) && Clean(value)
    ensures IsLine(DataLine(key, value)) && Classify(DataLine(key, value)) == Data(key, value)
  {
    hide TrimRight, Trim, ScanSection, ScanKeyValues;
    var line := DataLine(key, value);
    IndexIs(line, NL, |line| - 1);
    IndexIs(line, NUL, |line|);
    assert UpTo(line, NUL) == line;
    TrimLeftFacts(line);
    assert line[0] == if key == "" then '=' else key[0];
    KeyValuesBack(key, value);
  }

  lemma BlankLineBack()
    ensures IsLine([NL]) && Classify([NL]) == Blank
  {
    IndexIs([NL], NL, 0);
    IndexIs([NL], NUL, 1);
    assert UpTo([NL], NUL) == [NL] && [NL][1..] == "";
    assert TrimLeft([NL]) == TrimLeft("");
  }
}
