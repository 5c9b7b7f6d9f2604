/** The loops of Config's reader, over characters, against the functions they compute. */
module ConfigScan {
  import opened Wrappers
  import opened ConfigText
  import opened ConfigModel

  lemma NextLine(text: string, at: nat, i: nat)
    requires at < i <= |text| && text[i - 1] == NL && forall j :: at <= j < i - 1 ==> text[j] != NL
    ensures Lines(text[at..]) == [text[at..i]] + Lines(text[i..])
  {
    hide IndexOf;
    var rest := text[at..];
    IndexIs(rest, NL, i - 1 - at);
    assert rest[..i - at] == text[at..i] && rest[i - at..] == text[i..];
  }

  lemma NoLine(text: string, at: nat)
    requires at <= |text| && forall j :: at <= j < |text| ==> text[j] != NL
    ensures Lines(text[at..]) == []
  {
    IndexIs(text[at..], NL, |text| - at);
  }

  /** config_getline: the next line with its newline, or None at the end of the file. */
  method GetLine(text: string, at: nat) returns (line: Option<string>, next: nat)
    requires at <= |text|
    ensures at <= next <= |text|
    ensures line.None? ==> Lines(text[at..]) == []
    ensures line.Some? ==> at < next && Lines(text[at..]) == [line.value] + Lines(text[next..])
  {
    hide Lines;
    var buf, i := "", at;
    while i < |text|
      invariant at <= i <= |text| && buf == text[at..i]
      invariant forall j :: at <= j < i ==> text[j] != NL
    {
      buf := buf + [text[i]];
      i := i + 1;
      assert buf == text[at..i];
      if text[i - 1] == NL {
        NextLine(text, at, i);
        return Some(buf), i;
      }
    }
    NoLine(text, at);
    return None, i;
  }

  /** EAT_SPACES and str_trimleft */
  method EatSpaces(s: string) returns (r: string)
    ensures r == TrimLeft(s)
  {
    hide IsSpace;
    var i := 0;
    while i < |s| && IsSpace(s[i])
      invariant i <= |s| && TrimLeft(s[i..]) == TrimLeft(s)
    {
      assert s[i..][1..] == s[i + 1..];
      i := i + 1;
    }
    r := s[i..];
  }

  /** str_trimright */
  method CutSpaces(s: string) returns (r: string)
    ensures r == TrimRight(s)
  {
    hide IsSpace;
    r := s;
    while r != "" && IsSpace(r[|r| - 1])
      invariant TrimRight(r) == TrimRight(s)
      decreases |r|
    {
      r := r[..|r| - 1];
    }
  }

  /** scan_section: characters go to the buffer until "]" or until it is full, when the
      terminator goes behind its end. */
  method ReadSection(s: string) returns (item: Item)
    ensures item == ScanSection(s)
  {
    hide IndexOf, TrimLeft, TrimRight;
    var line := EatSpaces(s);
    var buf, i, bufsz := "", 0, SECTION_MAX;
    while i < |line| && bufsz > 0 && line[i] != ']'
      invariant i <= |line| && i + bufsz == SECTION_MAX && buf == line[..i]
      invariant forall j :: 0 <= j < i ==> line[j] != ']'
    {
      buf := buf + [line[i]];
      bufsz := bufsz - 1;
      i := i + 1;
    }
    if bufsz == 0 {
      return LongSection;
    }
    IndexIs(line, ']', i);
    if i == |line| {
      return BadSection;
    }
    var name := CutSpaces(buf);
    return Section(name);
  }

  /** scan_keyvalues: characters of the key go to its buffer until "=" or until it is full,
      when the terminator goes behind its end; then the value. */
  method ReadKeyValue(s: string) returns (item: Item)
    ensures item == ScanKeyValues(s)
  {
    hide IndexOf, TrimLeft, TrimRight;
    var pos := IndexOf(s, '=');
    if pos == |s| {
      return BadData;
    }
    var key, i := "", 0;
    while s[i] != '=' && i < KEY_MAX
      invariant i <= pos && i <= KEY_MAX && key == s[..i]
      decreases KEY_MAX - i
    {
      key := key + [s[i]];
      i := i + 1;
    }
    if i == KEY_MAX {
      return LongData;
    }
    var from := i + 1;
    var val, j := "", from;
    while j < |s| && s[j] != NL
      invariant from <= j <= |s| && val == s[from..j] && NL !in val
    {
      val := val + [s[j]];
      j := j + 1;
    }
    assert forall k :: 0 <= k < |val| ==> s[from..][k] == val[k];
    IndexIs(s[from..], NL, j - from);
    assert s[from..][..j - from] == val;
    var k := TrimBoth(key);
    var v := TrimBoth(val);
    return Data(k, v);
  }

  /** str_trim */
  method TrimBoth(s: string) returns (r: string)
    ensures r == Trim(s)
  {
    r := CutSpaces(s);
    r := EatSpaces(r);
  }

  /** str_hash */
  method ComputeHash(s: string) returns (h: bv32)
    ensures h == StrHash(s)
  {
    hide CharBits, Mix, Finish;
    var i := 0;
    h := 0;
    while i < |s|
      invariant i <= |s| && h == HashState(s[..i])
    {
      assert s[..i + 1][..i] == s[..i];
      h := Mix(h, s[i]);
      i := i + 1;
    }
    assert s[..i] == s;
    h := Finish(h);
  }
}
