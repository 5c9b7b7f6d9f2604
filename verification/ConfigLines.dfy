/** What Config's reader makes of lines as people write them, with blanks around every
    part, and not only as it writes them itself. */
module ConfigLines {
  import opened ConfigText

  predicate Blanks(s: string) {
    forall i :: 0 <= i < |s| ==> IsSpace(s[i])
  }

  /** Blanks that can stand inside a line. */
  predicate Pad(s: string) {
    Blanks(s) && NL !in s
  }

  // ---- trimming takes off blanks, all of them and nothing else

  lemma {:induction false} TrimLeftPad(a: string, s: string)
    requires Blanks(a) && (s == "" || !IsSpace(s[0]))
    ensures TrimLeft(a + s) == s
  {
    hide IsSpace;
    if a == "" {
      assert a + s == s;
    } else {
      assert (a + s)[1..] == a[1..] + s && (a + s)[0] == a[0];
      TrimLeftPad(a[1..], s);
    }
  }

  lemma {:induction false} TrimRightPad(s: string, b: string)
    requires Blanks(b) && (s == "" || !IsSpace(s[|s| - 1]))
    ensures TrimRight(s + b) == s
  {
    hide IsSpace;
    if b == "" {
      assert s + b == s;
    } else {
      var n := |b| - 1;
      assert (s + b)[..|s + b| - 1] == s + b[..n] && (s + b)[|s + b| - 1] == b[n];
      TrimRightPad(s, b[..n]);
    }
  }

  lemma {:induction false} TrimLeftIs(s: string) returns (a: string)
    ensures Blanks(a) && s == a + TrimLeft(s)
  {
    hide IsSpace;
    a := "";
    if s != "" && IsSpace(s[0]) {
      a := TrimLeftIs(s[1..]);
      a := [s[0]] + a;
      assert s == [s[0]] + s[1..];
    }
  }

  lemma {:induction false} TrimRightIs(s: string) returns (b: string)
    ensures Blanks(b) && s == TrimRight(s) + b
  {
    hide IsSpace;
    b := "";
    if s != "" && IsSpace(s[|s| - 1]) {
      b := TrimRightIs(s[..|s| - 1]);
      b := b + [s[|s| - 1]];
      assert s == s[..|s| - 1] + [s[|s| - 1]];
    }
  }

  /** s is t with blanks around it, and t has none at its ends. */
  ghost predicate Core(s: string, t: string) {
    Trimmed(t) && exists a, b :: Blanks(a) && Blanks(b) && s == a + t + b
  }

  /** Trimming is the one way to take all blanks off both ends and nothing else. */
  lemma TrimIsCore(s: string, t: string)
    ensures Trim(s) == t <==> Core(s, t)
  {
    hide IsSpace, Trimmed, Blanks;
    TrimFacts(s);
    var b := TrimRightIs(s);
    var a := TrimLeftIs(TrimRight(s));
    assert s == a + Trim(s) + b;
    if Core(s, t) {
      var a', b' :| Blanks(a') && Blanks(b') && s == a' + t + b';
      TrimPadded(a', t, b');
    }
  }

  lemma TrimPadded(a: string, t: string, b: string)
    requires Blanks(a) && Trimmed(t) && Blanks(b)
    ensures Trim(a + t + b) == t
  {
    hide IsSpace;
    if t == "" {
      assert a + t + b == "" + (a + b);
      TrimRightPad("", a + b);
      TrimLeftPad("", "");
      assert "" + "" == "";
    } else {
      TrimRightPad(a + t, b);
      TrimLeftPad(a, t);
    }
  }

  // ---- whole lines

  /** A line that starts like this is taken for what s is, up to its first NUL. */
  lemma Started(p: string, s: string, line: string)
    requires Pad(p) && line == p + s && NUL !in s && (s == "" || !IsSpace(s[0]))
    ensures TrimLeft(UpTo(line, NUL)) == s
  {
    assert NUL !in p;
    IndexIs(line, NUL, |line|);
    assert UpTo(line, NUL) == line;
    TrimLeftPad(p, s);
  }

  lemma LastNewline(body: string)
    requires NL !in body
    ensures IsLine(body + [NL])
  {
    IndexIs(body + [NL], NL, |body|);
  }

  lemma Apart(p: string)
    requires Pad(p)
    ensures NL !in p && NUL !in p && '=' !in p && ']' !in p
  {
  }

  /** A key and its value, blanks anywhere between: read as that key and that value, if the
      key with the blanks behind it fits its buffer. */
  lemma PaddedData(p: string, key: string, q: string, r: string, value: string, t: string)
    requires Pad(p) && Pad(q) && Pad(r) && Pad(t) && GoodKey(key) && Clean(value)
    ensures var line := p + key + q + "=" + r + value + t + [NL];
      IsLine(line) && Classify(line) == if key == "" || |key + q| < KEY_MAX then Data(key, value) else LongData
  {
    hide IsSpace, Trim, TrimLeft, TrimRight, ScanSection, Blanks, ScanKeyValues;
    var line := p + key + q + "=" + r + value + t + [NL];
    Apart(p);
    Apart(q);
    Apart(r);
    Apart(t);
    LastNewline(p + key + q + "=" + r + value + t);
    var tail := "=" + r + value + t + [NL];
    NotBlank();
    if key == "" {
      assert line == (p + q) + tail;
      PadsJoin(p, q);
      Started(p + q, tail, line);
      NoBlanks();
      ScannedData("", "", r, value, t);
      assert "" + "" + tail == tail;
    } else {
      assert line == p + (key + q + tail);
      Started(p, key + q + tail, line);
      ScannedData(key, q, r, value, t);
    }
  }

  lemma NotBlank()
    ensures !IsSpace('=') && !IsSpace('[') && !IsSpace(']') && !IsSpace('#') && IsSpace(NL)
  {
  }

  lemma PadsJoin(p: string, q: string)
    requires Pad(p) && Pad(q)
    ensures Pad(p + q)
  {
    hide IsSpace;
  }

  lemma ScannedData(key: string, q: string, r: string, value: string, t: string)
    requires Pad(q) && Pad(r) && Pad(t) && GoodKey(key) && Clean(value)
    ensures ScanKeyValues(key + q + ("=" + r + value + t + [NL])) ==
      if |key + q| < KEY_MAX then Data(key, value) else LongData
  {
    hide IsSpace, Trim, TrimLeft, TrimRight, Trimmed, Blanks;
    var s, rest := key + q + ("=" + r + value + t + [NL]), r + value + t + [NL];
    Apart(q);
    Apart(r);
    Apart(t);
    var n := |key + q|;
    IndexIs(s, '=', n);
    assert s[..n] == "" + key + q && s[n + 1..] == rest;
    IndexIs(rest, NL, |rest| - 1);
    assert UpTo(rest, NL) == r + value + t;
    NoBlanks();
    TrimPadded("", key, q);
    TrimPadded(r, value, t);
  }

  lemma NoBlanks()
    ensures Blanks("") && Pad("")
  {
  }

  /** A section's name in brackets, blanks anywhere around it, and anything behind. */
  lemma PaddedSection(p: string, q: string, name: string, r: string, rest: string)
    requires Pad(p) && Pad(q) && Pad(r) && GoodName(name) && NL !in rest && NUL !in rest
    ensures var line := p + "[" + q + name + r + "]" + rest + [NL];
      IsLine(line) && Classify(line) == if name == "" || |name + r| < SECTION_MAX then Section(name) else LongSection
  {
    hide IsSpace, Trim, TrimLeft, TrimRight, ScanKeyValues, Blanks, ScanSection;
    var line, tail := p + "[" + q + name + r + "]" + rest + [NL], q + name + r + ("]" + rest + [NL]);
    Apart(p);
    Apart(q);
    Apart(r);
    LastNewline(p + "[" + q + name + r + "]" + rest);
    NotBlank();
    assert line == p + ("[" + tail) && ("[" + tail)[1..] == tail;
    Started(p, "[" + tail, line);
    ScannedSection(q, name, r, "]" + rest + [NL]);
  }

  lemma ScannedSection(q: string, name: string, r: string, behind: string)
    requires Pad(q) && Pad(r) && GoodName(name) && behind != "" && behind[0] == ']'
    ensures ScanSection(q + name + r + behind) ==
      if name == "" || |name + r| < SECTION_MAX then Section(name) else LongSection
  {
    hide IsSpace, TrimLeft, TrimRight, Blanks;
    Apart(q);
    Apart(r);
    NotBlank();
    NoBlanks();
    if name == "" {
      PadsJoin(q, r);
      assert q + name + r + behind == (q + r) + behind;
      TrimLeftPad(q + r, behind);
      IndexIs(behind, ']', 0);
      TrimRightPad("", "");
      assert behind[..0] == "" + "";
    } else {
      var l := name + r + behind;
      assert q + name + r + behind == q + l;
      TrimLeftPad(q, l);
      IndexIs(l, ']', |name + r|);
      assert l[..|name + r|] == name + r;
      TrimRightPad(name, r);
    }
  }

  /** Comments, and lines of nothing but blanks. */
  lemma PaddedComment(p: string, rest: string)
    requires Pad(p) && NL !in rest && NUL !in rest && (rest == "" || rest[0] == '#')
    ensures IsLine(p + rest + [NL]) && Classify(p + rest + [NL]) == Blank
  {
    hide IsSpace, TrimLeft;
    Apart(p);
    NotBlank();
    var line := p + rest + [NL];
    LastNewline(p + rest);
    if rest == "" {
      IndexIs(line, NUL, |line|);
      assert UpTo(line, NUL) == (p + [NL]) + "";
      TrimLeftPad(p + [NL], "");
    } else {
      assert line == p + (rest + [NL]);
      Started(p, rest + [NL], line);
    }
  }

  /** A line that is neither, with no "=" in it. */
  lemma PaddedNoData(p: string, text: string)
    requires Pad(p) && NL !in text && NUL !in text && '=' !in text
    requires text != "" && !IsSpace(text[0]) && text[0] != '#' && text[0] != '['
    ensures IsLine(p + text + [NL]) && Classify(p + text + [NL]) == BadData
  {
    hide IsSpace, TrimLeft;
    Apart(p);
    var line, s := p + text + [NL], text + [NL];
    LastNewline(p + text);
    assert line == p + s;
    Started(p, s, line);
    IndexIs(s, '=', |s|);
  }

  /** A section without "]" is an error, or overruns the name's buffer. */
  lemma PaddedOpenSection(p: string, q: string, text: string)
    requires Pad(p) && Pad(q) && NL !in text && NUL !in text && ']' !in text
    requires text != "" && !IsSpace(text[0])
    ensures var line := p + "[" + q + text + [NL];
      IsLine(line) && Classify(line) == if |text| + 1 < SECTION_MAX then BadSection else LongSection
  {
    hide IsSpace, TrimLeft;
    Apart(p);
    Apart(q);
    NotBlank();
    var line, l := p + "[" + q + text + [NL], text + [NL];
    LastNewline(p + "[" + q + text);
    assert line == p + ("[" + (q + l)) && ("[" + (q + l))[1..] == q + l;
    Started(p, "[" + (q + l), line);
    TrimLeftPad(q, l);
    IndexIs(l, ']', |l|);
  }
}
