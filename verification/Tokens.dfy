/** stringtok: a string is cut into its runs free of delimiters. */
module Tokens {
  const NUL: char := '\0'

  /** strchr also finds the terminator of the delimiters. */
  predicate IsDelim(c: char, ws: string) {
    c in ws || c == NUL
  }

  type Span = (nat, nat)

  /** The end of the run that i is in. */
  function RunEnd(s: string, ws: string, i: nat): (j: nat)
    requires i <= |s|
    ensures i <= j <= |s| && (forall k :: i <= k < j ==> !IsDelim(s[k], ws)) && (j < |s| ==> IsDelim(s[j], ws))
    decreases |s| - i
  {
    if i == |s| || IsDelim(s[i], ws) then i else RunEnd(s, ws, i + 1)
  }

  /** The runs from i on. */
  function Spans(s: string, ws: string, i: nat): seq<Span>
    requires i <= |s|
    decreases |s| - i
  {
    if i == |s| then []
    else if IsDelim(s[i], ws) then Spans(s, ws, i + 1)
    else [(i, RunEnd(s, ws, i))] + Spans(s, ws, RunEnd(s, ws, i))
  }

  /** A run free of delimiters that cannot be longer on either side. */
  ghost predicate MaximalRun(s: string, ws: string, from: nat, p: Span) {
    && from <= p.0 < p.1 <= |s|
    && (forall i :: p.0 <= i < p.1 ==> !IsDelim(s[i], ws))
    && (p.0 == from || IsDelim(s[p.0 - 1], ws))
    && (p.1 == |s| || IsDelim(s[p.1], ws))
  }

  ghost predicate Covered(ps: seq<Span>, i: nat) {
    exists k :: 0 <= k < |ps| && ps[k].0 <= i < ps[k].1
  }

  /** Exactly the maximal runs from here on, in order. */
  ghost predicate MaximalRuns(s: string, ws: string, from: nat, ps: seq<Span>) {
    && (forall k :: 0 <= k < |ps| ==> MaximalRun(s, ws, from, ps[k]))
    && (forall k, l :: 0 <= k < l < |ps| ==> ps[k].1 < ps[l].0)
    && (forall i: nat :: from <= i < |s| && !IsDelim(s[i], ws) ==> Covered(ps, i))
  }

  lemma SkipDelim(s: string, ws: string, i: nat, ps: seq<Span>)
    requires i < |s| && IsDelim(s[i], ws) && MaximalRuns(s, ws, i + 1, ps)
    ensures MaximalRuns(s, ws, i, ps)
  {
    hide IsDelim, Covered;
  }

  lemma PutRun(s: string, ws: string, i: nat, j: nat, ps: seq<Span>)
    requires i < j <= |s| && (forall k :: i <= k < j ==> !IsDelim(s[k], ws)) && (j < |s| ==> IsDelim(s[j], ws))
    requires MaximalRuns(s, ws, j, ps)
    ensures MaximalRuns(s, ws, i, [(i, j)] + ps)
  {
    hide IsDelim, Covered;
    var r := [(i, j)] + ps;
    assert forall k :: 0 < k < |r| ==> r[k] == ps[k - 1];
    forall n: nat | i <= n < |s| && !IsDelim(s[n], ws)
      ensures Covered(r, n)
    {
      CoveredMore(i, j, ps, n);
    }
  }

  lemma CoveredMore(i: nat, j: nat, ps: seq<Span>, n: nat)
    requires i <= n < j || Covered(ps, n)
    ensures Covered([(i, j)] + ps, n)
  {
    var r := [(i, j)] + ps;
    if i <= n < j {
      assert r[0] == (i, j);
    } else {
      var k :| 0 <= k < |ps| && ps[k].0 <= n < ps[k].1;
      assert r[k + 1] == ps[k];
    }
  }

  function Cut(s: string, p: Span): string
    requires p.0 <= p.1 <= |s|
  {
    s[p.0..p.1]
  }

  /** The tokens from i on. */
  function From(s: string, ws: string, i: nat): seq<string>
    requires i <= |s|
    decreases |s| - i
  {
    if i == |s| then []
    else if IsDelim(s[i], ws) then From(s, ws, i + 1)
    else [s[i..RunEnd(s, ws, i)]] + From(s, ws, RunEnd(s, ws, i))
  }

  function Tokens(s: string, ws: string): seq<string> {
    From(s, ws, 0)
  }

  lemma NoRuns(s: string, ws: string)
    ensures MaximalRuns(s, ws, |s|, [])
  {
  }

  /** Tokens are the strings of the maximal runs. */
  lemma {:induction false} FromIsRuns(s: string, ws: string, i: nat)
    requires i <= |s|
    ensures MaximalRuns(s, ws, i, Spans(s, ws, i))
    ensures |From(s, ws, i)| == |Spans(s, ws, i)|
    ensures forall k :: 0 <= k < |From(s, ws, i)| ==> From(s, ws, i)[k] == Cut(s, Spans(s, ws, i)[k])
    decreases |s| - i
  {
    hide IsDelim, MaximalRuns;
    if i == |s| {
      NoRuns(s, ws);
    } else if IsDelim(s[i], ws) {
      FromIsRuns(s, ws, i + 1);
      SkipDelim(s, ws, i, Spans(s, ws, i + 1));
    } else {
      var j := RunEnd(s, ws, i);
      FromIsRuns(s, ws, j);
      PutRun(s, ws, i, j, Spans(s, ws, j));
    }
  }

  lemma {:induction false} RunEndIs(s: string, ws: string, i: nat, j: nat)
    requires i <= j <= |s| && (forall k :: i <= k < j ==> !IsDelim(s[k], ws)) && (j < |s| ==> IsDelim(s[j], ws))
    ensures RunEnd(s, ws, i) == j
  {
  }

  /** A run and the delimiter behind it are passed together. */
  lemma FromRun(s: string, ws: string, i: nat, j: nat)
    requires i < j <= |s| && (forall k :: i <= k < j ==> !IsDelim(s[k], ws)) && (j < |s| ==> IsDelim(s[j], ws))
    ensures From(s, ws, i) == [s[i..j]] + if j < |s| then From(s, ws, j + 1) else []
  {
    hide IsDelim, RunEnd;
    RunEndIs(s, ws, i, j);
  }

  lemma FromDelim(s: string, ws: string, i: nat)
    requires i < |s| && IsDelim(s[i], ws)
    ensures From(s, ws, i) == From(s, ws, i + 1)
  {
  }

  lemma FromEnd(s: string, ws: string)
    ensures From(s, ws, |s|) == []
  {
  }

  /** stringtok: the tokens are put behind what the container holds. */
  method StringTok(container: seq<string>, str: string, ws: string) returns (c: seq<string>)
    ensures c == container + Tokens(str, ws)
  {
    hide IsDelim, From, RunEnd;
    var sz := |str|;
    FromEnd(str, ws);
    var i, j := 0, 0;
    c := container;
    while i < sz
      invariant i <= sz + 1
      invariant container + Tokens(str, ws) == c + if i <= sz then From(str, ws, i) else []
    {
      while i < sz && IsDelim(str[i], ws)
        invariant i <= sz && container + Tokens(str, ws) == c + From(str, ws, i)
      {
        FromDelim(str, ws, i);
        i := i + 1;
      }
      if i == sz {
        return;
      }
      j := i + 1;
      while j < sz && !IsDelim(str[j], ws)
        invariant i < j <= sz
        invariant forall k :: i <= k < j ==> !IsDelim(str[k], ws)
      {
        j := j + 1;
      }
      FromRun(str, ws, i, j);
      c := c + [str[i..j]];
      i := j + 1;
    }
  }

  // ---- lists written with a delimiter behind each item

  function Joined(items: seq<string>, d: char): string {
    if items == [] then "" else items[0] + [d] + Joined(items[1..], d)
  }

  predicate Plain(item: string, d: char) {
    item != "" && d !in item && NUL !in item
  }

  ghost predicate AllPlain(items: seq<string>, d: char) {
    forall k :: 0 <= k < |items| ==> Plain(items[k], d)
  }

  lemma Shifted(a: string, s: string, i: nat, j: nat)
    requires i <= j <= |s|
    ensures (a + s)[|a| + i..|a| + j] == s[i..j]
  {
  }

  lemma {:induction false} FromShift(a: string, s: string, ws: string, i: nat)
    requires i <= |s|
    ensures From(a + s, ws, |a| + i) == From(s, ws, i)
    decreases |s| - i
  {
    hide IsDelim, From, RunEnd;
    var t := a + s;
    if i == |s| {
      FromEnd(s, ws);
      FromEnd(t, ws);
    } else if IsDelim(s[i], ws) {
      FromDelim(s, ws, i);
      FromDelim(t, ws, |a| + i);
      FromShift(a, s, ws, i + 1);
    } else {
      var j := RunEnd(s, ws, i);
      FromRun(s, ws, i, j);
      assert forall k :: |a| + i <= k < |a| + j ==> t[k] == s[k - |a|];
      assert j < |s| ==> t[|a| + j] == s[j];
      FromRun(t, ws, |a| + i, |a| + j);
      Shifted(a, s, i, j);
      if j < |s| {
        FromShift(a, s, ws, j + 1);
      }
    }
  }

  lemma FirstToken(item: string, d: char, rest: string)
    requires Plain(item, d)
    ensures Tokens(item + [d] + rest, [d]) == [item] + Tokens(rest, [d])
  {
    hide From, RunEnd;
    var s, n := item + [d] + rest, |item|;
    assert s[..n] == item && s[n] == d;
    assert forall k :: 0 <= k < n ==> s[k] == s[..n][k];
    FromRun(s, [d], 0, n);
    assert s[0..n] == s[..n];
    FromShift(item + [d], rest, [d], 0);
  }

  lemma {:induction false} TokensOfJoined(items: seq<string>, d: char, rest: string)
    requires AllPlain(items, d)
    ensures Tokens(Joined(items, d) + rest, [d]) == items + Tokens(rest, [d])
  {
    hide Plain, Tokens;
    if items == [] {
      assert "" + rest == rest;
    } else {
      var more := Joined(items[1..], d) + rest;
      TokensOfJoined(items[1..], d, rest);
      FirstToken(items[0], d, more);
      assert Joined(items, d) + rest == items[0] + [d] + more;
    }
  }

  lemma NoTokens(d: char)
    ensures Tokens("", [d]) == []
  {
  }

  /** The items that the first n characters of a written list hold, the last of them cut. */
  function Front(items: seq<string>, n: nat): seq<string> {
    if items == [] || n == 0 then []
    else if |items[0]| < n then [items[0]] + Front(items[1..], n - |items[0]| - 1)
    else [items[0][..n]]
  }

  /** A written list that is cut anywhere is tokenized into those. */
  lemma {:induction false} TokensOfFront(items: seq<string>, d: char, n: nat)
    requires AllPlain(items, d) && n <= |Joined(items, d)|
    ensures Tokens(Joined(items, d)[..n], [d]) == Front(items, n)
  {
    hide Plain, Tokens;
    var t := Joined(items, d)[..n];
    if items == [] || n == 0 {
      assert t == "";
      NoTokens(d);
    } else if |items[0]| < n {
      var m := n - |items[0]| - 1;
      TokensOfFront(items[1..], d, m);
      FirstToken(items[0], d, Joined(items[1..], d)[..m]);
      assert t == items[0] + [d] + Joined(items[1..], d)[..m];
    } else {
      assert t == items[0][..n];
      OneToken(items[0], d, n);
    }
  }

  lemma OneToken(item: string, d: char, n: nat)
    requires Plain(item, d) && 0 < n <= |item|
    ensures Tokens(item[..n], [d]) == [item[..n]]
  {
    hide From, RunEnd;
    var s := item[..n];
    FromRun(s, [d], 0, n);
    assert s[0..n] == s;
  }

  lemma {:induction false} TokensPlain(s: string, d: char, i: nat)
    requires i <= |s|
    ensures AllPlain(From(s, [d], i), d)
    decreases |s| - i
  {
    if i < |s| {
      if IsDelim(s[i], [d]) {
        TokensPlain(s, d, i + 1);
      } else {
        TokensPlain(s, d, RunEnd(s, [d], i));
      }
    }
  }

  lemma JoinedCons(item: string, items: seq<string>, d: char)
    ensures Joined([item] + items, d) == item + [d] + Joined(items, d)
  {
    assert ([item] + items)[1..] == items;
  }

  lemma NothingJoined(d: char)
    ensures Joined([], d) == ""
  {
  }

  /** The tokens and a delimiter for each but the last fit in the string. */
  lemma {:induction false} TokensFit(s: string, d: char, i: nat)
    requires i <= |s|
    ensures |Joined(From(s, [d], i), d)| <= |s| - i + 1
    decreases |s| - i
  {
    hide IsDelim, From, RunEnd, Joined;
    FromEnd(s, [d]);
    NothingJoined(d);
    if i < |s| {
      var j := RunEnd(s, [d], i);
      if IsDelim(s[i], [d]) {
        FromDelim(s, [d], i);
        TokensFit(s, d, i + 1);
      } else {
        FromRun(s, [d], i, j);
        JoinedCons(s[i..j], if j < |s| then From(s, [d], j + 1) else [], d);
        if j < |s| {
          TokensFit(s, d, j + 1);
        }
      }
    }
  }

  /** A written list is read back as it was exactly if its items are plain. */
  lemma ReadBackIff(items: seq<string>, d: char)
    ensures Tokens(Joined(items, d), [d]) == items <==> AllPlain(items, d)
  {
    TokensPlain(Joined(items, d), d, 0);
    if AllPlain(items, d) {
      TokensOfJoined(items, d, "");
      NoTokens(d);
      assert Joined(items, d) + "" == Joined(items, d);
    }
  }
}
