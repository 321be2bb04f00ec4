/**
 The four text stages of `slugify` between Unicode decomposition and case
 formatting (src/index.ts lines 11-20). Each regular-expression `replace`
 is written as an explicit function over characters.
 */
module Stages {
  import opened Chars
  import opened Sequences

  /** Stage 1, line 11: after decomposition, every combining mark is deleted. */
  function StripMarks(s: string): (r: string)
    ensures forall i :: 0 <= i < |r| ==> !IsCombiningMark(r[i])
    ensures IsSubseq(r, s)
    ensures forall c :: !IsCombiningMark(c) ==> multiset(r)[c] == multiset(s)[c]
  {
    FilterIsSubseq(s, NotCombiningMark);
    forall c | !IsCombiningMark(c)
      ensures multiset(Filter(s, NotCombiningMark))[c] == multiset(s)[c]
    {
      FilterCounts(s, NotCombiningMark, c);
    }
    Filter(s, NotCombiningMark)
  }

  /** A string without combining marks is left as it is. */
  lemma StripMarksUnmarked(s: string)
    requires forall i :: 0 <= i < |s| ==> !IsCombiningMark(s[i])
    ensures StripMarks(s) == s
  {
    FilterKeepsAll(s, NotCombiningMark);
  }

  /** Marks are removed piece by piece. */
  lemma StripMarksConcat(a: string, b: string)
    ensures StripMarks(a + b) == StripMarks(a) + StripMarks(b)
  {
    FilterConcat(a, b, NotCombiningMark);
  }

  /** Stage 2a, line 15: lower-casing, ASCII part only. */
  function Lowercase(s: string): (r: string)
    ensures |r| == |s|
    ensures forall i :: 0 <= i < |r| ==> !IsAsciiUpper(r[i])
    ensures forall i :: 0 <= i < |s| && IsAsciiUpper(s[i]) ==> IsAsciiLower(r[i]) && r[i] as int == s[i] as int + 32
    ensures forall i :: 0 <= i < |s| && !IsAsciiUpper(s[i]) ==> r[i] == s[i]
  {
    MapChars(s, ToLowerChar)
  }

  /** A string without ASCII upper-case letters is its own lower case. */
  lemma LowercaseUnchanged(s: string)
    requires forall i :: 0 <= i < |s| ==> !IsAsciiUpper(s[i])
    ensures Lowercase(s) == s
  {
    var r := Lowercase(s);
    forall i | 0 <= i < |s|
      ensures r[i] == s[i]
    {
    }
  }

  /** Lowercasing twice is lowercasing once. */
  lemma LowercaseIdempotent(s: string)
    ensures Lowercase(Lowercase(s)) == Lowercase(s)
  {
  }

  /** Stage 2b, line 16: every character other than an ASCII lower-case
      letter, a digit, white space or a hyphen is deleted. */
  function KeepAllowed(s: string): (r: string)
    ensures forall i :: 0 <= i < |r| ==> IsAllowed(r[i])
    ensures IsSubseq(r, s)
    ensures forall c :: IsAllowed(c) ==> multiset(r)[c] == multiset(s)[c]
    ensures forall c :: !IsAllowed(c) ==> multiset(r)[c] == 0
  {
    FilterIsSubseq(s, IsAllowed);
    forall c
      ensures IsAllowed(c) ==> multiset(Filter(s, IsAllowed))[c] == multiset(s)[c]
      ensures !IsAllowed(c) ==> multiset(Filter(s, IsAllowed))[c] == 0
    {
      FilterCounts(s, IsAllowed, c);
    }
    Filter(s, IsAllowed)
  }

  /** Stage 3, line 17: only white space is removed, and only at the two
      ends: the result is the slice of `s` that starts after its leading
      white space, and everything after that slice is white space too. */
  function Trim(s: string): (r: string)
    ensures r == [] || (!IsWs(r[0]) && !IsWs(r[|r| - 1]))
    ensures LeadingRun(s, IsWs) + |r| <= |s|
    ensures var lead := LeadingRun(s, IsWs);
      r == s[lead..lead + |r|]
      && (forall i :: 0 <= i < lead ==> IsWs(s[i]))
      && (forall i :: lead + |r| <= i < |s| ==> IsWs(s[i]))
  {
    Strip(s, IsWs)
  }

  /** `trim` leaves alone a string without white space at either end, and
      only such strings. */
  lemma TrimFixpoint(s: string)
    ensures Trim(s) == s <==> (s == [] || (!IsWs(s[0]) && !IsWs(s[|s| - 1])))
  {
    if s != [] && !IsWs(s[0]) && !IsWs(s[|s| - 1]) {
      assert LeadingRun(s, IsWs) == 0;
      assert TrailingRun(s, IsWs) == 0;
    }
  }

  /** Trimming removes white space only: the characters other than white
      space and hyphens are those of the input, in order. */
  lemma TrimKeepsContent(s: string)
    ensures Filter(Trim(s), NotSep) == Filter(s, NotSep)
  {
    FilterIgnoresStrip(s, IsWs, NotSep);
  }

  /** `trim` gives the empty string exactly for all-white-space input. */
  lemma TrimEmpty(s: string)
    ensures Trim(s) == [] <==> forall i :: 0 <= i < |s| ==> IsWs(s[i])
  {
    if Trim(s) != [] {
      var lead := LeadingRun(s, IsWs);
      assert !IsWs(s[lead]);
    }
  }

  /** A single white-space character trims to nothing. */
  lemma TrimWsChar(c: char)
    requires IsWs(c)
    ensures Trim([c]) == []
  {
    TrimEmpty([c]);
  }

  /** `trim` removes exactly the white space around a string whose own ends
      are not white space. */
  lemma TrimPadding(w1: string, x: string, w2: string)
    requires forall i :: 0 <= i < |w1| ==> IsWs(w1[i])
    requires forall i :: 0 <= i < |w2| ==> IsWs(w2[i])
    requires x != [] && !IsWs(x[0]) && !IsWs(x[|x| - 1])
    ensures Trim(w1 + x + w2) == x
  {
    var s := w1 + x + w2;
    var r := Trim(s);
    PaddingSlices(w1, x, w2);
    assert LeadingRun(s, IsWs) == |w1|;
    assert forall k :: 0 <= k < |r| ==> r[k] == s[|w1| + k];
    assert |r| == |x|;
  }

  /** The positions of the three parts of `w1 + x + w2`, and the length of
      its leading white space when `x` starts with something else. */
  lemma PaddingSlices(w1: string, x: string, w2: string)
    requires forall i :: 0 <= i < |w1| ==> IsWs(w1[i])
    requires x != [] && !IsWs(x[0])
    ensures var s := w1 + x + w2;
      && LeadingRun(s, IsWs) == |w1|
      && s[|w1|..|w1| + |x|] == x
      && (forall i :: |w1| + |x| <= i < |s| ==> s[i] == w2[i - |w1| - |x|])
      && s[|w1| + |x| - 1] == x[|x| - 1]
  {
    var s := w1 + x + w2;
    assert s[|w1|] == x[0];
    assert forall i :: 0 <= i < |w1| ==> s[i] == w1[i];
  }

  /** No white space, and no hyphen directly followed by another: what the
      collapsing stage produces. */
  predicate IsCollapsed(s: string) {
    (forall i :: 0 <= i < |s| ==> !IsWs(s[i]))
    && (forall i :: 0 <= i < |s| - 1 && s[i] == '-' ==> s[i + 1] != '-')
  }

  /** Stage 4, line 20: every maximal run of white space and hyphens
      becomes one hyphen; nothing else changes. */
  function Collapse(s: string): (r: string)
    ensures IsCollapsed(r)
    ensures r == [] <==> s == []
    ensures r != [] ==> (r[0] == '-' <==> IsSep(s[0]))
    ensures |r| <= |s|
    ensures Filter(r, NotSep) == Filter(s, NotSep)
    decreases |s|
  {
    if s == [] then []
    else if IsSep(s[0]) then
      var rest := DropWhile(s, IsSep);
      CollapseStepAtRun(s, rest, Collapse(rest));
      ['-'] + Collapse(rest)
    else
      CollapseStepAtChar(s, Collapse(s[1..]));
      [s[0]] + Collapse(s[1..])
  }

  /** The inductive step of `Collapse`'s contract at a run of separators. */
  lemma CollapseStepAtRun(s: string, rest: string, t: string)
    requires s != [] && IsSep(s[0]) && rest == DropWhile(s, IsSep)
    requires IsCollapsed(t)
    requires t == [] <==> rest == []
    requires t != [] ==> (t[0] == '-' <==> IsSep(rest[0]))
    requires |t| <= |rest|
    requires Filter(t, NotSep) == Filter(rest, NotSep)
    ensures IsCollapsed(['-'] + t)
    ensures |['-'] + t| <= |s|
    ensures Filter(['-'] + t, NotSep) == Filter(s, NotSep)
  {
    PrependKeepsCollapsed('-', t);
    assert Filter(rest, NotSep) == Filter(s, NotSep) by {
      FilterIgnoresDroppedPrefix(s, IsSep, NotSep);
    }
    HyphenFiltered(t);
  }

  /** A leading hyphen is not part of the content. */
  lemma HyphenFiltered(t: string)
    ensures Filter(['-'] + t, NotSep) == Filter(t, NotSep)
  {
    FilterConcat(['-'], t, NotSep);
  }

  /** The inductive step of `Collapse`'s contract at a character that is kept. */
  lemma CollapseStepAtChar(s: string, t: string)
    requires s != [] && !IsSep(s[0])
    requires IsCollapsed(t)
    requires Filter(t, NotSep) == Filter(s[1..], NotSep)
    ensures IsCollapsed([s[0]] + t)
    ensures Filter([s[0]] + t, NotSep) == Filter(s, NotSep)
  {
    PrependKeepsCollapsed(s[0], t);
    assert s == [s[0]] + s[1..];
    FilterConcat([s[0]], s[1..], NotSep);
    FilterConcat([s[0]], t, NotSep);
  }

  /** Putting a non-space character in front of a collapsed string keeps it
      collapsed, unless a hyphen meets a hyphen. */
  lemma PrependKeepsCollapsed(c: char, t: string)
    requires IsCollapsed(t)
    requires !IsWs(c)
    requires c == '-' ==> t == [] || t[0] != '-'
    ensures IsCollapsed([c] + t)
  {
    var r := [c] + t;
    forall i | 0 <= i < |r| - 1 && r[i] == '-'
      ensures r[i + 1] != '-'
    {
      if i > 0 {
        assert r[i] == t[i - 1] && r[i + 1] == t[i];
      }
    }
  }

  /** A collapsed string is left unchanged by collapsing. */
  lemma {:induction false} CollapseFixpoint(s: string)
    requires IsCollapsed(s)
    ensures Collapse(s) == s
    decreases |s|
  {
    if s != [] {
      assert IsCollapsed(s[1..]);
      CollapseFixpoint(s[1..]);
      if s[0] == '-' {
        assert DropWhile(s[1..], IsSep) == s[1..];
        assert DropWhile(s, IsSep) == s[1..];
      }
    }
  }

  /** Collapsing is idempotent, and collapsed strings are exactly its fixed points. */
  lemma CollapseIdempotent(s: string)
    ensures Collapse(Collapse(s)) == Collapse(s)
    ensures Collapse(s) == s <==> IsCollapsed(s)
  {
    CollapseFixpoint(Collapse(s));
    if IsCollapsed(s) {
      CollapseFixpoint(s);
    }
  }

  /** Line 20 works run by run: a string that ends in a character other than
      a separator collapses independently of what follows it. */
  lemma {:induction false} CollapseConcat(a: string, b: string)
    requires a == [] || !IsSep(a[|a| - 1])
    ensures Collapse(a + b) == Collapse(a) + Collapse(b)
    decreases |a|
  {
    if a == [] {
      assert a + b == b;
    } else if !IsSep(a[0]) {
      CollapseConcat(a[1..], b);
      ConcatStepAtChar(a, b);
    } else {
      var front := DropWhile(a, IsSep);
      assert front != [] by {
        assert !IsSep(a[|a| - 1]);
      }
      CollapseConcat(front, b);
      ConcatStepAtRun(a, b, front);
    }
  }

  lemma ConcatStepAtChar(a: string, b: string)
    requires a != [] && !IsSep(a[0])
    requires Collapse(a[1..] + b) == Collapse(a[1..]) + Collapse(b)
    ensures Collapse(a + b) == Collapse(a) + Collapse(b)
  {
    var c, t := a[0], a[1..];
    ConsConcat(a, b);
    CollapseCons(c, t + b);
    CollapseCons(c, t);
    AppendAssoc([c], Collapse(t), Collapse(b));
  }

  /** A character that is not a separator is copied. */
  lemma CollapseCons(c: char, t: string)
    requires !IsSep(c)
    ensures Collapse([c] + t) == [c] + Collapse(t)
  {
    assert ([c] + t)[1..] == t;
  }

  lemma ConcatStepAtRun(a: string, b: string, front: string)
    requires a != [] && IsSep(a[0])
    requires front == DropWhile(a, IsSep) && front != []
    requires Collapse(front + b) == Collapse(front) + Collapse(b)
    ensures Collapse(a + b) == Collapse(a) + Collapse(b)
  {
    DropWhileConcat(a, b, IsSep);
    ConsConcat(a, b);
    AppendAssoc(['-'], Collapse(front), Collapse(b));
  }

  /** A non-empty run of separators followed by a character that is not one,
      or by nothing, becomes one hyphen. */
  lemma CollapseLeadingRun(w: string, v: string)
    requires w != [] && forall i :: 0 <= i < |w| ==> IsSep(w[i])
    requires v == [] || !IsSep(v[0])
    ensures Collapse(w + v) == ['-'] + Collapse(v)
  {
    var s := w + v;
    DropWhileRun(s, IsSep, 0, |w|);
    assert s[0..] == s && s[|w|..] == v;
  }

  /** A word, a run of separators, and the rest: the run becomes one hyphen
      between the word and the collapsed rest. */
  lemma CollapseWordThenRun(u: string, w: string, v: string)
    requires u != [] && forall i :: 0 <= i < |u| ==> !IsSep(u[i])
    requires w != [] && forall i :: 0 <= i < |w| ==> IsSep(w[i])
    requires v == [] || !IsSep(v[0])
    ensures Collapse(u + w + v) == u + "-" + Collapse(v)
  {
    AppendAssoc(u, w, v);
    CollapseConcat(u, w + v);
    CollapseLeadingRun(w, v);
    CollapseNoSep(u);
    AppendAssoc(u, "-", Collapse(v));
  }

  /** A string made only of white space and hyphens collapses to `"-"`. */
  lemma CollapseAllSep(w: string)
    requires w != [] && forall i :: 0 <= i < |w| ==> IsSep(w[i])
    ensures Collapse(w) == "-"
  {
    CollapseLeadingRun(w, []);
    assert w + [] == w;
  }

  /** A string without white space and hyphens is left as it is. */
  lemma CollapseNoSep(w: string)
    requires forall i :: 0 <= i < |w| ==> !IsSep(w[i])
    ensures Collapse(w) == w
  {
    CollapseFixpoint(w);
  }

  /** A maximal run of separators `s[i..j]` contributes exactly one hyphen. */
  lemma CollapseRun(s: string, i: int, j: int)
    requires 0 <= i < j <= |s|
    requires forall k :: i <= k < j ==> IsSep(s[k])
    requires j == |s| || !IsSep(s[j])
    ensures Collapse(s[i..]) == ['-'] + Collapse(s[j..])
  {
    DropWhileRun(s, IsSep, i, j);
  }

  /** A character that is not a separator is copied. */
  lemma CollapseChar(s: string, i: int)
    requires 0 <= i < |s| && !IsSep(s[i])
    ensures Collapse(s[i..]) == [s[i]] + Collapse(s[i + 1..])
  {
    assert s[i..][1..] == s[i + 1..];
  }

  /** The left-to-right scan a global regular-expression replace performs:
      at each separator the greedy `+` consumes the whole run. */
  method CollapseScan(s: string) returns (r: string)
    ensures r == Collapse(s)
  {
    r := [];
    var i := 0;
    while i < |s|
      invariant 0 <= i <= |s|
      invariant r + Collapse(s[i..]) == Collapse(s)
      decreases |s| - i
    {
      if IsSep(s[i]) {
        var j := SkipRun(s, i);
        ScanStepAtRun(s, r, i, j);
        r := r + ['-'];
        i := j;
      } else {
        ScanStepAtChar(s, r, i);
        r := r + [s[i]];
        i := i + 1;
      }
    }
    assert s[i..] == [];
  }

  /** The end of the maximal run of separators that starts at `i`. */
  method SkipRun(s: string, i: int) returns (j: int)
    requires 0 <= i < |s| && IsSep(s[i])
    ensures i < j <= |s|
    ensures forall k :: i <= k < j ==> IsSep(s[k])
    ensures j == |s| || !IsSep(s[j])
  {
    j := i + 1;
    while j < |s| && IsSep(s[j])
      invariant i < j <= |s|
      invariant forall k :: i <= k < j ==> IsSep(s[k])
      decreases |s| - j
    {
      j := j + 1;
    }
  }

  /** The scan's step over a maximal run of separators. */
  lemma ScanStepAtRun(s: string, r: string, i: int, j: int)
    requires 0 <= i < j <= |s|
    requires forall k :: i <= k < j ==> IsSep(s[k])
    requires j == |s| || !IsSep(s[j])
    requires r + Collapse(s[i..]) == Collapse(s)
    ensures (r + ['-']) + Collapse(s[j..]) == Collapse(s)
  {
    CollapseRun(s, i, j);
    AppendAssoc(r, ['-'], Collapse(s[j..]));
  }

  /** The scan's step over a character that is copied. */
  lemma ScanStepAtChar(s: string, r: string, i: int)
    requires 0 <= i < |s| && !IsSep(s[i])
    requires r + Collapse(s[i..]) == Collapse(s)
    ensures (r + [s[i]]) + Collapse(s[i + 1..]) == Collapse(s)
  {
    CollapseChar(s, i);
    AppendAssoc(r, [s[i]], Collapse(s[i + 1..]));
  }
}
