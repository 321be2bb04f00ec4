/**
 Character-sequence operations the pipeline is built from: filtering,
 per-character mapping, dropping a prefix or suffix of a class, and the
 one-character `split`/`join` of JavaScript strings.
 */
module Sequences {

  /** `a` is obtained from `b` by deleting characters. */
  predicate IsSubseq(a: string, b: string)
    decreases |b|
  {
    a == [] || (b != [] && ((a[0] == b[0] && IsSubseq(a[1..], b[1..])) || IsSubseq(a, b[1..])))
  }

  /** The characters of `s` that `keep` accepts, in their original order. */
  function Filter(s: string, keep: char -> bool): (r: string)
    ensures |r| <= |s|
    ensures forall i :: 0 <= i < |r| ==> keep(r[i])
    decreases |s|
  {
    if s == [] then [] else (if keep(s[0]) then [s[0]] else []) + Filter(s[1..], keep)
  }

  /** Filtering only deletes characters. */
  lemma {:induction false} FilterIsSubseq(s: string, keep: char -> bool)
    ensures IsSubseq(Filter(s, keep), s)
    decreases |s|
  {
    if s != [] {
      FilterIsSubseq(s[1..], keep);
      var rest := Filter(s[1..], keep);
      if keep(s[0]) {
        assert Filter(s, keep) == [s[0]] + rest;
        assert ([s[0]] + rest)[1..] == rest;
      } else {
        assert Filter(s, keep) == rest;
      }
    }
  }

  /** Filtering deletes every occurrence of a rejected character and no
      occurrence of an accepted one. */
  lemma {:induction false} FilterCounts(s: string, keep: char -> bool, c: char)
    ensures keep(c) ==> multiset(Filter(s, keep))[c] == multiset(s)[c]
    ensures !keep(c) ==> multiset(Filter(s, keep))[c] == 0
    decreases |s|
  {
    if s != [] {
      FilterCounts(s[1..], keep, c);
      var head := if keep(s[0]) then [s[0]] else [];
      assert s == [s[0]] + s[1..];
      assert multiset(s) == multiset{s[0]} + multiset(s[1..]);
      assert multiset(Filter(s, keep)) == multiset(head) + multiset(Filter(s[1..], keep));
    }
  }

  /** A character is in the filtered string exactly when it is in the
      string and accepted. */
  lemma FilterMembership(s: string, keep: char -> bool, c: char)
    ensures c in Filter(s, keep) <==> c in s && keep(c)
  {
    FilterCounts(s, keep, c);
    assert c in Filter(s, keep) <==> multiset(Filter(s, keep))[c] > 0;
    assert c in s <==> multiset(s)[c] > 0;
  }

  lemma {:induction false} FilterConcat(a: string, b: string, keep: char -> bool)
    ensures Filter(a + b, keep) == Filter(a, keep) + Filter(b, keep)
    decreases |a|
  {
    if a == [] {
      assert a + b == b;
    } else {
      assert (a + b)[1..] == a[1..] + b;
      FilterConcat(a[1..], b, keep);
    }
  }

  /** Filtering keeps a string whose every character is accepted. */
  lemma {:induction false} FilterKeepsAll(s: string, keep: char -> bool)
    requires forall i :: 0 <= i < |s| ==> keep(s[i])
    ensures Filter(s, keep) == s
    decreases |s|
  {
    if s != [] {
      FilterKeepsAll(s[1..], keep);
    }
  }

  /** Filtering empties a string whose every character is rejected. */
  lemma {:induction false} FilterDropsAll(s: string, keep: char -> bool)
    requires forall i :: 0 <= i < |s| ==> !keep(s[i])
    ensures Filter(s, keep) == []
    decreases |s|
  {
    if s != [] {
      FilterDropsAll(s[1..], keep);
    }
  }

  /** Filters that agree on every character of `s` filter it alike. */
  lemma {:induction false} FilterAgree(s: string, p: char -> bool, q: char -> bool)
    requires forall i :: 0 <= i < |s| ==> p(s[i]) == q(s[i])
    ensures Filter(s, p) == Filter(s, q)
    decreases |s|
  {
    if s != [] {
      FilterAgree(s[1..], p, q);
    }
  }

  /** Two filters in a row are one filter by the conjunction. */
  lemma {:induction false} FilterFilter(s: string, p: char -> bool, q: char -> bool, both: char -> bool)
    requires forall c :: both(c) == (p(c) && q(c))
    ensures Filter(Filter(s, p), q) == Filter(s, both)
    decreases |s|
  {
    if s != [] {
      FilterFilter(s[1..], p, q, both);
      var rest := Filter(s[1..], p);
      if p(s[0]) {
        assert Filter(s, p) == [s[0]] + rest;
        assert ([s[0]] + rest)[1..] == rest;
      } else {
        assert Filter(s, p) == rest;
      }
    }
  }

  /** Applies `f` to every character. */
  function MapChars(s: string, f: char -> char): (r: string)
    ensures |r| == |s|
    ensures forall i :: 0 <= i < |s| ==> r[i] == f(s[i])
    decreases |s|
  {
    if s == [] then [] else [f(s[0])] + MapChars(s[1..], f)
  }

  lemma MapCharsConcat(a: string, b: string, f: char -> char)
    ensures MapChars(a + b, f) == MapChars(a, f) + MapChars(b, f)
  {
    var l, r := MapChars(a + b, f), MapChars(a, f) + MapChars(b, f);
    assert |l| == |r|;
    forall i | 0 <= i < |l|
      ensures l[i] == r[i]
    {
      if i < |a| {
        assert (a + b)[i] == a[i];
      } else {
        assert (a + b)[i] == b[i - |a|];
      }
    }
  }

  /** Concatenation is associative. Stated apart so that proofs about
      recursive string functions can use it without the solver unfolding
      those functions. */
  lemma AppendAssoc(a: string, b: string, c: string)
    ensures a + (b + c) == (a + b) + c
  {
  }

  /** A non-empty string, and one with something appended, split at the first character. */
  lemma ConsConcat(a: string, b: string)
    requires a != []
    ensures a == [a[0]] + a[1..]
    ensures (a + b)[0] == a[0] && a + b == [a[0]] + (a[1..] + b)
  {
  }

  /** Every occurrence of `from` replaced by `to`. */
  function Replace(s: string, from: char, to: char): (r: string)
    ensures |r| == |s|
    ensures forall i :: 0 <= i < |s| ==> r[i] == if s[i] == from then to else s[i]
    ensures from != to ==> from !in r
  {
    MapChars(s, c => if c == from then to else c)
  }

  /** Replacing one rejected character by another does not change the filtered string. */
  lemma {:induction false} FilterIgnoresReplace(s: string, from: char, to: char, keep: char -> bool)
    requires !keep(from) && !keep(to)
    ensures Filter(Replace(s, from, to), keep) == Filter(s, keep)
    decreases |s|
  {
    if s != [] {
      var r := Replace(s, from, to);
      assert r[1..] == Replace(s[1..], from, to);
      FilterIgnoresReplace(s[1..], from, to, keep);
    }
  }

  /** Replacing back restores a string that did not hold the replacement character. */
  lemma ReplaceBack(s: string, from: char, to: char)
    requires to !in s
    ensures Replace(Replace(s, from, to), to, from) == s
  {
    var back := Replace(Replace(s, from, to), to, from);
    assert |back| == |s|;
    forall i | 0 <= i < |s|
      ensures back[i] == s[i]
    {
      assert s[i] != to;
    }
  }

  /** The length of the longest prefix of `s` whose characters satisfy `p`. */
  function LeadingRun(s: string, p: char -> bool): (n: nat)
    ensures n <= |s|
    ensures forall i :: 0 <= i < n ==> p(s[i])
    ensures n < |s| ==> !p(s[n])
    decreases |s|
  {
    if s != [] && p(s[0]) then
      var m := LeadingRun(s[1..], p);
      assert forall i :: 1 <= i < 1 + m ==> s[i] == s[1..][i - 1];
      1 + m
    else 0
  }

  /** The leading run is the only prefix of characters satisfying `p` that is
      followed by the end or by a character that does not. */
  lemma LeadingRunExact(s: string, p: char -> bool, n: int)
    requires 0 <= n <= |s|
    requires forall k :: 0 <= k < n ==> p(s[k])
    requires n == |s| || !p(s[n])
    ensures LeadingRun(s, p) == n
  {
  }

  /** `s` without its longest prefix of characters satisfying `p`. */
  function DropWhile(s: string, p: char -> bool): (r: string)
    ensures |r| <= |s| && r == s[|s| - |r|..]
    ensures forall i :: 0 <= i < |s| - |r| ==> p(s[i])
    ensures r == [] || !p(r[0])
    ensures s != [] && p(s[0]) ==> |r| < |s|
  {
    s[LeadingRun(s, p)..]
  }

  /** The length of the longest suffix of `s` whose characters satisfy `p`. */
  function TrailingRun(s: string, p: char -> bool): (n: nat)
    ensures n <= |s|
    ensures forall i :: |s| - n <= i < |s| ==> p(s[i])
    ensures n < |s| ==> !p(s[|s| - n - 1])
    decreases |s|
  {
    if s != [] && p(s[|s| - 1]) then
      var m := TrailingRun(s[..|s| - 1], p);
      assert forall i :: |s| - 1 - m <= i < |s| - 1 ==> s[i] == s[..|s| - 1][i];
      1 + m
    else 0
  }

  /** `s` without its longest prefix and longest suffix of characters
      satisfying `p`: the slice after the leading run, followed only by
      characters satisfying `p`. */
  function Strip(s: string, p: char -> bool): (r: string)
    ensures r == [] || (!p(r[0]) && !p(r[|r| - 1]))
    ensures LeadingRun(s, p) + |r| <= |s|
    ensures r == s[LeadingRun(s, p)..LeadingRun(s, p) + |r|]
    ensures forall i :: LeadingRun(s, p) + |r| <= i < |s| ==> p(s[i])
  {
    var a := LeadingRun(s, p);
    var front := s[a..];
    var b := TrailingRun(front, p);
    forall i | |s| - b <= i < |s|
      ensures p(s[i])
    {
      assert s[i] == front[i - a];
    }
    assert b < |front| ==> s[|s| - b - 1] == front[|front| - b - 1];
    s[a..|s| - b]
  }

  /** Stripping characters the filter rejects anyway does not change the filtered string. */
  lemma FilterIgnoresStrip(s: string, p: char -> bool, keep: char -> bool)
    requires forall c :: p(c) ==> !keep(c)
    ensures Filter(Strip(s, p), keep) == Filter(s, keep)
  {
    var r := Strip(s, p);
    var a := LeadingRun(s, p);
    var before, after := s[..a], s[a + |r|..];
    assert s == before + r + after;
    FilterConcat(before + r, after, keep);
    FilterConcat(before, r, keep);
    assert forall i :: 0 <= i < |before| ==> !keep(before[i]) by {
      forall i | 0 <= i < |before| ensures !keep(before[i]) {
        assert p(s[i]);
      }
    }
    assert forall i :: 0 <= i < |after| ==> !keep(after[i]) by {
      forall i | 0 <= i < |after| ensures !keep(after[i]) {
        assert p(s[a + |r| + i]);
      }
    }
    FilterDropsAll(before, keep);
    FilterDropsAll(after, keep);
  }

  /** A run `s[i..j]` of characters satisfying `p`, followed by one that does
      not or by the end, is exactly what `DropWhile` removes from `s[i..]`. */
  lemma DropWhileRun(s: string, p: char -> bool, i: int, j: int)
    requires 0 <= i <= j <= |s|
    requires forall k :: i <= k < j ==> p(s[k])
    requires j == |s| || !p(s[j])
    ensures DropWhile(s[i..], p) == s[j..]
  {
    var u := s[i..];
    assert forall k :: 0 <= k < j - i ==> p(u[k]) by {
      forall k | 0 <= k < j - i ensures p(u[k]) {
        assert u[k] == s[i + k];
      }
    }
    assert j - i < |u| ==> u[j - i] == s[j];
    LeadingRunExact(u, p, j - i);
    assert u[j - i..] == s[j..];
  }

  /** When the leading run of `a` ends inside `a`, appending `b` does not change it. */
  lemma DropWhileConcat(a: string, b: string, p: char -> bool)
    requires DropWhile(a, p) != []
    ensures DropWhile(a + b, p) == DropWhile(a, p) + b
  {
    var front := DropWhile(a, p);
    var j := |a| - |front|;
    var s := a + b;
    assert forall k :: 0 <= k < j ==> p(s[k]) by {
      forall k | 0 <= k < j ensures p(s[k]) {
        assert s[k] == a[k];
      }
    }
    assert !p(s[j]) by {
      assert s[j] == a[j] == front[0];
    }
    DropWhileRun(s, p, 0, j);
    SliceOfConcat(a, b, j);
  }

  /** Slicing `a + b` from a position inside `a`. */
  lemma SliceOfConcat(a: string, b: string, j: int)
    requires 0 <= j <= |a|
    ensures (a + b)[0..] == a + b
    ensures (a + b)[j..] == a[j..] + b
  {
  }

  /** Dropping a leading run that the filter rejects anyway does not change the filtered string. */
  lemma FilterIgnoresDroppedPrefix(s: string, p: char -> bool, keep: char -> bool)
    requires forall c :: p(c) ==> !keep(c)
    ensures Filter(DropWhile(s, p), keep) == Filter(s, keep)
  {
    var front := DropWhile(s, p);
    var dropped := s[..|s| - |front|];
    assert s == dropped + front;
    assert forall i :: 0 <= i < |dropped| ==> !keep(dropped[i]) by {
      forall i | 0 <= i < |dropped| ensures !keep(dropped[i]) {
        assert p(s[i]);
      }
    }
    FilterConcat(dropped, front, keep);
    FilterDropsAll(dropped, keep);
  }

  /** Sum of the lengths of the pieces. */
  function TotalLength(pieces: seq<string>): nat
  {
    if pieces == [] then 0 else |pieces[0]| + TotalLength(pieces[1..])
  }

  /** The pieces concatenated with `delim` between neighbours. */
  function Join(pieces: seq<string>, delim: string): string
    decreases |pieces|
  {
    if pieces == [] then []
    else if |pieces| == 1 then pieces[0]
    else pieces[0] + delim + Join(pieces[1..], delim)
  }

  /** The joined text holds every piece and one delimiter between
      neighbours: it starts with the first piece (followed by the delimiter
      when there is a second), ends with the last, and is as long as the
      pieces plus one delimiter per gap. */
  lemma {:induction false} JoinShape(pieces: seq<string>, delim: string)
    requires pieces != []
    ensures |Join(pieces, delim)| == TotalLength(pieces) + (|pieces| - 1) * |delim|
    ensures pieces[0] <= Join(pieces, delim)
    ensures |pieces| > 1 ==> pieces[0] + delim <= Join(pieces, delim)
    ensures Suffix(pieces[|pieces| - 1], Join(pieces, delim))
    decreases |pieces|
  {
    if |pieces| > 1 {
      var rest := Join(pieces[1..], delim);
      JoinShape(pieces[1..], delim);
      assert pieces[1..][|pieces[1..]| - 1] == pieces[|pieces| - 1];
      SuffixAfter(pieces[0] + delim, rest, pieces[|pieces| - 1]);
    }
  }

  /** `s` ends with `x`. */
  predicate Suffix(x: string, s: string) {
    |x| <= |s| && s[|s| - |x|..] == x
  }

  lemma SuffixAfter(p: string, s: string, x: string)
    requires Suffix(x, s)
    ensures Suffix(x, p + s)
  {
    assert (p + s)[|p + s| - |x|..] == s[|s| - |x|..];
  }

  lemma JoinCons(first: string, rest: seq<string>, delim: string)
    ensures Join([first] + rest, delim) == if rest == [] then first else first + delim + Join(rest, delim)
  {
    assert ([first] + rest)[1..] == rest;
  }

  /** Three pieces joined. */
  lemma JoinThree(a: string, b: string, c: string, delim: string)
    ensures Join([a, b, c], delim) == a + delim + b + delim + c
  {
    assert [a, b, c][1..] == [b, c];
    assert [b, c][1..] == [c];
    assert Join([c], delim) == c;
    assert Join([b, c], delim) == b + delim + c;
    AppendAssoc(a + delim, b, delim + c);
    assert a + delim + b + delim + c == (a + delim) + (b + delim + c);
  }

  /** `s.split(sep)` for a one-character separator: at least one piece, and
      no piece holds the separator. */
  function Split(s: string, sep: char): (pieces: seq<string>)
    ensures |pieces| >= 1
    ensures forall i :: 0 <= i < |pieces| ==> sep !in pieces[i]
    decreases |s|
  {
    if s == [] then [[]]
    else
      var rest := Split(s[1..], sep);
      if s[0] == sep then [[]] + rest
      else
        assert forall i :: 1 <= i < |rest| ==> ([[s[0]] + rest[0]] + rest[1..])[i] == rest[i];
        [[s[0]] + rest[0]] + rest[1..]
  }

  /** `Split` at a string that starts with an ordinary character. */
  lemma SplitCons(s: string, sep: char)
    requires s != [] && s[0] != sep
    ensures var rest := Split(s[1..], sep);
      Split(s, sep) == [[s[0]] + rest[0]] + rest[1..]
  {
  }

  /** There is one piece more than there are separators. */
  lemma {:induction false} SplitCount(s: string, sep: char)
    ensures |Split(s, sep)| == multiset(s)[sep] + 1
    decreases |s|
  {
    if s != [] {
      SplitCount(s[1..], sep);
      assert s == [s[0]] + s[1..];
    }
  }

  /** Joining the pieces with the separator gives the string back. */
  lemma {:induction false} JoinSplit(s: string, sep: char)
    ensures Join(Split(s, sep), [sep]) == s
    decreases |s|
  {
    if s != [] {
      JoinSplit(s[1..], sep);
      var rest := Split(s[1..], sep);
      if s[0] == sep {
        JoinCons([], rest, [sep]);
      } else {
        JoinStep(s[0], rest, [sep]);
      }
      assert s == [s[0]] + s[1..];
    }
  }

  /** Prepending a character to the first piece prepends it to the joined string. */
  lemma JoinStep(c: char, rest: seq<string>, delim: string)
    requires rest != []
    ensures Join([[c] + rest[0]] + rest[1..], delim) == [c] + Join(rest, delim)
  {
    var head := [c] + rest[0];
    JoinCons(head, rest[1..], delim);
    JoinCons(rest[0], rest[1..], delim);
    assert [rest[0]] + rest[1..] == rest;
    if rest[1..] != [] {
      var tail := Join(rest[1..], delim);
      assert head + delim + tail == [c] + (rest[0] + delim + tail);
    }
  }

  /** Splitting a string with one more separator in front. */
  lemma {:induction false} SplitAfterPiece(w: string, sep: char, t: string)
    requires sep !in w
    ensures Split(w + [sep] + t, sep) == [w] + Split(t, sep)
    decreases |w|
  {
    if w == [] {
      assert w + [sep] + t == [sep] + t;
      assert ([sep] + t)[1..] == t;
    } else {
      var s := w + [sep] + t;
      assert s[0] == w[0];
      assert s[1..] == w[1..] + [sep] + t;
      SplitAfterPiece(w[1..], sep, t);
      var rest := Split(s[1..], sep);
      assert rest[0] == w[1..];
      assert rest[1..] == Split(t, sep);
      assert [s[0]] + rest[0] == w;
      SplitCons(s, sep);
    }
  }

  /** A string without the separator splits into itself. */
  lemma {:induction false} SplitWithoutSep(w: string, sep: char)
    requires sep !in w
    ensures Split(w, sep) == [w]
    decreases |w|
  {
    if w != [] {
      SplitWithoutSep(w[1..], sep);
      assert [w[0]] + w[1..] == w;
    }
  }

  /** The other half of the split/join round trip: joining pieces free of the
      separator and splitting again gives the pieces back. */
  lemma {:induction false} SplitJoin(pieces: seq<string>, sep: char)
    requires |pieces| >= 1
    requires forall i :: 0 <= i < |pieces| ==> sep !in pieces[i]
    ensures Split(Join(pieces, [sep]), sep) == pieces
    decreases |pieces|
  {
    if |pieces| == 1 {
      SplitWithoutSep(pieces[0], sep);
    } else {
      SplitJoin(pieces[1..], sep);
      SplitAfterPiece(pieces[0], sep, Join(pieces[1..], [sep]));
      assert [pieces[0]] + pieces[1..] == pieces;
    }
  }
}
