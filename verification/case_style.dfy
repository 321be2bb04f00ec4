/**
 Case formatting of a collapsed slug (src/index.ts lines 5 and 22-30) and
 `capitalize` (lines 297-298).
 */
module CaseStyle {
  import opened Chars
  import opened Sequences
  import opened Stages

  datatype Option<T> = None | Some(value: T)

  /** The output styles; `Kebab` is the default. */
  datatype Casing = Kebab | Snake | Camel

  /** Reads the `case` option: absent means `'kebab'`, and only the exact
      strings `'snake'` and `'camel'` select another style, so every other
      value behaves as kebab. */
  function CasingOf(requested: Option<string>): (c: Casing)
    ensures c == Snake <==> requested == Some("snake")
    ensures c == Camel <==> requested == Some("camel")
    ensures c == Kebab <==> requested == None || (requested.value != "snake" && requested.value != "camel")
  {
    var name := if requested.Some? then requested.value else "kebab";
    if name == "snake" then Snake else if name == "camel" then Camel else Kebab
  }

  /** Line 24: every hyphen of the slug becomes an underscore. */
  function SnakeCase(slug: string): (r: string)
    ensures |r| == |slug|
    ensures forall i :: 0 <= i < |slug| && slug[i] == '-' ==> r[i] == '_'
    ensures forall i :: 0 <= i < |slug| && slug[i] != '-' ==> r[i] == slug[i]
    ensures '-' !in r
  {
    Replace(slug, '-', '_')
  }

  /** A slug without underscores is recovered from its snake form. */
  lemma SnakeRoundTrip(slug: string)
    requires '_' !in slug
    ensures Replace(SnakeCase(slug), '_', '-') == slug
  {
    ReplaceBack(slug, '-', '_');
  }

  /** Lines 297-298: the first character of the word upper-cased, the rest
      unchanged; the empty word stays empty. */
  function Capitalize(word: string): (r: string)
    ensures word == [] ==> r == []
    ensures |r| == |word|
    ensures word != [] ==> r[0] == ToUpperChar(word[0]) && r[1..] == word[1..]
  {
    if word == [] then [] else [ToUpperChar(word[0])] + word[1..]
  }

  /** Capitalizing changes nothing but the case of the first character. */
  lemma CapitalizeOnlyChangesCase(word: string)
    ensures Lowercase(Capitalize(word)) == Lowercase(word)
    ensures Capitalize(Capitalize(word)) == Capitalize(word)
  {
    if word != [] {
      LowerOfUpper(word[0]);
      assert word == [word[0]] + word[1..];
      MapCharsConcat([ToUpperChar(word[0])], word[1..], ToLowerChar);
      MapCharsConcat([word[0]], word[1..], ToLowerChar);
    }
  }

  /** `capitalize` applied to every word. */
  function CapitalizeAll(words: seq<string>): (r: seq<string>)
    ensures |r| == |words|
    ensures forall i :: 0 <= i < |words| ==> r[i] == Capitalize(words[i])
    decreases |words|
  {
    if words == [] then [] else [Capitalize(words[0])] + CapitalizeAll(words[1..])
  }

  /** Lines 26-29: the slug is cut at every hyphen, every word after the
      first is capitalized, and the words are concatenated. */
  function CamelCase(slug: string): (r: string)
    ensures '-' !in r
    ensures |r| == |slug| - multiset(slug)['-']
    ensures Split(slug, '-')[0] <= r
    ensures Lowercase(r) == Lowercase(Filter(slug, NotHyphen))
  {
    var words := Split(slug, '-');
    CamelWordsMatchChars(slug, false);
    JoinCons(words[0], CapitalizeAll(words[1..]), []);
    Join([words[0]] + CapitalizeAll(words[1..]), [])
  }

  /** Camel case read character by character: hyphens vanish, and the first
      character after a hyphen is upper-cased. */
  function CamelByChars(s: string, atWordStart: bool): (r: string)
    ensures '-' !in r
    ensures |r| == |s| - multiset(s)['-']
    ensures Lowercase(r) == Lowercase(Filter(s, NotHyphen))
    decreases |s|
  {
    if s == [] then []
    else if s[0] == '-' then
      assert s == [s[0]] + s[1..];
      CamelByChars(s[1..], true)
    else
      var c := if atWordStart then ToUpperChar(s[0]) else s[0];
      CamelCharStep(s, c, CamelByChars(s[1..], false));
      [c] + CamelByChars(s[1..], false)
  }

  lemma CamelCharStep(s: string, c: char, t: string)
    requires s != [] && s[0] != '-'
    requires c == s[0] || c == ToUpperChar(s[0])
    requires '-' !in t
    requires |t| == |s[1..]| - multiset(s[1..])['-']
    requires Lowercase(t) == Lowercase(Filter(s[1..], NotHyphen))
    ensures '-' !in [c] + t
    ensures |[c] + t| == |s| - multiset(s)['-']
    ensures Lowercase([c] + t) == Lowercase(Filter(s, NotHyphen))
  {
    assert s == [s[0]] + s[1..];
    LowerOfUpper(s[0]);
    assert Filter(s, NotHyphen) == [s[0]] + Filter(s[1..], NotHyphen);
    MapCharsConcat([c], t, ToLowerChar);
    MapCharsConcat([s[0]], Filter(s[1..], NotHyphen), ToLowerChar);
  }

  /** Camel case of a word list, the first word either as it is or capitalized. */
  function CamelJoin(words: seq<string>, capitalizeFirst: bool): string
    requires words != []
  {
    Join([if capitalizeFirst then Capitalize(words[0]) else words[0]] + CapitalizeAll(words[1..]), [])
  }

  /** The word-wise definition of camel case and the character-wise one agree. */
  lemma {:induction false} CamelWordsMatchChars(s: string, atWordStart: bool)
    ensures CamelByChars(s, atWordStart) == CamelJoin(Split(s, '-'), atWordStart)
    decreases |s|
  {
    if s != [] {
      var rest := Split(s[1..], '-');
      CamelWordsMatchChars(s[1..], s[0] == '-');
      if s[0] == '-' {
        CamelJoinAtHyphen(rest, atWordStart);
      } else {
        CamelJoinAtChar(s[0], rest, atWordStart);
      }
    }
  }

  /** A hyphen in front adds an empty first word and capitalizes the next. */
  lemma CamelJoinAtHyphen(rest: seq<string>, capitalizeFirst: bool)
    requires rest != []
    ensures CamelJoin([[]] + rest, capitalizeFirst) == CamelJoin(rest, true)
  {
    var words := [[]] + rest;
    assert words[1..] == rest;
    JoinCons([], CapitalizeAll(rest), []);
    assert CapitalizeAll(rest) == [Capitalize(rest[0])] + CapitalizeAll(rest[1..]);
  }

  /** A character in front extends the first word. */
  lemma CamelJoinAtChar(c: char, rest: seq<string>, capitalizeFirst: bool)
    requires rest != []
    ensures CamelJoin([[c] + rest[0]] + rest[1..], capitalizeFirst)
      == [if capitalizeFirst then ToUpperChar(c) else c] + CamelJoin(rest, false)
  {
    var words := [[c] + rest[0]] + rest[1..];
    var lead := if capitalizeFirst then ToUpperChar(c) else c;
    var later := CapitalizeAll(rest[1..]);
    var plain := [rest[0]] + later;
    assert words[1..] == rest[1..];
    assert (if capitalizeFirst then Capitalize(words[0]) else words[0]) == [lead] + rest[0];
    assert CamelJoin(words, capitalizeFirst) == Join([[lead] + rest[0]] + later, []);
    assert plain[0] == rest[0] && plain[1..] == later;
    JoinStep(lead, plain, []);
  }

  /** `CamelCase` is the character-wise reading started outside a word. */
  lemma CamelCaseByChars(slug: string)
    ensures CamelCase(slug) == CamelByChars(slug, false)
  {
    CamelWordsMatchChars(slug, false);
  }

  /** Words joined by hyphens come out as the first word followed by every
      later word capitalized, with nothing in between. */
  lemma CamelOfJoin(words: seq<string>)
    requires |words| >= 1
    requires forall i :: 0 <= i < |words| ==> '-' !in words[i]
    ensures CamelCase(Join(words, "-")) == Join([words[0]] + CapitalizeAll(words[1..]), [])
  {
    SplitJoin(words, '-');
  }

  /** Lines 22-30: kebab and every unrecognised value leave the slug as it is,
      snake puts `_` where `-` was, camel drops the hyphens and keeps every
      other character up to case. */
  function Format(slug: string, casing: Casing): (r: string)
    ensures casing == Kebab ==> r == slug
    ensures casing == Snake ==> |r| == |slug| && '-' !in r
    ensures casing == Snake ==> forall i :: 0 <= i < |slug| ==> r[i] == if slug[i] == '-' then '_' else slug[i]
    ensures casing == Camel ==> '-' !in r && |r| == |slug| - multiset(slug)['-']
    ensures casing == Camel ==> Lowercase(r) == Lowercase(Filter(slug, NotHyphen))
  {
    match casing
    case Kebab => slug
    case Snake => SnakeCase(slug)
    case Camel => CamelCase(slug)
  }
}
