/**
 The pipeline of `slugify` (src/index.ts lines 4-33) from the decomposed
 text onward, and the whole function with its two Unicode-table stages
 (emoji replacement and NFKD decomposition) taken as parameters.
 */
module Slug {
  import opened Chars
  import opened Sequences
  import opened Stages
  import opened CaseStyle

  /** ASCII lower-case letters, digits and hyphens, no hyphen directly
      followed by another. A hyphen may stand at either end. */
  predicate IsKebab(s: string) {
    (forall i :: 0 <= i < |s| ==> IsSlugChar(s[i]) || s[i] == '-')
    && (forall i :: 0 <= i < |s| - 1 && s[i] == '-' ==> s[i + 1] != '-')
  }

  /** Lines 14-20: lower-case, drop every character outside `[a-z0-9\s-]`,
      trim, and collapse separator runs. The letters and digits of the
      result are those of the lower-cased input, in order. */
  function Normalize(s: string): (r: string)
    ensures IsKebab(r)
    ensures Filter(r, IsSlugChar) == Filter(Lowercase(s), IsSlugChar)
  {
    var lowered := Lowercase(s);
    var kept := KeepAllowed(lowered);
    var trimmed := Trim(kept);
    var r := Collapse(trimmed);
    NormalizeContent(lowered, kept, trimmed, r);
    r
  }

  lemma NormalizeContent(lowered: string, kept: string, trimmed: string, r: string)
    requires kept == KeepAllowed(lowered) && trimmed == Trim(kept) && r == Collapse(trimmed)
    ensures IsKebab(r)
    ensures Filter(r, IsSlugChar) == Filter(lowered, IsSlugChar)
  {
    NormalizeCharset(kept, trimmed, r);
    FilterAgree(r, IsSlugChar, NotSep);
    TrimKeepsContent(kept);
    KeepAllowedContent(lowered);
  }

  /** The non-separators that survive the filter of line 16 are the letters and digits. */
  lemma KeepAllowedContent(s: string)
    ensures Filter(KeepAllowed(s), NotSep) == Filter(s, IsSlugChar)
  {
    FilterFilter(s, IsAllowed, NotSep, IsSlugChar);
  }

  /** Only letters, digits and hyphens reach the collapsed slug. */
  lemma NormalizeCharset(kept: string, trimmed: string, r: string)
    requires forall j :: 0 <= j < |kept| ==> IsAllowed(kept[j])
    requires trimmed == Trim(kept) && r == Collapse(trimmed)
    ensures IsKebab(r)
  {
    TrimKeepsAllowed(kept, trimmed);
    CollapseKeepsAllowed(trimmed, r);
  }

  /** Trimming a string of allowed characters leaves allowed characters. */
  lemma TrimKeepsAllowed(kept: string, trimmed: string)
    requires forall j :: 0 <= j < |kept| ==> IsAllowed(kept[j])
    requires trimmed == Trim(kept)
    ensures forall j :: 0 <= j < |trimmed| ==> IsAllowed(trimmed[j])
  {
    var lead := LeadingRun(kept, IsWs);
    forall j | 0 <= j < |trimmed|
      ensures IsAllowed(trimmed[j])
    {
      assert trimmed[j] == kept[lead + j];
    }
  }

  /** Collapsing a string of allowed characters gives a kebab slug. */
  lemma CollapseKeepsAllowed(t: string, r: string)
    requires forall j :: 0 <= j < |t| ==> IsAllowed(t[j])
    requires r == Collapse(t)
    ensures IsKebab(r)
  {
    forall i | 0 <= i < |r|
      ensures IsSlugChar(r[i]) || r[i] == '-'
    {
      if r[i] != '-' {
        assert !IsWs(r[i]);
        FilterMembership(r, NotSep, r[i]);
        FilterMembership(t, NotSep, r[i]);
        var j :| 0 <= j < |t| && t[j] == r[i];
      }
    }
  }

  /** The slug is empty exactly when the lower-cased input holds no letter,
      digit or hyphen: white space alone is trimmed away. */
  lemma NormalizeEmpty(s: string)
    ensures Normalize(s) == [] <==>
      forall i :: 0 <= i < |s| ==> !IsSlugChar(ToLowerChar(s[i])) && s[i] != '-'
  {
    var kept := KeepAllowed(Lowercase(s));
    TrimEmpty(kept);
    assert Normalize(s) == [] <==> forall j :: 0 <= j < |kept| ==> IsWs(kept[j]);
    if exists i :: 0 <= i < |s| && (IsSlugChar(ToLowerChar(s[i])) || s[i] == '-') {
      var i :| 0 <= i < |s| && (IsSlugChar(ToLowerChar(s[i])) || s[i] == '-');
      KeptSurvives(s, i);
    } else {
      OnlySpaceKept(s);
    }
  }

  /** A letter, digit or hyphen of the input survives the filter of line 16. */
  lemma KeptSurvives(s: string, i: int)
    requires 0 <= i < |s| && (IsSlugChar(ToLowerChar(s[i])) || s[i] == '-')
    ensures exists j :: 0 <= j < |KeepAllowed(Lowercase(s))| && !IsWs(KeepAllowed(Lowercase(s))[j])
  {
    var lowered := Lowercase(s);
    var kept := KeepAllowed(lowered);
    var c := lowered[i];
    assert IsAllowed(c) && !IsWs(c);
    FilterMembership(lowered, IsAllowed, c);
    var j :| 0 <= j < |kept| && kept[j] == c;
  }

  /** Without letters, digits and hyphens only white space passes the filter of line 16. */
  lemma OnlySpaceKept(s: string)
    requires forall i :: 0 <= i < |s| ==> !IsSlugChar(ToLowerChar(s[i])) && s[i] != '-'
    ensures forall j :: 0 <= j < |KeepAllowed(Lowercase(s))| ==> IsWs(KeepAllowed(Lowercase(s))[j])
  {
    var lowered := Lowercase(s);
    var kept := KeepAllowed(lowered);
    forall j | 0 <= j < |kept|
      ensures IsWs(kept[j])
    {
      FilterMembership(lowered, IsAllowed, kept[j]);
      var i :| 0 <= i < |lowered| && lowered[i] == kept[j];
      assert !IsSlugChar(ToLowerChar(s[i])) && s[i] != '-';
    }
  }

  /** Lines 11-32 from the decomposed text: strip the marks, normalize,
      format. */
  function Tail(decomposed: string, casing: Casing): (r: string)
    ensures casing == Kebab ==> IsKebab(r)
    ensures casing == Snake ==> IsSnake(r)
    ensures casing == Camel ==> (forall i :: 0 <= i < |r| ==> IsAsciiAlnum(r[i]))
    ensures casing != Camel ==> Filter(r, IsSlugChar) == Filter(Lowercase(StripMarks(decomposed)), IsSlugChar)
    ensures casing == Camel ==> Lowercase(r) == Filter(Lowercase(StripMarks(decomposed)), IsSlugChar)
  {
    var slug := Normalize(StripMarks(decomposed));
    match casing
    case Kebab => slug
    case Snake =>
      SnakeCharset(slug);
      FilterIgnoresReplace(slug, '-', '_', IsSlugChar);
      Format(slug, casing)
    case Camel =>
      CamelCharset(slug);
      CamelContent(slug);
      Format(slug, casing)
  }

  /** `Tail` formats the normalized, mark-free text. */
  lemma TailIsFormat(decomposed: string, casing: Casing)
    ensures Tail(decomposed, casing) == Format(Normalize(StripMarks(decomposed)), casing)
  {
  }

  /** The letters and digits of a kebab slug, in order, are its camel form lower-cased. */
  lemma CamelContent(slug: string)
    requires IsKebab(slug)
    ensures Lowercase(CamelCase(slug)) == Filter(slug, IsSlugChar)
  {
    FilterAgree(slug, NotHyphen, IsSlugChar);
    var kept := Filter(slug, IsSlugChar);
    assert Lowercase(kept) == kept by {
      forall i | 0 <= i < |kept|
        ensures !IsAsciiUpper(kept[i])
      {
        assert IsSlugChar(kept[i]);
      }
    }
  }

  /** ASCII lower-case letters, digits and underscores, no underscore
      directly followed by another. */
  predicate IsSnake(s: string) {
    (forall i :: 0 <= i < |s| ==> IsSlugChar(s[i]) || s[i] == '_')
    && (forall i :: 0 <= i < |s| - 1 && s[i] == '_' ==> s[i + 1] != '_')
  }

  /** Snake case of a kebab slug is a snake slug. */
  lemma SnakeCharset(slug: string)
    requires IsKebab(slug)
    ensures IsSnake(SnakeCase(slug))
  {
    var r := SnakeCase(slug);
    forall i | 0 <= i < |r| - 1 && r[i] == '_'
      ensures r[i + 1] != '_'
    {
      assert slug[i] == '-';
    }
  }

  /** Camel case of a kebab slug is made of ASCII letters and digits only. */
  lemma CamelCharset(slug: string)
    requires IsKebab(slug)
    ensures forall i :: 0 <= i < |CamelCase(slug)| ==> IsAsciiAlnum(CamelCase(slug)[i])
  {
    var r := CamelCase(slug);
    var kept := Filter(slug, NotHyphen);
    forall i | 0 <= i < |r|
      ensures IsAsciiAlnum(r[i])
    {
      assert r[i] != '-';
      var lower := Lowercase(r)[i];
      assert lower == Lowercase(kept)[i];
      assert kept[i] in slug by {
        FilterCounts(slug, NotHyphen, kept[i]);
      }
      assert kept[i] != '-';
    }
  }

  /** The whole of `slugify`: the emoji replacement of lines 35-39 and the
      NFKD decomposition of line 11 are given as functions, since they
      depend on Unicode tables. */
  function Slugify(input: string, requested: Option<string>,
                   replaceEmojis: string -> string, decompose: string -> string): (r: string)
    ensures CasingOf(requested) == Kebab ==> IsKebab(r)
    ensures CasingOf(requested) == Snake ==> IsSnake(r)
    ensures CasingOf(requested) == Camel ==> (forall i :: 0 <= i < |r| ==> IsAsciiAlnum(r[i]))
  {
    Tail(decompose(replaceEmojis(input)), CasingOf(requested))
  }

  /** An absent or unrecognised `case` option behaves exactly like `'kebab'`. */
  lemma UnknownCasingIsKebab(input: string, name: string,
                             replaceEmojis: string -> string, decompose: string -> string)
    requires name != "snake" && name != "camel"
    ensures Slugify(input, Some(name), replaceEmojis, decompose)
         == Slugify(input, None, replaceEmojis, decompose)
         == Slugify(input, Some("kebab"), replaceEmojis, decompose)
  {
  }

  /** A kebab slug is what the kebab pipeline leaves unchanged, and nothing else is. */
  lemma KebabFixpoint(s: string)
    ensures Tail(s, Kebab) == s <==> IsKebab(s)
  {
    assert Tail(s, Kebab) == Normalize(StripMarks(s));
    if IsKebab(s) {
      StripMarksKeepsKebab(s);
      NormalizeFixpoint(s);
    }
  }

  /** A kebab slug holds no combining mark. */
  lemma StripMarksKeepsKebab(s: string)
    requires IsKebab(s)
    ensures StripMarks(s) == s
  {
    StripMarksUnmarked(s);
  }

  /** Lines 14-20 leave a kebab slug alone. */
  lemma NormalizeFixpoint(s: string)
    requires IsKebab(s)
    ensures Normalize(s) == s
  {
    assert Lowercase(s) == s;
    forall i | 0 <= i < |s|
      ensures IsAllowed(s[i]) && !IsWs(s[i])
    {
    }
    FilterKeepsAll(s, IsAllowed);
    TrimFixpoint(s);
    CollapseFixpoint(s);
  }

  /** Running lines 14-20 on their own output changes nothing. */
  lemma NormalizeIdempotent(s: string)
    ensures Normalize(Normalize(s)) == Normalize(s)
  {
    NormalizeFixpoint(Normalize(s));
  }

  /** Running the kebab pipeline on its own output changes nothing. */
  lemma TailIdempotent(s: string)
    ensures Tail(Tail(s, Kebab), Kebab) == Tail(s, Kebab)
  {
    KebabFixpoint(Tail(s, Kebab));
  }

  /** Trimming removes white space only, so a hyphen at either end survives:
      `"-a-"` is its own slug. */
  lemma EdgeHyphensSurvive()
    ensures Tail("-a-", Kebab) == "-a-"
  {
    var s := "-a-";
    assert s[0] == '-' && s[1] == 'a' && s[2] == '-';
    assert IsKebab(s);
    KebabFixpoint(s);
  }

  /** Upper case never matters: line 15 lower-cases before anything else. */
  lemma NormalizeLowercases(s: string)
    ensures Normalize(s) == Normalize(Lowercase(s))
  {
    LowercaseIdempotent(s);
  }

  /** On a lower-case string of allowed characters with no white space at
      either end, lines 14-20 only collapse. */
  lemma NormalizeClean(s: string)
    requires forall i :: 0 <= i < |s| ==> IsAllowed(s[i])
    requires s == [] || (!IsWs(s[0]) && !IsWs(s[|s| - 1]))
    ensures Normalize(s) == Collapse(s)
  {
    assert forall i :: 0 <= i < |s| ==> !IsAsciiUpper(s[i]) by {
      forall i | 0 <= i < |s| ensures !IsAsciiUpper(s[i]) {
        assert IsAllowed(s[i]);
      }
    }
    LowercaseUnchanged(s);
    FilterKeepsAll(s, IsAllowed);
    TrimFixpoint(s);
  }

  /** Two words separated by any run of white space and hyphens become the
      two words joined by one hyphen. */
  lemma NormalizeTwoWords(u: string, w: string, v: string)
    requires u != [] && forall i :: 0 <= i < |u| ==> IsSlugChar(u[i])
    requires w != [] && forall i :: 0 <= i < |w| ==> IsSep(w[i])
    requires v != [] && forall i :: 0 <= i < |v| ==> IsSlugChar(v[i])
    ensures Normalize(u + w + v) == u + "-" + v
  {
    var s := u + w + v;
    ThreePartsAllowed(u, w, v);
    NormalizeClean(s);
    SlugWordNoSep(u);
    SlugWordNoSep(v);
    CollapseWordThenRun(u, w, v);
    CollapseNoSep(v);
  }

  /** Letters and digits are neither white space nor hyphens. */
  lemma SlugWordNoSep(u: string)
    requires forall i :: 0 <= i < |u| ==> IsSlugChar(u[i])
    ensures forall i :: 0 <= i < |u| ==> !IsSep(u[i])
  {
  }

  lemma ThreePartsAllowed(u: string, w: string, v: string)
    requires u != [] && forall i :: 0 <= i < |u| ==> IsSlugChar(u[i])
    requires forall i :: 0 <= i < |w| ==> IsSep(w[i])
    requires v != [] && forall i :: 0 <= i < |v| ==> IsSlugChar(v[i])
    ensures var s := u + w + v;
      (forall i :: 0 <= i < |s| ==> IsAllowed(s[i])) && !IsWs(s[0]) && !IsWs(s[|s| - 1])
  {
    var s := u + w + v;
    forall i | 0 <= i < |s|
      ensures IsAllowed(s[i])
    {
      if i < |u| {
        assert s[i] == u[i];
      } else if i < |u| + |w| {
        assert s[i] == w[i - |u|];
      } else {
        assert s[i] == v[i - |u| - |w|];
      }
    }
    assert s[0] == u[0] && s[|s| - 1] == v[|v| - 1];
  }
}
