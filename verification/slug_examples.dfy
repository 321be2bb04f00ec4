/**
 Concrete inputs run through the pipeline of `slugify` (src/index.ts lines
 11-30), one per output style and one each for punctuation and accents.
 Each example is split into one small lemma per stage, so that no proof has
 to evaluate the whole pipeline on a literal string at once.
 */
module SlugExamples {
  import opened Chars
  import opened Sequences
  import opened Stages
  import opened CaseStyle
  import opened Slug

  /** `"Hello World"` in snake case is `"hello_world"`. */
  lemma SnakeExample(d: string)
    requires d == "Hello World"
    ensures Tail(d, Snake) == "hello_world"
  {
    var slug := Normalize(StripMarks(d));
    assert slug == "hello-world" by {
      HelloWorldUnmarked();
      HelloWorldLower(d);
      NormalizeLowercases(d);
      HelloWorldNormal();
    }
    TailIsFormat(d, Snake);
    HelloWorldSnake(slug);
  }

  lemma HelloWorldNormal()
    ensures Normalize("hello" + " " + "world") == "hello-world"
  {
    HelloWorldWords();
    NormalizeTwoWords("hello", " ", "world");
    HelloWorldPieces();
  }

  lemma HelloWorldWords()
    ensures forall i :: 0 <= i < |"hello"| ==> IsSlugChar("hello"[i])
    ensures forall i :: 0 <= i < |"world"| ==> IsSlugChar("world"[i])
    ensures forall i :: 0 <= i < |" "| ==> IsSep(" "[i])
  {
  }

  lemma HelloWorldUnmarked()
    ensures StripMarks("Hello World") == "Hello World"
  {
    StripMarksUnmarked("Hello World");
  }

  lemma HelloWorldLower(d: string)
    requires d == "Hello World"
    ensures Lowercase(d) == "hello" + " " + "world"
  {
  }

  lemma HelloWorldPieces()
    ensures "hello" + "-" + "world" == "hello-world"
  {
  }

  lemma HelloWorldSnake(slug: string)
    requires slug == "hello-world"
    ensures Format(slug, Snake) == "hello_world"
  {
  }

  /** `"hello world again"` in camel case is `"helloWorldAgain"`. */
  lemma CamelExample(d: string)
    requires d == "hello world again"
    ensures Tail(d, Camel) == "helloWorldAgain"
  {
    var slug := Normalize(StripMarks(d));
    assert slug == "hello-world-again" by {
      CamelExampleSlug(d);
    }
    TailIsFormat(d, Camel);
    CamelExampleFormat(slug);
  }

  lemma CamelExampleSlug(d: string)
    requires d == "hello world again"
    ensures Normalize(StripMarks(d)) == "hello-world-again"
  {
    CamelExampleText(d);
    StripMarksUnmarked(d);
    NormalizeClean(d);
    CamelExampleCollapse(d);
  }

  lemma CamelExampleText(d: string)
    requires d == "hello world again"
    ensures forall i :: 0 <= i < |d| ==> !IsCombiningMark(d[i]) && IsAllowed(d[i])
    ensures !IsWs(d[0]) && !IsWs(d[|d| - 1])
  {
  }

  lemma CamelExampleCollapse(d: string)
    requires d == "hello world again"
    ensures Collapse(d) == "hello-world-again"
  {
    var v := "world" + " " + "again";
    CamelExamplePieces(d, v);
    CollapseWordThenRun("hello", " ", v);
    CollapseWordThenRun("world", " ", "again");
    CollapseNoSep("again");
  }

  lemma CamelExamplePieces(d: string, v: string)
    requires d == "hello world again" && v == "world" + " " + "again"
    ensures d == "hello" + " " + v && v[0] == 'w'
    ensures forall i :: 0 <= i < |"hello"| ==> !IsSep("hello"[i])
    ensures forall i :: 0 <= i < |"world"| ==> !IsSep("world"[i])
    ensures forall i :: 0 <= i < |"again"| ==> !IsSep("again"[i])
    ensures forall i :: 0 <= i < |" "| ==> IsSep(" "[i])
    ensures "hello" + "-" + ("world" + "-" + "again") == "hello-world-again"
  {
  }

  lemma CamelExampleFormat(slug: string)
    requires slug == "hello-world-again"
    ensures Format(slug, Camel) == "helloWorldAgain"
  {
    var words := ["hello", "world", "again"];
    CamelExampleWords(words, slug);
    CamelOfJoin(words);
    CamelExampleCapitals(words);
  }

  lemma CamelExampleWords(words: seq<string>, slug: string)
    requires words == ["hello", "world", "again"] && slug == "hello-world-again"
    ensures Join(words, "-") == slug
    ensures forall i :: 0 <= i < |words| ==> '-' !in words[i]
  {
    JoinThree("hello", "world", "again", "-");
    CamelExampleDashes(slug);
  }

  lemma CamelExampleDashes(slug: string)
    requires slug == "hello-world-again"
    ensures "hello" + "-" + "world" + "-" + "again" == slug
  {
  }

  lemma CamelExampleCapitals(words: seq<string>)
    requires words == ["hello", "world", "again"]
    ensures Join([words[0]] + CapitalizeAll(words[1..]), []) == "helloWorldAgain"
  {
    var world, again := Capitalize("world"), Capitalize("again");
    CamelExampleCapitalized(world, again);
    assert CapitalizeAll(words[1..]) == [world, again];
    assert [words[0]] + [world, again] == ["hello", world, again];
    JoinThree("hello", world, again, []);
  }

  lemma CamelExampleCapitalized(world: string, again: string)
    requires world == Capitalize("world") && again == Capitalize("again")
    ensures "hello" + [] + world + [] + again == "helloWorldAgain"
  {
    assert ToUpperChar('w') == 'W' && ToUpperChar('a') == 'A';
  }

  /** Lines 14-20 as the four stages in order. */
  lemma NormalizeStages(s: string)
    ensures Normalize(s) == Collapse(Trim(KeepAllowed(Lowercase(s))))
  {
  }

  /** `"  Hello---World!! "` becomes `"hello-world"`: punctuation is dropped,
      the outer spaces are trimmed and the run of hyphens collapses. */
  lemma GarbageExample(d: string)
    requires d == "  Hello---World!! "
    ensures Tail(d, Kebab) == "hello-world"
  {
    var slug := Normalize(StripMarks(d));
    assert slug == "hello-world" by {
      GarbageExampleSlug(d);
    }
    TailIsFormat(d, Kebab);
  }

  lemma GarbageExampleSlug(d: string)
    requires d == "  Hello---World!! "
    ensures Normalize(StripMarks(d)) == "hello-world"
  {
    var lowered, body := "  hello---world!! ", "hello---world";
    GarbageExampleText(d, lowered);
    StripMarksUnmarked(d);
    NormalizeStages(d);
    GarbageExampleKept(lowered, body);
    GarbageExampleTrim(body);
    GarbageExampleCollapse(body);
  }

  lemma GarbageExampleText(d: string, lowered: string)
    requires d == "  Hello---World!! " && lowered == "  hello---world!! "
    ensures forall i :: 0 <= i < |d| ==> !IsCombiningMark(d[i])
    ensures Lowercase(d) == lowered
  {
    GarbageExampleUnmarked(d);
    GarbageExampleLower(d, lowered);
  }

  lemma GarbageExampleUnmarked(d: string)
    requires d == "  Hello---World!! "
    ensures forall i :: 0 <= i < |d| ==> !IsCombiningMark(d[i])
  {
  }

  lemma GarbageExampleLower(d: string, lowered: string)
    requires d == "  Hello---World!! " && lowered == "  hello---world!! "
    ensures Lowercase(d) == lowered
  {
  }

  lemma GarbageExampleKept(lowered: string, body: string)
    requires lowered == "  hello---world!! " && body == "hello---world"
    ensures KeepAllowed(lowered) == "  " + body + " "
  {
    var kept, dropped, last := "  " + body, "!!", " ";
    GarbageExampleParts(lowered, kept, dropped, last);
    KeepAllowedDropsMiddle(kept, dropped, last);
  }

  lemma GarbageExampleParts(lowered: string, kept: string, dropped: string, last: string)
    requires lowered == "  hello---world!! " && kept == "  hello---world" && dropped == "!!" && last == " "
    ensures lowered == kept + dropped + last
    ensures forall i :: 0 <= i < |kept| ==> IsAllowed(kept[i])
    ensures forall i :: 0 <= i < |dropped| ==> !IsAllowed(dropped[i])
    ensures forall i :: 0 <= i < |last| ==> IsAllowed(last[i])
  {
  }

  /** The filter of line 16 on allowed text, rejected text and allowed text. */
  lemma KeepAllowedDropsMiddle(a: string, b: string, c: string)
    requires forall i :: 0 <= i < |a| ==> IsAllowed(a[i])
    requires forall i :: 0 <= i < |b| ==> !IsAllowed(b[i])
    requires forall i :: 0 <= i < |c| ==> IsAllowed(c[i])
    ensures KeepAllowed(a + b + c) == a + c
  {
    FilterConcat(a + b, c, IsAllowed);
    FilterConcat(a, b, IsAllowed);
    FilterKeepsAll(a, IsAllowed);
    FilterDropsAll(b, IsAllowed);
    FilterKeepsAll(c, IsAllowed);
    assert a + [] == a;
  }

  lemma GarbageExampleTrim(body: string)
    requires body == "hello---world"
    ensures Trim("  " + body + " ") == body
  {
    assert IsWs(' ');
    TrimPadding("  ", body, " ");
  }

  lemma GarbageExampleCollapse(body: string)
    requires body == "hello---world"
    ensures Collapse(body) == "hello-world"
  {
    GarbageExampleWords(body);
    CollapseWordThenRun("hello", "---", "world");
    CollapseNoSep("world");
  }

  lemma GarbageExampleWords(body: string)
    requires body == "hello---world"
    ensures body == "hello" + "---" + "world"
    ensures forall i :: 0 <= i < |"hello"| ==> !IsSep("hello"[i])
    ensures forall i :: 0 <= i < |"world"| ==> !IsSep("world"[i])
    ensures forall i :: 0 <= i < |"---"| ==> IsSep("---"[i])
    ensures "hello" + "-" + "world" == "hello-world"
  {
  }

  /** The decomposed form of `"Café Münster"` becomes `"cafe-munster"`: the
      combining acute accent and diaeresis are removed. */
  lemma AccentExample(d: string)
    requires d == "Cafe\U{0301} Mu\U{0308}nster"
    ensures Tail(d, Kebab) == "cafe-munster"
  {
    var slug := Normalize(StripMarks(d));
    assert slug == "cafe-munster" by {
      AccentExampleSlug(d);
    }
    TailIsFormat(d, Kebab);
  }

  lemma AccentExampleSlug(d: string)
    requires d == "Cafe\U{0301} Mu\U{0308}nster"
    ensures Normalize(StripMarks(d)) == "cafe-munster"
  {
    var plain := "Cafe Munster";
    AccentExampleMarks(d, plain);
    NormalizeLowercases(plain);
    AccentExampleLower(plain);
    AccentExampleNormal();
  }

  lemma AccentExampleMarks(d: string, plain: string)
    requires d == "Cafe\U{0301} Mu\U{0308}nster" && plain == "Cafe Munster"
    ensures StripMarks(d) == plain
  {
    AccentExampleParts(d, plain);
    StripTwoMarks("Cafe", '\U{0301}', " Mu", '\U{0308}', "nster");
  }

  lemma AccentExampleParts(d: string, plain: string)
    requires d == "Cafe\U{0301} Mu\U{0308}nster" && plain == "Cafe Munster"
    ensures d == "Cafe" + ['\U{0301}'] + " Mu" + ['\U{0308}'] + "nster"
    ensures plain == "Cafe" + " Mu" + "nster"
    ensures IsCombiningMark('\U{0301}') && IsCombiningMark('\U{0308}')
    ensures forall i :: 0 <= i < |"Cafe"| ==> !IsCombiningMark("Cafe"[i])
    ensures forall i :: 0 <= i < |" Mu"| ==> !IsCombiningMark(" Mu"[i])
    ensures forall i :: 0 <= i < |"nster"| ==> !IsCombiningMark("nster"[i])
  {
  }

  /** Removing two marks from between three unmarked pieces. */
  lemma StripTwoMarks(a: string, m: char, b: string, n: char, c: string)
    requires IsCombiningMark(m) && IsCombiningMark(n)
    requires forall i :: 0 <= i < |a| ==> !IsCombiningMark(a[i])
    requires forall i :: 0 <= i < |b| ==> !IsCombiningMark(b[i])
    requires forall i :: 0 <= i < |c| ==> !IsCombiningMark(c[i])
    ensures StripMarks(a + [m] + b + [n] + c) == a + b + c
  {
    StripMarksConcat(a + [m] + b + [n], c);
    StripMarksConcat(a + [m] + b, [n]);
    StripMarksConcat(a + [m], b);
    StripMarksConcat(a, [m]);
    StripMarksUnmarked(a);
    StripMarksUnmarked(b);
    StripMarksUnmarked(c);
    assert StripMarks([m]) == [] && StripMarks([n]) == [];
    assert a + [] == a && a + b + [] == a + b;
  }

  lemma AccentExampleLower(plain: string)
    requires plain == "Cafe Munster"
    ensures Lowercase(plain) == "cafe" + " " + "munster"
  {
  }

  lemma AccentExampleNormal()
    ensures Normalize("cafe" + " " + "munster") == "cafe-munster"
  {
    AccentExampleWords();
    NormalizeTwoWords("cafe", " ", "munster");
  }

  lemma AccentExampleWords()
    ensures forall i :: 0 <= i < |"cafe"| ==> IsSlugChar("cafe"[i])
    ensures forall i :: 0 <= i < |"munster"| ==> IsSlugChar("munster"[i])
    ensures forall i :: 0 <= i < |" "| ==> IsSep(" "[i])
    ensures "cafe" + "-" + "munster" == "cafe-munster"
  {
  }
}
