# slugify, modelled in Dafny

A model of the text pipeline of `slugify` (src/index.ts). The function turns
free text into a URL slug:

1. replace emoji by words (lines 8, 35-39);
2. decompose with NFKD and delete the combining marks U+0300-U+036F (line 11);
3. lower-case, then keep only `a-z`, `0-9`, white space and `-` (lines 14-16);
4. trim white space from both ends (line 17);
5. replace every maximal run of white space and hyphens by one `-` (line 20);
6. format as kebab (unchanged), snake (`-` becomes `_`) or camel (split on
   `-`, capitalize every word after the first, concatenate) (lines 22-30, 297-298).

Steps 2 (the mark removal) to 6 are modelled as pure functions over `string`
(`seq<char>`, one Unicode scalar value per character). The emoji table and NFKD
decomposition depend on Unicode data tables; `Slug.Slugify` takes them as
function parameters.

Files and modules:

- `chars.dfy`, module `Chars`: character classes. `IsWs` is the ECMAScript
  WhiteSpace and LineTerminator set. Both the `\s` of the regular expressions
  and `String.prototype.trim` use it, so trimming and collapsing share it.
- `sequences.dfy`, module `Sequences`: filtering, per-character mapping,
  dropping a leading or trailing class, and the one-character `split`/`join`
  of JavaScript, with their round trips.
- `stages.dfy`, module `Stages`: stages 2-5 above. Each regular-expression
  `replace` is an explicit function. `CollapseScan` is a loop-based
  left-to-right scan, proved equal to the recursive `Collapse`.
- `case_style.dfy`, module `CaseStyle`: the `case` option, snake and camel
  case, and `capitalize`. Camel case is defined word-wise, as the source
  writes it. It is proved equal to an independent character-wise reading.
- `slug.dfy`, module `Slug`: the composed pipeline. It states the output
  shape for each style, content preservation, emptiness and idempotence.
- `slug_examples.dfy`, module `SlugExamples`: concrete inputs and their
  exact outputs, one per style and one each for punctuation and accents.

What the code does at its edges, which the model keeps:

- Line 17 trims white space only, and line 20 turns an edge run of hyphens
  into one `-`. `"-a-"` therefore stays `"-a-"` (`Slug.EdgeHyphensSurvive`),
  and `IsKebab` allows a hyphen at either end.
- The emoji pattern of line 36, `/\p{Emoji}/gu`, matches one code point at a
  time, so a multi-code-point emoji is looked up piece by piece.
- `\p{Emoji}` matches `0-9`, so line 8 deletes the digits of the input. A
  digit that NFKD produces (from `²`, say) reaches the output, and a second
  call then deletes it: `slugify` as a whole is not idempotent. Idempotence
  is proved for lines 11-20 only.
- Lines 23-30 treat every `case` value other than `'snake'` and `'camel'` as
  kebab (`CaseStyle.CasingOf`, `Slug.UnknownCasingIsKebab`).

## Model

| member | source | states |
|---|---|---|
| Stages.StripMarks | src/index.ts:11 | no character of the result lies in U+0300-U+036F; the result is a subsequence of the input; every other character keeps its count |
| Stages.Lowercase | src/index.ts:15 | same length; no ASCII upper-case letter remains; `A-Z` become `a-z`, every other character is unchanged |
| Stages.LowercaseIdempotent | src/index.ts:15 | lower-casing twice equals lower-casing once |
| Stages.KeepAllowed | src/index.ts:16 | every character is in `a-z`, `0-9`, white space or `-`; the result is a subsequence of the input; every such character keeps its count and every other disappears |
| Stages.Trim | src/index.ts:17 | the result is empty or has no white space at either end; it is the slice after the leading white space; everything before and after that slice is white space |
| Stages.TrimFixpoint | src/index.ts:17 | trim leaves a string unchanged exactly when it is empty or has no white space at either end |
| Stages.TrimKeepsContent | src/index.ts:17 | trimming removes white space only: the characters other than white space and `-` are those of the input, in order |
| Stages.TrimEmpty | src/index.ts:17 | trim gives the empty string exactly when the input is all white space |
| Stages.TrimPadding | src/index.ts:17 | white space, then a text that neither starts nor ends with white space, then white space, trims to exactly that text |
| Chars.WsClass | src/index.ts:16-20 | a white-space character is kept by the filter of line 16 and is part of a separator run of line 20; it is never a letter, digit, hyphen, upper-case letter or combining mark |
| Stages.TrimWsChar | src/index.ts:17 | a single white-space character trims to the empty string |
| Chars.WsMembers | src/index.ts:16-20 | tab, space, no-break space, line separator and byte-order mark are white space; hyphen, underscore, ASCII letters and digits are not |
| Stages.StripMarksUnmarked | src/index.ts:11 | a text without combining marks is unchanged |
| Stages.StripMarksConcat | src/index.ts:11 | mark removal works piece by piece: on a concatenation it is the concatenation of the results |
| Stages.Collapse | src/index.ts:20 | no white space and no two adjacent hyphens in the result; empty exactly when the input is; starts with a hyphen exactly when the input starts with a separator; the non-separator characters are those of the input, in order |
| Stages.CollapseFixpoint | src/index.ts:20 | a string without white space and without adjacent hyphens is left unchanged |
| Stages.CollapseIdempotent | src/index.ts:20 | collapsing twice equals collapsing once; the fixed points are exactly the collapsed strings |
| Stages.CollapseConcat | src/index.ts:20 | when the first part does not end inside a separator run, collapsing a concatenation is collapsing each part and concatenating |
| Stages.CollapseAllSep | src/index.ts:20 | a non-empty run of white space and hyphens becomes exactly `"-"` |
| Stages.CollapseNoSep | src/index.ts:20 | a text without white space and hyphens is unchanged |
| Stages.CollapseLeadingRun | src/index.ts:20 | a leading separator run becomes one `-` in front of the collapsed rest |
| Stages.CollapseWordThenRun | src/index.ts:20 | a separator-free word, a separator run and a text starting outside a run give the word, one `-`, and the collapsed text |
| Stages.CollapseScan | src/index.ts:20 | a left-to-right scan that consumes each whole separator run computes the same string as `Collapse` |
| Sequences.Replace | src/index.ts:24 | same length; every `from` becomes `to` and every other character is unchanged; no `from` remains |
| Sequences.ReplaceBack | src/index.ts:24 | replacing back gives the input, when the input held no `to` |
| Sequences.JoinShape | src/index.ts:29 | the joined text starts with the first piece, followed by the delimiter when there are at least two pieces; it ends with the last piece, and is as long as the pieces plus one delimiter per gap |
| Sequences.Split | src/index.ts:27 | `split('-')` gives at least one piece, and no piece holds a hyphen |
| Sequences.SplitCount | src/index.ts:27 | `split('-')` gives exactly one more piece than there are hyphens in the input |
| Sequences.JoinSplit | src/index.ts:27 | joining the pieces of `split('-')` with `-` gives the input back |
| Sequences.SplitJoin | src/index.ts:27-29 | joining hyphen-free pieces with `-` and splitting again gives the pieces back |
| CaseStyle.CasingOf | src/index.ts:4-5 | the style is snake exactly for `'snake'` and camel exactly for `'camel'`; an absent option or any other value gives kebab |
| CaseStyle.SnakeCase | src/index.ts:23-24 | same length; position `i` is `_` where the input had `-` and unchanged elsewhere; no `-` remains |
| CaseStyle.SnakeRoundTrip | src/index.ts:23-24 | replacing `_` by `-` in the snake form gives back a slug that had no `_` |
| CaseStyle.Capitalize | src/index.ts:297-298 | `""` for `""`; otherwise same length, the first character upper-cased, every later character unchanged |
| CaseStyle.CapitalizeOnlyChangesCase | src/index.ts:297-298 | the capitalized word lower-cases to the same string as the word; capitalizing twice equals capitalizing once |
| CaseStyle.CapitalizeAll | src/index.ts:28 | one word per input word, in order, each capitalized |
| CaseStyle.CamelOfJoin | src/index.ts:26-29 | camel case of hyphen-free words joined by `-` is the first word followed by every later word capitalized |
| CaseStyle.CamelCase | src/index.ts:25-29 | no `-` in the result; length is input length minus the number of hyphens; the first hyphen-delimited word is a prefix, unchanged; lower-cased, it equals the input without hyphens, lower-cased |
| CaseStyle.CamelByChars | src/index.ts:25-29 | the character-wise reading drops hyphens, keeps the length relation and keeps every other character up to case |
| CaseStyle.CamelWordsMatchChars | src/index.ts:25-29 | splitting, capitalizing every later word and concatenating equals the character-wise reading |
| CaseStyle.CamelCaseByChars | src/index.ts:25-29 | camel case equals the character-wise reading started outside a word |
| Slug.Normalize | src/index.ts:14-20 | the result holds only `a-z`, `0-9` and `-`, with no two hyphens adjacent; its letters and digits are those of the lower-cased input, in order |
| Slug.NormalizeLowercases | src/index.ts:14-15 | lower-casing first does not change the result |
| Slug.NormalizeClean | src/index.ts:14-20 | on text already in `[a-z0-9\s-]` with no white space at its ends, lines 14-20 only collapse separator runs |
| Slug.NormalizeTwoWords | src/index.ts:14-20 | two words of `a-z0-9` around a run of white space and hyphens become the two words joined by exactly one `-` |
| Slug.NormalizeEmpty | src/index.ts:14-20 | the result is empty exactly when no character of the input lower-cases to a letter or digit and none is a hyphen |
| Slug.NormalizeFixpoint | src/index.ts:14-20 | lines 14-20 leave a kebab slug unchanged |
| Slug.NormalizeIdempotent | src/index.ts:14-20 | lines 14-20 applied to their own output change nothing |
| Slug.Tail | src/index.ts:11-32 | kebab output is a kebab slug, snake output is the same shape with `_`, camel output is ASCII letters and digits only; for kebab and snake the letters and digits are those of the mark-stripped, lower-cased input; for camel the lower-cased output is exactly those letters and digits |
| CaseStyle.Format | src/index.ts:22-30 | kebab returns the slug; snake has the same length with `_` exactly where the slug had `-`; camel has no `-`, loses exactly the hyphens' length, and lower-cases to the slug without hyphens lower-cased |
| Slug.TailIsFormat | src/index.ts:11-30 | the tail of the pipeline is the case format of the normalized, mark-stripped text |
| SlugExamples.SnakeExample | src/index.ts:11-30 | `"Hello World"` in snake case is `"hello_world"` |
| SlugExamples.CamelExample | src/index.ts:11-30 | `"hello world again"` in camel case is `"helloWorldAgain"` |
| SlugExamples.GarbageExample | src/index.ts:11-30 | `"  Hello---World!! "` in kebab case is `"hello-world"` |
| SlugExamples.AccentExample | src/index.ts:11-30 | the decomposed `"Café Münster"` in kebab case is `"cafe-munster"` |
| Slug.SnakeCharset | src/index.ts:23-24 | the snake form of a kebab slug holds only `a-z`, `0-9` and `_`, with no two underscores adjacent |
| Slug.CamelCharset | src/index.ts:25-29 | the camel form of a kebab slug holds only ASCII letters and digits |
| Slug.CamelContent | src/index.ts:25-29 | the camel form of a kebab slug, lower-cased, is the slug without its hyphens |
| Slug.Slugify | src/index.ts:4-33 | for any emoji and decomposition stages, kebab output is a kebab slug, snake output a snake slug, camel output ASCII letters and digits |
| Slug.UnknownCasingIsKebab | src/index.ts:23-30 | a `case` value other than `'snake'` and `'camel'` gives the same output as no option and as `'kebab'` |
| Slug.KebabFixpoint | src/index.ts:11-20 | the kebab pipeline leaves a string unchanged exactly when it is a kebab slug |
| Slug.TailIdempotent | src/index.ts:11-20 | the kebab pipeline applied to its own output changes nothing |
| Slug.EdgeHyphensSurvive | src/index.ts:17-20 | `"-a-"` is mapped to itself: hyphens at the ends are not removed |

## Left out

- Emoji substitution (`replaceEmojis`, `emojiToText`, lines 35-295): it needs the Unicode `Emoji` property and the lookup table. It is the `replaceEmojis` parameter of `Slug.Slugify`, and nothing is claimed about it.
- NFKD decomposition (`normalize('NFKD')`, line 11): it needs the Unicode decomposition data. It is the `decompose` parameter of `Slug.Slugify`. Only the removal of combining marks that follows it is modelled.
- Stages.Lowercase: ASCII letters only. JavaScript's `toLowerCase` applies the full Unicode case mapping, which can also turn a non-ASCII letter into an ASCII one (U+212A KELVIN SIGN into `k`). Such letters are dropped here, where the code would keep them.
- CaseStyle.Capitalize: ASCII letters only. JavaScript's `toUpperCase` uses the full Unicode mapping. After the filter of line 16 the words are ASCII, so this does not change `slugify`.
- Strings are sequences of Unicode scalar values, not UTF-16 code units. `charAt(0)` of a word that starts with a surrogate pair differs, but no such word reaches line 28.
- Whole-function idempotence and outputs for text holding emoji (`"I like 🔥"`) depend on the emoji and decomposition tables. They are not stated. The concrete outputs that are stated start from emoji-free, already decomposed text.
