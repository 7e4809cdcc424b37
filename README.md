# String interpolation with `[key]` placeholders

This project models `Interpolation.Interpolate(input, substitutions)` from
`Interpolation.cs`. The method takes an input text and a dictionary and works
in four steps:

1. It rejects a null, empty or white-space input (`ArgumentException`) and a
   null dictionary (`ArgumentNullException`).
2. It makes a working copy of the input and collapses the escapes: every
   `[[` becomes `[`, then every `]]` becomes `]`.
3. It scans the **original** input with the regular expression `\[.+?\]`.
4. For each match, it trims every leading and trailing bracket to get the key.
   If the dictionary has a non-blank value for that key, it replaces every
   occurrence of the match's text in the working copy with the value.

The model is written in Dafny. These modules build it:

- `Strings` covers the .NET string operations the method uses:
  - `string.IsNullOrWhiteSpace`, with the exact `char.IsWhiteSpace` set;
  - `Trim('[', ']')`;
  - `StringBuilder.Replace`, as a left-to-right, non-overlapping replace-all
    that does not rescan the text it inserts.
- `Scanner` implements the lazy pattern `\[.+?\]` as a hand-written scanner
  (`Scan`). It proves that the result is exactly the sequence of leftmost,
  non-overlapping matches (`ScanIsScan`, `ScanUnique`).
- `Interpolation` holds the method itself:
  - `Interpolate` is an imperative `method` with the source's loop over the
    matches;
  - the function `Interpolated` is its specification;
  - general lemmas about when entries and inputs are left alone.

Four modules describe inputs built from pieces: plain text, placeholders
`[key]` and escaped placeholders `[[key]]`.

- `Templates` defines the pieces.
- `TemplateScan` gives the matches of such an input.
- `TemplateEscape` gives its escaped working copy.
- `TemplateFill` gives what one `Replace` does to that copy.

A template is well formed when its text holds no bracket and its keys are
non-empty and hold no bracket and no line feed. `TemplateOutcome` puts the
four modules together in `InterpolateTemplate`. It states the output for any
well-formed template whose placeholder keys have usable values without
brackets. On the same templates it also states the doc comment's promise for
escapes (`Intended`) and proves exactly when the code keeps it.

`Sentences` covers the shape most tests use: a text, then any number of
placeholders, each followed by a text (`Sentence`).

`Examples` proves the repository's test cases. Each case is proved for
every input of the shape named in its row. Unless a row says otherwise,
that shape is a well-formed template as above, and each usable value of a
placeholder key holds no bracket. Other entries of the dictionary are
unrestricted. Values that hold brackets behave differently, as
`Examples.ValueRescanned` shows. Several of the
tests' literal inputs are proved as instances. "## Left out" names the tests
whose exact shape is not proved.

Modelling choices:

- A C# `null` is `None`. The input is an `Option<string>` and the dictionary
  an `Option<map<string, Option<string>>>`; a `None` value stands for a
  `null` entry.
- The two exceptions are the `InvalidInput` and `NullMapping` results.
- The class's only field is the compiled `Regex`, which the method never
  changes. So the model has no class: `Interpolate` is a method of the
  module. It keeps the working copy in a local variable, reassigned the way
  the `StringBuilder` is updated.

## Model

| member | source | states |
|---|---|---|
| Interpolation.Interpolate | Interpolation.cs:211-239 | Returns `InvalidInput` exactly when the input is null, empty or white space. Returns `NullMapping` exactly when the input is valid and the dictionary is null. Otherwise, after the loop over the matches, the result is `Interpolated(input, substitutions)`. |
| Interpolation.Interpolated | Interpolation.cs:211-239 | The function form of the method: the two argument errors, then the loop over the matches of the original input, applied to the escaped copy. The result is a string exactly when the input is not blank and the dictionary is present. |
| Interpolation.Usable | Interpolation.cs:231 | `TryGetValue` succeeds and the value is not null, empty or white space. A usable value is present and non-empty. |
| Interpolation.Escape | Interpolation.cs:223 | The two chained `Replace` calls of the escape pass. The pass never makes the text longer. |
| Interpolation.Step | Interpolation.cs:228-235 | The body of the loop for one match: the key is the match's text with its brackets trimmed; if the key has a usable value, every occurrence of the match's text in the working copy is replaced by it; otherwise nothing changes. |
| Interpolation.StepFixed | Interpolation.cs:231-233 | One step leaves the working copy unchanged when its key has no usable value, when the value is the match's own text, or when the match's text does not occur in the copy. |
| Interpolation.Substitute | Interpolation.cs:226-236 | The loop: one step per match, in the order of the matches, each on the copy the previous one left. |
| Interpolation.SubstituteInert | Interpolation.cs:231-234 | Matches whose keys each have no usable value, or a value equal to the match's own text, leave the working copy unchanged. |
| Interpolation.EmptyMappingOnlyEscapes | Interpolation.cs:142-146 | An empty dictionary is accepted. The output is the input with its escapes collapsed. |
| Interpolation.EscapeShrinks | Interpolation.cs:223 | The escape pass makes every text holding `[[` or `]]` strictly shorter. |
| Interpolation.EscapesChangeInput | Interpolation.cs:223-236 | When each token's key has no usable value or maps to the token's own text, the output is the escaped copy. So an input holding `[[` or `]]` then comes back strictly shorter. |
| Interpolation.UntouchedInput | Interpolation.cs:142-146 | The input comes back exactly as it was when it holds no `[[` or `]]`, and the key of each of its tokens has no usable value or maps to that token's own text (`name` to `[name]`). |
| Interpolation.EscapeAbsent | Interpolation.cs:223 | The escape pass changes nothing in a text without `[[` and `]]`. |
| Interpolation.NoPlaceholderUntouched | Interpolation.cs:78-83 | A valid input with no escapes and no substring of token shape comes back unchanged, whatever the dictionary holds. |
| Interpolation.NoMatches | Interpolation.cs:224 | The scan finds nothing in a text with no substring of token shape. |
| Interpolation.FirstMatchIsToken | Interpolation.cs:197 | The first match lies inside the input and has token shape. |
| Interpolation.SubstituteAgree | Interpolation.cs:231 | Two dictionaries that give every token key the same usable value, or none, produce the same output. |
| Interpolation.EntryInert | Interpolation.cs:97-101 | An entry behaves exactly as if it were missing when its value is null, empty or white space, or when its key is no token's key. |
| Strings.IsWhiteSpace | Interpolation.cs:213 | The characters `char.IsWhiteSpace` accepts: U+0009 to U+000D, U+0020, U+0085, U+00A0, U+1680, U+2000 to U+200A, U+2028, U+2029, U+202F, U+205F and U+3000. |
| Strings.IsNullOrWhiteSpace | Interpolation.cs:213 | `string.IsNullOrWhiteSpace`: null, or every character white space. Null and the empty string both count. |
| Strings.TrimBrackets | Interpolation.cs:230 | `Trim('[', ']')`: the result is no longer than the text and neither starts nor ends with a bracket. |
| Strings.TrimStart | Interpolation.cs:230 | The result is a suffix of the text and does not start with a bracket. Everything dropped is a bracket. |
| Strings.TrimEnd | Interpolation.cs:230 | The result is a prefix of the text and does not end with a bracket. Everything dropped is a bracket. |
| Strings.TrimBracketsSpec | Interpolation.cs:230 | `Trim('[', ']')` cuts a run of brackets from each end, and the rest neither starts nor ends with a bracket. |
| Strings.TrimFramed | Interpolation.cs:230 | Brackets, then a non-empty bracket-free key, then brackets, trims to exactly the key. |
| Strings.ReplaceAll | Interpolation.cs:233 | `StringBuilder.Replace`: scans left to right, replaces each occurrence of the pattern and resumes after it, so occurrences do not overlap and inserted text is never scanned again. A replacement no longer than the pattern never lengthens the text; one of equal length keeps the length. |
| Strings.ReplaceAllShrinks | Interpolation.cs:223 | A replacement shorter than the pattern makes every text in which the pattern occurs strictly shorter. |
| Strings.ReplaceAllAbsent | Interpolation.cs:233 | `Replace` changes nothing when the pattern does not occur. |
| Strings.ReplaceAllSkip | Interpolation.cs:233 | A prefix that does not hold the pattern's first character is copied as it is. |
| Strings.ReplaceAllSplit | Interpolation.cs:233 | When the pattern's first character occurs nowhere else in it, every occurrence is replaced: `a + pat + c` becomes the replaced `a`, then the value, then the replaced `c`. |
| Strings.ReplaceAllIdentity | Interpolation.cs:233 | Replacing a pattern with itself changes nothing. |
| Scanner.TokenShape | Interpolation.cs:190-197 | The texts the pattern can match: `[`, one or more characters that are not line feeds, then `]`, with no `]` in between except possibly as the first of those characters. |
| Scanner.CloseFrom | Interpolation.cs:190-197 | The lazy `.+?\]` from position `j`: when it ends, it ends after `j` and inside the text. |
| Scanner.MatchEnd | Interpolation.cs:197 | The pattern tried at `i`: a match spans at least three characters and lies inside the text. |
| Scanner.Scan | Interpolation.cs:224 | Every match lies inside the text, at or after the scan's start, and is at least three characters long. |
| Scanner.CloseFromSpec | Interpolation.cs:190-197 | The lazy `.+?\]` that has consumed up to `j` ends at `e` exactly when `e - 1` is the first `]` from `j` on and no line feed comes before it. |
| Scanner.MatchEndSpec | Interpolation.cs:190-197 | The pattern matches from `i` to `e` exactly when `s[i..e]` has token shape. |
| Scanner.NoMatchAtSpec | Interpolation.cs:197 | The scanner finds no match at `p` exactly when no substring starting at `p` has token shape. |
| Scanner.ScanSound | Interpolation.cs:224 | Every match found is a substring of token shape at its recorded index. |
| Scanner.ScanOrdered | Interpolation.cs:224 | The matches come in increasing position order and do not overlap. |
| Scanner.ScanLeftmost | Interpolation.cs:224 | No match of the pattern starts at a position that no listed match covers. |
| Scanner.ScanIsScan | Interpolation.cs:224 | The scan is sound, ordered and leftmost. |
| Scanner.ScanUnique | Interpolation.cs:224 | Any sound, ordered, leftmost sequence of matches is the scan: `regex.Matches` is fully determined. |
| Scanner.Matches | Interpolation.cs:224 | `regex.Matches(input)` is the scan from position 0. By `ScanIsScan` and `ScanUnique` it is the one sound, ordered, leftmost list of matches. |
| Templates.TextKept | Interpolation.cs:223-233 | Bracket-free text is copied as it is by every `Replace` call of the method, since each pattern starts with a bracket; replacing resumes after the text. |
| Templates.KeptPlaceholder | Interpolation.cs:233 | A placeholder that the pattern does not match at its start is copied whole, and replacing resumes after it. |
| TemplateScan.ScanPlaceholderPiece | Interpolation.cs:197 | At a placeholder `[k]`, the scan takes `[k]` and resumes after it. |
| TemplateScan.ScanEscapedPiece | Interpolation.cs:197 | At an escaped placeholder `[[k]]`, the lazy match is `[[k]`. The scan resumes after the second `]`. |
| TemplateScan.ScanRender | Interpolation.cs:224 | The matches of a template's text are exactly the tokens of its placeholders and escaped placeholders, in order, at their positions. |
| TemplateEscape.OpenRender | Interpolation.cs:223 | `Replace("[[", "[")` turns each `[[k]]` of a template into `[k]]` and copies everything else. |
| TemplateEscape.CloseRender | Interpolation.cs:223 | `Replace("]]", "]")` then turns each `[k]]` into `[k]` and copies everything else. |
| TemplateEscape.EscapeRender | Interpolation.cs:223 | The escape pass turns every `[[k]]` of a template into `[k]` and changes nothing else. |
| TemplateFill.ReplaceKey | Interpolation.cs:233 | Replacing `[k]` with the usable value of `k` puts the value in the place of every placeholder with key `k`, and of nothing else. |
| TemplateFill.ReplaceDoubled | Interpolation.cs:233 | The token `[[k]` of an escaped placeholder no longer occurs in the escaped copy, so replacing it changes nothing. |
| TemplateFill.FillTwice | Interpolation.cs:226-236 | Filling the keys `k1` and then the keys `k2` is the same as filling both at once. |
| TemplateFill.FillUnusable | Interpolation.cs:231 | Keys without a usable value fill nothing. |
| TemplateFill.FillWellFormed | Interpolation.cs:233 | Filling bracket-free values keeps the working copy made of text and placeholders. |
| TemplateOutcome.TokenKey | Interpolation.cs:230 | Trimming the token `[k]` or `[[k]` gives back `k`. |
| TemplateOutcome.StepFill | Interpolation.cs:228-235 | One iteration fills the key of its own placeholder with its usable value, if there is one. The iteration for an escaped placeholder changes nothing. |
| TemplateOutcome.SubstituteTemplate | Interpolation.cs:226-236 | The loop over a template's matches fills exactly its placeholder keys that have usable values. |
| TemplateOutcome.InterpolateTemplate | Interpolation.cs:211-239 | Covers a well-formed template whose usable values hold no brackets. A text of white space only is the argument error. Otherwise each piece gives its outcome, in order: text as it is; a placeholder its usable value, or itself; `[[k]]` gives `[k]`, or the value of `k` when `[k]` also occurs and `k` has a usable value. |
| TemplateOutcome.OutcomesIntended | Interpolation.cs:199-201 | When no escaped placeholder clashes, the actual outcome of every piece is the one the doc comment promises, where `[[k]]` always reads `[k]`. An escaped placeholder clashes when its key is a placeholder key with a usable value. |
| TemplateOutcome.OpenCount | Interpolation.cs:199-201 | The actual output never holds more `[` than the promised one, and holds fewer as soon as an escaped placeholder clashes. |
| TemplateOutcome.InterpolateAsIntended | Interpolation.cs:199-201 | Take a well-formed template, not all white space, whose usable values hold no brackets. `Interpolate` returns the doc comment's promised output exactly when no escaped placeholder clashes. |
| Sentences.Sentence | Interpolation.cs:103-140 | A bracket-free text followed by any number of placeholders, each followed by bracket-free text. The keys are non-empty and hold no bracket or line feed, and their usable values hold no bracket. Then every placeholder becomes its key's usable value or stays as it is, however often keys repeat. The dictionary's other entries are unrestricted. An all-white-space text alone is the argument error. |
| Examples.OnePlaceholder | Interpolation.cs:103-107 | Around bracket-free text, a placeholder whose key is non-empty with no bracket or line feed, and has a bracket-free, non-blank value, becomes that value, character for character. The dictionary's other entries are unrestricted. |
| Examples.HelloJim | Interpolation.cs:103-107 | `Hello [name]` with `name` mapped to `Jim` gives `Hello Jim`. |
| Examples.HelloNonEnglish | Interpolation.cs:183-187 | `Hello [name]` with `name` mapped to `标记` gives `Hello 标记`. |
| Examples.SpecialCharacter | Interpolation.cs:176-181 | Any one character other than a bracket or white space is inserted as it is in `The speical character is [character]`. |
| Examples.UnusablePlaceholder | Interpolation.cs:231 | Around bracket-free text, a placeholder whose key is non-empty with no bracket or line feed, and is missing or maps to null, empty or white space, is kept with its brackets. |
| Examples.HelloUnusable | Interpolation.cs:85-95 | `Hello [name]` stays as it is when `name` maps to null, to the empty string or to white space. |
| Examples.HelloEmptyKey | Interpolation.cs:97-101 | `Hello [name]` stays as it is when the only entry is keyed by the empty string. |
| Examples.TwoPlaceholders | Interpolation.cs:226-236 | Two placeholders in a well-formed template, whose usable values hold no bracket: each is replaced by its own key's value when that is usable, and kept otherwise. |
| Examples.FourPlaceholders | Interpolation.cs:109-129 | Four placeholders between five bracket-free texts (which may hold line breaks). The keys are non-empty with no bracket or line feed, and their usable values hold no bracket. Each placeholder becomes its key's usable value or stays as it is. |
| Examples.MissingAmongFilled | Interpolation.cs:131-140 | Three placeholders in a well-formed template. Two keys have usable values without brackets, and these placeholders are filled. The third key has no usable value, and its placeholder keeps its brackets. |
| Examples.Duplicated | Interpolation.cs:162-166 | The same placeholder twice, between bracket-free texts, with a key that is non-empty with no bracket or line feed: both occurrences take its non-blank, bracket-free value. The dictionary's other entries are unrestricted. |
| Examples.TwoKeysTwice | Interpolation.cs:168-174 | Two different keys, each non-empty with no bracket or line feed, each used twice between bracket-free texts: every occurrence takes its own key's non-blank, bracket-free value. The dictionary's other entries are unrestricted. |
| Examples.EscapedKept | Interpolation.cs:148-160 | In a well-formed template where the usable value of `k`, if any, holds no bracket: next to a placeholder `[k]` of another key, `[[e]]` becomes `[e]` and is never substituted, whatever the dictionary holds for `e`. |
| Examples.EscapedAlsoPlaceholder | Interpolation.cs:199-201 | Between bracket-free texts, with a key that is non-empty with no bracket or line feed and has a non-blank, bracket-free value: `[[k]]` does take the value of `k` when `[k]` also occurs in the input. The dictionary's other entries are unrestricted. |
| Examples.DoubledNamePlaceholder | Interpolation.cs:199-201 | `[[name]] [name]` with `name` mapped to `Jim` gives `Jim Jim`. |
| Examples.EmptyKeyToken | Interpolation.cs:230-233 | `[][]` is a single token whose key is the empty string, so an entry keyed by `""` replaces it. |
| Examples.ValueRescanned | Interpolation.cs:226-236 | A value that holds a later token is substituted again: `[a][b]`, with `a` mapped to `[b]` and `b` to `v`, gives `v` twice. |

## Left out

- Regex options and timeout: the 15-second timeout and the
  `RegexMatchTimeoutException` it could raise are not modelled, because the
  model has no clock. `RegexOptions.Compiled` changes only speed.
  `RegexOptions.Multiline` changes only `^` and `$`, which the pattern does
  not use.
- Exception messages and parameter names are not modelled; each exception is
  a result value.
- `match.Groups`: the pattern has no capture group, so each match has one
  group, the whole match. The inner loop is modelled as one step per match.
- Characters are Unicode scalar values. .NET strings are UTF-16 code units,
  and a character outside the Basic Multilingual Plane is two units there;
  the model does not represent surrogate pairs.
- `TemplateOutcome.InterpolateTemplate` covers only well-formed templates:
  - bracket-free text;
  - keys without brackets or line feeds;
  - usable values without brackets.

  Other inputs are covered by the general lemmas of `Interpolation` and by
  `Examples.EmptyKeyToken` and `Examples.ValueRescanned`.
- `Examples.EscapedKept` covers one placeholder and one escaped placeholder.
  The test at Interpolation.cs:154-160 has three placeholders and two escapes.
  Its outcome follows from `TemplateOutcome.InterpolateTemplate`, but that
  shape is not proved as a lemma of its own.
- Literal instances of the theory data at Interpolation.cs:18-61 are not
  proved. `Interpolation.NoPlaceholderUntouched` and
  `Examples.SpecialCharacter` state those cases in general.
- The xUnit harness is not modelled, and the tests' literal texts are proved
  only where a row names them. `Environment.NewLine` is not modelled as such.
  A line break is text like any other, except that the pattern's `.` does not
  match a line feed.
- `Interpolation.Step`, `Interpolation.Substitute`, `Strings.IsWhiteSpace`,
  `Scanner.TokenShape` and `Scanner.Matches` are definitions without a
  contract of their own. What they promise is stated by the lemmas named in
  their rows.

## Behaviour at the edges

Several consequences of the code are easy to miss. The model follows the
code in each case.

- An entry keyed by the empty string is not always inert. `[][]` is one token
  whose trimmed key is `""`, so such an entry replaces it
  (`Examples.EmptyKeyToken`).
  For `Hello [name]` an empty-key entry is inert (`Examples.HelloEmptyKey`).
- The escape pass runs on every valid input. When no token's key has a
  usable value, the output is the escaped copy, so an input that holds `[[`
  or `]]` comes back strictly shorter. For example, `a [[b` with an empty
  dictionary gives `a [b` (`Interpolation.EscapesChangeInput`,
  `Interpolation.EmptyMappingOnlyEscapes`). Without `[[` and `]]`, an
  input none of whose keys has a value comes back unchanged
  (`Interpolation.UntouchedInput`).
- Inserted values are scanned again by later replacements. A value that holds
  the text of a later token is replaced by that token's `Replace`: `[a][b]`,
  with `a` mapped to `[b]` and `b` to `v`, gives `vv`
  (`Examples.ValueRescanned`).
- The doc comment at Interpolation.cs:201 says `[[hello]]` gives `[hello]`.
  That fails when `hello` is also used as a placeholder `[hello]` with a
  usable value. The escape pass makes `[hello]` out of `[[hello]]`, and the
  later `Replace("[hello]", …)` replaces both (`Examples.EscapedAlsoPlaceholder`,
  `Examples.DoubledNamePlaceholder`). See "## Findings".

## Findings

| source | as written | input that shows it | evidently intended | confidence | as-written member | corrected member |
|---|---|---|---|---|---|---|
| Interpolation.cs:201 | The escape pass runs before the substitutions. `[[k]]` becomes `[k]` in the working copy, and a later `Replace("[k]", v)` replaces it too. | `[[name]] [name]` with `name` mapped to `Jim` gives `Jim Jim`. | `[[k]]` always reads `[k]`, as the doc comment says: `[name] Jim`. | not executed | Examples.EscapedAlsoPlaceholder | TemplateOutcome.InterpolateAsIntended |

The promised reading is `TemplateOutcome.Intended`, where `[[k]]` always
gives `[k]`. `TemplateOutcome.InterpolateAsIntended` covers well-formed
templates that are not all white space and whose placeholder keys' usable
values hold no bracket. For those it proves that the code gives exactly this
output when no escaped key is also a placeholder key with a usable value. When one is, the output differs, since it holds fewer `[`
(`TemplateOutcome.OpenCount`). The rest of the model describes the code as
written.
