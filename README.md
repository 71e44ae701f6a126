# Resume match: response post-processing and analysis guard

The analysis page (`src/pages/Index.tsx`) uploads a resume and a job
description, sends both texts to a hosted chat-completion model and shows the
answer as a match score and a list of match details. This project models the
two pieces of that page that are deterministic logic and proves what they do:

- **Response post-processing** (lines 77-88). The score is the first
  percentage in the model's answer: `content.match(/(\d+)%/)`, group 1 read by
  `parseInt`, and 50 when nothing matches. The details are the answer split on
  `'\n'`, with whitespace-only lines dropped and the remaining lines trimmed.
- **Analysis guard** (lines 96-112 and 198). `analyzeMatch` stops with
  "Missing files" unless both files are selected, then with "Missing API Key"
  when the key field is empty, and otherwise proceeds. The Analyze button is
  disabled when a file or the key is missing or an analysis is running.

Modules, one per concern:

- `Chars` (`chars.dfy`): `\d` (ASCII digits only) and the whitespace set
  that JavaScript's `trim` strips (ECMAScript WhiteSpace and LineTerminator,
  that is, tab, vertical tab, form feed, the Unicode "Zs" space separators
  such as space and U+00A0, the zero-width
  no-break space U+FEFF, which ECMAScript lists on its own, and the line
  terminators).
- `Percent` (`percent.dfy`): the regular-expression match, modelled the way
  a backtracking engine runs a pattern without the `g` flag. `MatchFrom`
  tries each start position from the left. `DigitRunEnd` lets `\d+` take
  the longest digit run. `Backtrack` gives digits back one at a time until a
  `%` follows. Ghost predicates state what the result is: `IsRegexMatch`
  (leftmost start, then longest group) and `IsFirstPercentRun` (the first
  maximal digit run immediately followed by `%`). Lemmas prove that the two
  coincide with `Match`. `Decimal` is `parseInt` on digit strings.
- `Arrays` (`arrays.dfy`): `Array.prototype.filter` and
  `Array.prototype.map` for callbacks that only look at the element, with
  the positions the filter keeps (`KeptIndices`) as the filter's reference
  description.
- `Lines` (`lines.dfy`): `split('\n')`, `join('\n')`, `trim` (the leading
  and the trailing whitespace counted, then cut off), the filter callback
  `line => line.trim().length > 0` (`HasText`), and `Details`, the
  composition of lines 83-86.
- `Analysis` (`analysis.dfy`): `ParseAnalysis(content)`, the `{ score,
  details }` pair.
- `Guard` (`guard.dfy`): the guard clauses and the button's `disabled`
  expression.

The page computes no score of its own: the number is read from the language
model's answer (lines 79-80), with a default of 50 and no floor or ceiling.

## Model

| member | source | states |
|---|---|---|
| `Percent.DigitRunEnd` | src/pages/Index.tsx:79 | greedy `\d+` from a position stops at the first non-digit (or the end), and everything before it is a digit |
| `Percent.Backtrack` | src/pages/Index.tsx:79 | giving back digits succeeds at the longest group followed by `%`; on failure, no shorter group is followed by `%` |
| `Percent.MatchAt` | src/pages/Index.tsx:79 | one attempt at a start position succeeds exactly when the pattern `(\d+)%` occurs there |
| `Percent.MatchFrom` | src/pages/Index.tsx:79 | the scan returns the first start position at or after `i` where the pattern occurs, or none if it occurs nowhere from `i` on |
| `Percent.Match` | src/pages/Index.tsx:79 | a match is leftmost and, at its start, longest; `null` exactly when the pattern occurs nowhere |
| `Percent.MatchIsLeftmostGreedy` | src/pages/Index.tsx:79 | both directions: `Match` returns a pair exactly when that pair is the leftmost-greedy match |
| `Percent.MatchIsFirstPercentRun` | src/pages/Index.tsx:79 | both directions: the match is exactly the first maximal run of digits immediately followed by `%` |
| `Percent.NoMatchIffNoDigitBeforePercent` | src/pages/Index.tsx:79-80 | there is no match exactly when no digit is immediately followed by `%` |
| `Percent.Decimal` | src/pages/Index.tsx:80 | `parseInt` of a run of `k` digits is a natural number below 10^k |
| `Percent.DecimalOfNumeral` | src/pages/Index.tsx:80 | `parseInt` inverts the decimal numeral: it reads back every natural number |
| `Percent.Score` | src/pages/Index.tsx:79-80 | the score is the decimal value of the first maximal digit run immediately followed by `%`, wherever that run is, and exactly 50 when no digit is immediately followed by `%` |
| `Percent.NoPercentSignNoMatch` | src/pages/Index.tsx:79-80 | a response without `%` has no match, so it gets the default |
| `Percent.ScoreOfLeadingPercentage` | src/pages/Index.tsx:79-80 | a response starting with digits and `%` scores those digits' value, whatever follows |
| `Percent.ScoreNotClamped` | src/pages/Index.tsx:80 | no clamping: the response `n%` scores `n` for every natural number `n` |
| `Percent.MatchAfterPrefix` | src/pages/Index.tsx:79 | after a prefix without a percentage that does not end in a digit, the match is the match of the rest shifted by the prefix's length, and there is none when the rest has none |
| `Percent.ScoreSkipsPrefix` | src/pages/Index.tsx:79-80 | a prefix without a percentage that does not end in a digit leaves the score unchanged |
| `Percent.MatchAcrossPercent` | src/pages/Index.tsx:79 | deleting a `%` that follows a non-digit, anywhere in the response, keeps the match: before it in place, after it moved back by one, none when there was none |
| `Percent.PercentAfterNonDigitIgnored` | src/pages/Index.tsx:79-80 | a `%` preceded by a non-digit, anywhere in the response, contributes nothing: deleting it leaves the score unchanged |
| `Percent.FirstPercentageWins` | src/pages/Index.tsx:79-80 | after such a prefix, the first digit run followed by `%` gives the score whatever follows it, later percentages included |
| `Percent.FirstPercentageWinsExample` | src/pages/Index.tsx:79-80 | `"1a23% then 45%"` scores 23 |
| `Percent.ScoreAboveHundred` | src/pages/Index.tsx:79-80 | `"150%"` scores 150 |
| `Lines.SplitLines` | src/pages/Index.tsx:84 | `split('\n')` gives at least one piece, no piece holds `'\n'`, and joining the pieces gives back the text |
| `Lines.SplitJoin` | src/pages/Index.tsx:84 | the other round trip: splitting the join of newline-free pieces gives back the pieces |
| `Lines.LeadingWs` | src/pages/Index.tsx:85-86 | the leading whitespace `trim` drops: every character counted is whitespace, and the next one is not |
| `Lines.TrailingWs` | src/pages/Index.tsx:85-86 | the trailing whitespace `trim` drops: every character counted is whitespace, and the one before them is not |
| `Lines.Trim` | src/pages/Index.tsx:85-86 | `trim` leaves no whitespace at either end, and its result is empty exactly when the line is whitespace only |
| `Lines.TrimIsSlice` | src/pages/Index.tsx:85-86 | `trim` returns a slice of the line between a whitespace-only head and a whitespace-only tail |
| `Lines.TrimKeepsCharacters` | src/pages/Index.tsx:86 | every character of a trimmed line comes from the line |
| `Lines.TrimIdempotent` | src/pages/Index.tsx:85-86 | `trim` is the identity on trimmed strings, and trimming twice is trimming once |
| `Lines.HasText` | src/pages/Index.tsx:85 | the filter callback holds exactly when the line is not whitespace only |
| `Arrays.Filter` | src/pages/Index.tsx:85 | `filter` keeps no more elements than it is given, and every element it keeps satisfies the callback |
| `Arrays.KeptIndices` | src/pages/Index.tsx:85 | the positions the filter keeps are positions of the input |
| `Arrays.FilterAtKeptIndices` | src/pages/Index.tsx:85 | element by element, the filter's output is the input at the kept positions |
| `Arrays.KeptIndicesIncreasing` | src/pages/Index.tsx:85 | the kept positions increase, so the filter keeps the input's order |
| `Arrays.KeptIndicesExact` | src/pages/Index.tsx:85 | both directions: a position is kept exactly when its element satisfies the callback |
| `Arrays.FilterKeepsAll` | src/pages/Index.tsx:85 | when every element satisfies the callback, the filter returns its input |
| `Arrays.Map` | src/pages/Index.tsx:86 | `map` keeps the length and applies the callback to each element, position by position |
| `Lines.TrimAllOfTrimmed` | src/pages/Index.tsx:86 | trimming already trimmed lines changes nothing |
| `Lines.TrimmedNonBlankEntries` | src/pages/Index.tsx:85-86 | after the filter and the trim, every entry is non-empty, trimmed, and free of `'\n'` when the lines are |
| `Lines.Details` | src/pages/Index.tsx:83-86 | every detail is non-empty, has no leading or trailing whitespace and no line break, and there are no more details than lines |
| `Lines.DetailsAtKeptIndices` | src/pages/Index.tsx:83-86 | the details are the trimmed lines at the kept positions, one for one |
| `Lines.KeptLinesHaveText` | src/pages/Index.tsx:85 | a line is kept exactly when it is not whitespace only |
| `Lines.DetailsAreTrimmedNonBlankLines` | src/pages/Index.tsx:83-86 | the details are, in order, exactly the trimmed forms of the lines that are not whitespace only |
| `Lines.LinesOfJoin` | src/pages/Index.tsx:83-86 | non-empty trimmed one-line entries survive splitting their join, the filter and the trim |
| `Lines.DetailsOfJoin` | src/pages/Index.tsx:83-86 | details are recovered from their join with `'\n'` |
| `Lines.DetailsIdempotent` | src/pages/Index.tsx:83-86 | re-parsing the details joined with `'\n'` yields the same details |
| `Analysis.ParseAnalysis` | src/pages/Index.tsx:77-88 | the score is the value of the first maximal digit run followed by `%`, or 50 without a digit before `%`; the details are non-empty and trimmed |
| `Analysis.ParseAnalysisDetailsIdempotent` | src/pages/Index.tsx:83-88 | the details of the re-joined details are the details |
| `Guard.CheckInputs` | src/pages/Index.tsx:96-112 | "Missing files" exactly when a file is absent, whatever the key; "Missing API Key" exactly when both files are present and the key is empty; otherwise proceed |
| `Guard.ButtonDisabled` | src/pages/Index.tsx:198 | the button is enabled exactly when the guard would proceed and no analysis is running |
| `Guard.EnabledButtonProceeds` | src/pages/Index.tsx:96-112 | a click on an enabled button always gets past the guard clauses |
| `Guard.MissingFilesIgnoresKey` | src/pages/Index.tsx:96-103 | with a file missing, the key makes no difference to the outcome |

## Left out

- PDF text extraction through pdfjs, its CDN worker setting and the per-page loop (src/pages/Index.tsx:10-12, 25-38): a foreign library and asynchronous I/O.
- DOCX text extraction through mammoth (src/pages/Index.tsx:117-119): a foreign library and I/O.
- The request to the chat-completion API, its body, the `response.ok` check and the access `result.choices[0].message.content` (src/pages/Index.tsx:44-75): network I/O. The model takes `content` as its input string.
- Decimal: `parseInt` returns a floating-point number, which loses precision for digit runs beyond 2^53 and becomes `Infinity` for runs whose value exceeds about 1.8e308; the model reads digits into an unbounded natural number.
- `null` or non-string `content`: not modelled; the model assumes the answer has a text content.
- Strings are sequences of Unicode scalar values, where JavaScript uses UTF-16 code units. Neither digits, `%`, `'\n'` nor the whitespace set involve surrogates, so scores and detail boundaries are the same.
- The React state, toasts, `console` logging and the `setIsAnalyzing(true)` / `finally` reset around the analysis (src/pages/Index.tsx:17-23, 114-139): UI state and asynchronous lifecycle. The guard clauses do not read `isAnalyzing` (only the button at line 198 does), so `CheckInputs` has no such parameter.
- src/components/ScoreCard.tsx and src/components/FileUpload.tsx: rendering only, with floating-point arithmetic for the ring and the file size.
