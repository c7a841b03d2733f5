# Log analyzer core in Dafny

This project models the core of a small log-analysis tool:

- **Parser** (`app/src/parser.py`): `parse_log_line` recognises one line in one of three formats:
  - a JSON object;
  - `YYYY-MM-DD HH:MM:SS LEVEL message`;
  - `timestamp - LEVEL - message`.

  `parse_log_file` optionally keeps only the last N lines and collects the records of the lines that parse.
- **Analyzer** (`app/src/analyzer.py`):
  - `get_log_level_counts` counts logs per level, most frequent first;
  - `get_frequent_errors` reports ERROR messages seen at least `min_count` times (default 2).
- **Two response-time detectors**, each with `threshold_ms` defaulting to 1000:
  - the pattern-based one (`app/src/detector.py`) searches each message for `API response time: <digits>ms` in any letter case and sorts the anomalies from the slowest down;
  - the split-based one (`src/detector.py`) splits the message on `:` and reads the second piece with `int()`.

The modules:

- `Text`: the Python string built-ins the code relies on:
  - `str.strip` and `isspace`;
  - `str.split` and `join`;
  - `str.replace` and `str.upper`;
  - `int()` on decimal text, with the narrower whitespace set it skips, and `str()` of an integer.
- `Records`: the `{timestamp, level, message}` record, the log dictionary and the anomaly.
- `Parser`, `Analyzer`, `RegexDetector` and `SplitDetector`: one per core function group.
- `Sorting`: Python's stable descending sort.
- `DetectorComparison`: relates the two detectors.

How Python behaviour is represented:

- An exception the source raises becomes a `Failure` of a `Result`:
  - `parse_log_line` raises `AttributeError` on a JSON value that is not an object, or on a JSON `level` that is not a string;
  - the split-based detector raises `KeyError` on a missing `message` or `timestamp`.

  `AttributeError` (`NotAnObject`, `LevelNotText`) ends the whole batch of `parse_log_file`, as in Python. So does `KeyError` for the split-based detector's scan. The third parse failure, `NonTextField`, has no Python counterpart (see "## Left out").
- `json.loads` is a parameter `decode`. `None` stands for `JSONDecodeError`; the other exceptions `json.loads` can raise are not modelled (see "## Left out").
- Insertion-ordered dictionaries are sequences of `Entry(key, count)`.

The formats as the code parses them:

- The JSON and space-separated branches do not trim the message. Only the dash branch strips its three pieces.
- The space-separated level is `\w+`: a run of letters, digits and underscores.
- An empty `timestamp` or `message` is accepted.
- The `$` of the space pattern also matches before a final line feed, so that line feed is not part of the message.

## Model

| member | source | states |
|---|---|---|
| Text.Upper | app/src/parser.py:25 | the result has the input's length, and each character is the upper-case form of the input character at the same position |
| Text.UpperSpec | app/src/parser.py:37 | upper-casing leaves no lower-case letter, keeps every other character, and is idempotent |
| Text.LeadingSpace | app/src/parser.py:16 | the leading run of whitespace is whitespace and maximal |
| Text.TrailingStart | app/src/parser.py:16 | everything from the returned position on is whitespace, and the character before it is not |
| Text.Strip | app/src/parser.py:16 | the stripped text is no longer than the input and neither starts nor ends with whitespace |
| Text.StripEmptyIffBlank | app/src/parser.py:16-18 | a stripped line is empty exactly when the line is all whitespace |
| Text.StripSurrounded | app/src/parser.py:16 | stripping text padded with whitespace gives the text back when it neither starts nor ends with whitespace |
| Text.StripKeeps | app/src/parser.py:46-48 | text that neither starts nor ends with whitespace is its own strip |
| Text.StripIdempotent | app/src/parser.py:16 | stripping twice is stripping once |
| Text.Contains | src/detector.py:4 | Python's `sub in s`; pinned down by `ContainsIff` (it holds exactly when the pattern occurs at some position) and `MissingCharNotContained` |
| Text.ContainsIff | src/detector.py:4 | the substring test holds exactly when the pattern occurs at some position |
| Text.MissingCharNotContained | src/detector.py:4 | text lacking one character of a pattern does not contain the pattern |
| Text.Split | app/src/parser.py:42 | a split has at least one piece |
| Text.Join | src/detector.py:8 | `sep.join(parts)`, through which `replace` is defined; pinned down by `JoinSplit` (joining the pieces of a split with the separator gives the text back) |
| Text.JoinSplit | app/src/parser.py:42 | joining the pieces of a split with the separator gives the original text back |
| Text.SplitPiecesFree | app/src/parser.py:42 | no piece of a split contains the separator |
| Text.SplitHeadIsPrefix | src/detector.py:5 | the first piece of a split is a prefix of the text |
| Text.SplitWithout | app/src/parser.py:42 | text without the separator splits into itself alone |
| Text.SplitAtFirst | app/src/parser.py:42 | a split cuts at the first occurrence of the separator and continues on the rest |
| Text.Replace | src/detector.py:8 | `s.replace(old, new)` as `new.join(s.split(old))`; pinned down by `ReplaceAbsent` and, for the unit `ms`, by `SplitDetector.NumberPiece` |
| Text.ReplaceAbsent | src/detector.py:8 | replacing a pattern that does not occur changes nothing |
| Text.DigitChar | src/detector.py:8 | the digit character of a value below ten is a digit with that value |
| Text.Decimal | src/detector.py:8 | the text form of a natural number is non-empty and all digits |
| Text.DecimalRoundTrip | src/detector.py:8 | the digits of a natural number read back as that number |
| Text.DropUnderscores | src/detector.py:8 | removing the digit-group underscores leaves only digits, and digit text is unchanged; that the digits survive in order is stated by `DropUnderscoresAppend` and `DropUnderscoresAtSeparator` |
| Text.DropUnderscoresAppend | src/detector.py:8 | removing underscores from two texts put together is removing them from each and putting the results together, so every digit survives in its place |
| Text.DropUnderscoresAtSeparator | src/detector.py:8 | an underscore between two digit groups is removed and nothing else is |
| Text.IntText | src/detector.py:8 | the text form of an integer is non-empty and has no surrounding whitespace |
| Text.ParseIntText | src/detector.py:8 | `int()` reads back the text form of every integer, negatives included |
| Text.ParseInt | src/detector.py:8 | `int()` of a string: surrounding whitespace ignored when it is tab, line feed, vertical tab, form feed, carriage return, space or non-ASCII `isspace` whitespace, then an optional sign and ASCII digits with single underscores between them; `None` for `ValueError`. Pinned down by `ParseIntText`, `ParseIntRoundTrip`, `ParseIntDigitGroups` and `ParseIntRejectsSeparator` |
| Text.ParseIntDigitGroups | src/detector.py:8 | `int()` reads two non-empty digit groups joined by an underscore as the number their digits spell together |
| Text.UnderscoreExample | src/detector.py:8 | `int("1_000")` is 1000 |
| Text.ParseIntRoundTrip | src/detector.py:8 | `int()` reads back the text form of every integer, whatever whitespace that `int()` skips surrounds it |
| Text.ParseIntRejectsSeparator | src/detector.py:8 | digits followed by one of U+001C to U+001F strip to the digits under `str.strip`, yet `int()` rejects them |
| Records.Get | app/src/detector.py:20-21 | `log.get(key, "")`: the value at the key, or the empty text when the key is missing; `log.get(key)` of the analyzer is falsy exactly when this is empty. Used by `Candidate`, `Flag`, `LevelCountsSpec` and `FrequentErrorsSpec`, which state the reported values through it |
| Parser.WordRun | app/src/parser.py:32 | the run starting at a position is made of word characters, and is maximal |
| Parser.BlankLineDropped | app/src/parser.py:16-18 | a blank line is exactly one whose strip is empty, and it yields no record and raises nothing |
| Parser.JsonObjectWins | app/src/parser.py:21-27 | an object with text fields is parsed by the JSON branch: absent keys read as "", the level is upper-cased, timestamp and message are kept as they are |
| Parser.JsonRecordRoundTrip | app/src/parser.py:21-27 | a JSON object holding a record's three fields, with an upper-case level, parses back to that record |
| Parser.JsonNonObjectFails | app/src/parser.py:22-25 | a decoded value that is not an object raises; so does an object whose level is not a string |
| Parser.FromJson | app/src/parser.py:21-27 | the JSON branch after a successful decode: a non-object raises, a non-text level raises, otherwise the record with the level upper-cased; pinned down by `JsonObjectWins`, `JsonRecordRoundTrip` and `JsonNonObjectFails` |
| Parser.UndecodableFallsThrough | app/src/parser.py:28-52 | a line `json.loads` rejects never raises: the pattern decides if it matches, otherwise the dash split does |
| Parser.WordRunExact | app/src/parser.py:32 | a maximal run of word characters is the run the pattern's `(\w+) ` takes |
| Parser.SpaceFormatRoundTrip | app/src/parser.py:32-39 | `DATE TIME WORD REST` parses to the timestamp `DATE TIME`, the upper-cased word and the untrimmed rest |
| Parser.SpaceMatchShape | app/src/parser.py:32-39 | whatever the pattern accepts is a date, a time, a word and a rest without line feeds joined by single spaces, with at most one final line feed |
| Parser.SpaceMatch | app/src/parser.py:32-39 | `re.match` of the space pattern on the stripped line; pinned down in both directions by `SpaceFormatRoundTrip` (every line of the form matches with its fields) and `SpaceMatchShape` (everything that matches has the form) |
| Parser.SpaceExample | app/src/parser.py:31-39 | the sample line `2025-08-13 15:22:01 INFO Some message` of the comment parses to its timestamp, level and message |
| Parser.DashShape | app/src/parser.py:42-49 | whatever the split accepts is three separator-free pieces joined by two separators, each stripped and the level upper-cased |
| Parser.DashSplit | app/src/parser.py:42-52 | the dash split; pinned down by `DashShape`, `DashNeedsThree` and `DashFormatRoundTrip` |
| Parser.DashNeedsThree | app/src/parser.py:42-52 | when the first two branches do not apply, the line parses exactly when the split has three pieces, and is dropped otherwise |
| Parser.StampFreeOfSeparator | app/src/parser.py:41 | a `DATE TIME` timestamp, together with the start of the separator that follows it, holds no separator |
| Parser.SpacelessLevelFree | app/src/parser.py:44 | a level without spaces cannot run into the separator after it |
| Parser.DashDefeatsPattern | app/src/parser.py:32-33 | a dash where the level word should begin makes the space pattern fail |
| Parser.DashLineSplit | app/src/parser.py:42-44 | `DATE TIME - LEVEL - MESSAGE` splits into the timestamp, the level and the message |
| Parser.DashFormatRoundTrip | app/src/parser.py:41-49 | `DATE TIME - LEVEL - MESSAGE` parses to the timestamp, the stripped upper-cased level and the stripped message |
| Parser.ParseLine | app/src/parser.py:6-52 | `parse_log_line`: strip, blank check, then the JSON, space and dash branches in that order; each branch is pinned down by `BlankLineDropped`, `JsonObjectWins`, `JsonNonObjectFails`, `UndecodableFallsThrough`, `SpaceFormatRoundTrip`, `SpaceMatchShape` and `DashFormatRoundTrip` |
| Parser.DashExample | app/src/parser.py:41-49 | the sample line `2025-08-13 15:22:01 - INFO - Some message` of the comment parses to its timestamp, level and message |
| Parser.FourSegmentsDropped | app/src/parser.py:42-52 | a line with four dash-separated segments yields nothing |
| Parser.SliceStart | app/src/parser.py:75 | the normalised start of `lines[-n:]` lies within the list |
| Parser.Tail | app/src/parser.py:74-75 | no limit (or 0) keeps every line; a positive n keeps the last min(n, length) lines; a negative n drops the first \|n\| |
| Parser.ParsedIndicesSpec | app/src/parser.py:80-81 | the recorded positions are increasing and are exactly the positions whose line parsed |
| Parser.CollectSelects | app/src/parser.py:77-83 | a successful collection is exactly the records of the parsed lines, in order |
| Parser.CollectFailureCause | app/src/parser.py:79 | a collection that raises carries the exception of the first line that raised |
| Parser.CollectNoFailure | app/src/parser.py:77-83 | a successful collection met no line that raised |
| Parser.CollectStopsAtFailure | app/src/parser.py:78-79 | once a line has raised, the later lines change nothing |
| Parser.Collect | app/src/parser.py:77-83 | the loop of `parse_log_file` over per-line outcomes; pinned down by `CollectSelects`, `CollectFailureCause`, `CollectNoFailure` and `CollectStopsAtFailure` |
| Parser.ParseAll | app/src/parser.py:77-83 | the batch parse of the lines; pinned down by `ParseAllSpec` |
| Parser.ParseAllSpec | app/src/parser.py:77-83 | on success: the records of exactly the lines that parse, in input order, never more than the lines. On failure: the exception of the first line that raises |
| Parser.IndicesBound | app/src/parser.py:80-81 | strictly increasing positions below n number at most n |
| Parser.ParseFile | app/src/parser.py:55-83 | the method's loop returns the batch parse of the tail of the lines |
| Parser.TailOfFive | app/src/parser.py:74-81 | with a tail of 2 over five parsable lines, the result is the records of the last two lines, in order |
| Sorting.WithKey | app/src/detector.py:36 | the items picked out for one key all carry that key and are no more than the input |
| Sorting.SortDesc | app/src/detector.py:36 | `sort(key=..., reverse=True)`; pinned down by `SortDescSorted` (ordered and a permutation) and `SortDescStable` (equal keys keep their order) |
| Sorting.InsertWithKey | app/src/detector.py:36 | the inserted item goes ahead of every item with its own key |
| Sorting.SortDescSorted | app/src/detector.py:36 | the sort orders from the largest key down, and is a permutation of its input |
| Sorting.SortDescStable | app/src/detector.py:36 | items with equal keys keep their original relative order |
| Analyzer.Gather | app/src/analyzer.py:7 | the list comprehension `[field(log) for log in logs if keep(log)]`; pinned down by `GatherCount`, `GatherLength` and `GatherFrom` |
| Analyzer.GatherCount | app/src/analyzer.py:7 | the comprehension yields each value once per kept log that has it |
| Analyzer.GatherLength | app/src/analyzer.py:7 | the comprehension has one item per kept log |
| Analyzer.GatherFrom | app/src/analyzer.py:19 | a value is gathered exactly when some kept log has it |
| Analyzer.FirstIndex | app/src/analyzer.py:8 | the position of the first occurrence, or the length when there is none |
| Analyzer.FirstIndexExtend | app/src/analyzer.py:8 | appending an item does not move the first occurrence of a value already present |
| Analyzer.BumpKeys | app/src/analyzer.py:8 | counting one more item keeps the keys, and adds that item at the end when it is new |
| Analyzer.BumpDistinct | app/src/analyzer.py:8 | counting one more item keeps the keys distinct |
| Analyzer.BumpEntries | app/src/analyzer.py:8 | counting one more item raises its count by one and leaves the other counts alone |
| Analyzer.TallyEntries | app/src/analyzer.py:8 | `Counter` has distinct keys, and holds exactly the pairs of an item of the input with its number of occurrences |
| Analyzer.TallyKeys | app/src/analyzer.py:8 | `Counter` keys are exactly the items of the input, in the order of their first occurrence |
| Analyzer.BumpTotal | app/src/analyzer.py:8 | counting one more item raises the sum of the counts by one |
| Analyzer.TallyTotal | app/src/analyzer.py:8 | the counts add up to the length of the input |
| Analyzer.Tally | app/src/analyzer.py:8 | `Counter(s)` as an insertion-ordered list of entries; pinned down by `TallyEntries`, `TallyKeys` and `TallyTotal` |
| Analyzer.PermutedKeysDistinct | app/src/analyzer.py:8 | rearranging entries with distinct keys keeps them distinct |
| Analyzer.LevelCountsSpec | app/src/analyzer.py:5-8 | an entry is reported exactly when its key is a non-empty level and its count is the number of logs at that level. Keys are distinct, counts run from the largest down, and they add up to the number of logs that have a level |
| Analyzer.LevelCounts | app/src/analyzer.py:5-8 | `get_log_level_counts`; pinned down by `LevelCountsSpec` and `LevelCountsTies` |
| Analyzer.PermutedTotal | app/src/analyzer.py:8 | rearranging entries keeps the sum of their counts |
| Analyzer.Without | app/src/analyzer.py:8 | taking out one entry takes its count out of the sum |
| Analyzer.WithoutCounted | app/src/analyzer.py:8 | taking out one entry takes exactly it out of the multiset |
| Analyzer.TotalSplit | app/src/analyzer.py:8 | the sum of counts of two concatenated sequences is the sum of both |
| Analyzer.LevelCountsTies | app/src/analyzer.py:8 | levels with equal counts keep the order in which they first appeared |
| Analyzer.WithKeyIncreasing | app/src/analyzer.py:8 | picking out the entries with one count keeps an increasing order |
| Analyzer.WithKeyFrom | app/src/analyzer.py:8 | every picked-out entry comes from the input |
| Analyzer.AtLeast | app/src/analyzer.py:21 | an entry is kept exactly when its count is at least the minimum |
| Analyzer.AtLeastIncreasing | app/src/analyzer.py:21 | the filter keeps the order of the counter |
| Analyzer.FrequentErrorsSpec | app/src/analyzer.py:10-21 | a message is reported exactly when it is the non-empty message of ERROR logs n times, with n > 0 and n >= min_count, and its count is n |
| Analyzer.FrequentErrors | app/src/analyzer.py:10-21 | `get_frequent_errors` with `min_count` defaulting to 2; pinned down by `FrequentErrorsSpec`, `FrequentErrorsOrder` and `FrequentErrorsFrom` |
| Analyzer.FrequentErrorsOrder | app/src/analyzer.py:20-21 | the reported messages come in the order they were first seen |
| Analyzer.FrequentErrorsFrom | app/src/analyzer.py:19 | every reported message is the message of some log whose level is exactly ERROR |
| RegexDetector.DigitRun | app/src/detector.py:17 | the run starting at a position is made of digits, and is maximal |
| RegexDetector.Captured | app/src/detector.py:17 | the captured group is non-empty and all digits |
| RegexDetector.FirstHit | app/src/detector.py:22 | the scan over start positions stops only at a position in range that matches |
| RegexDetector.FirstHitIsFirst | app/src/detector.py:22 | no position before the one the scan stops at matches |
| RegexDetector.FirstHitLeftmost | app/src/detector.py:22 | a matching position with no match before it is where the scan stops |
| RegexDetector.FirstHitNone | app/src/detector.py:22-23 | the scan finds nothing exactly when no position in range matches |
| RegexDetector.FirstHitSame | app/src/detector.py:17-22 | two match tests that agree on every position give the same scan result |
| RegexDetector.SearchFindsLeftmost | app/src/detector.py:22 | `pattern.search` reports the value of the leftmost match |
| RegexDetector.SearchFindsNothing | app/src/detector.py:22-23 | `pattern.search` fails exactly when the pattern matches nowhere |
| RegexDetector.Search | app/src/detector.py:17-22 | `pattern.search(message)` with the value of group 1; pinned down by `SearchFindsLeftmost`, `SearchFindsNothing`, `LeftmostMatch` and `SearchIgnoresCase` |
| RegexDetector.SearchIgnoresCase | app/src/detector.py:17 | messages that differ only in letter case give the same search result |
| RegexDetector.SearchOfUpper | app/src/detector.py:17 | upper-casing a message does not change the search result |
| RegexDetector.FoldDigit | app/src/detector.py:17 | under case folding a digit matches only itself |
| RegexDetector.LabelIgnoresCase | app/src/detector.py:17 | the literal `API response time: ` matches at a position regardless of letter case |
| RegexDetector.MatchIgnoresCase | app/src/detector.py:17 | the pattern matches at a position regardless of letter case |
| RegexDetector.CapturedIgnoresCase | app/src/detector.py:17 | the captured digits do not depend on letter case |
| RegexDetector.DigitRunIgnoresCase | app/src/detector.py:17 | the digit run does not depend on letter case |
| RegexDetector.LeftmostMatch | app/src/detector.py:22 | a successful search reports the value of a match that has no match before it |
| RegexDetector.CapturedIsInt | app/src/detector.py:25-33 | `int()` of the captured digits succeeds with their decimal value, so the `ValueError` handler is not reached (without the digit limit of newer Pythons) |
| RegexDetector.Candidate | app/src/detector.py:20-31 | what one log contributes: the anomaly with its timestamp, value and message when the search finds a value above the threshold; pinned down by `CandidatesAbove`, `CandidatesCount` and `ThresholdExample` |
| RegexDetector.Candidates | app/src/detector.py:19-31 | the anomalies in log order before the sort; pinned down by `CandidatesAbove` and `CandidatesCount` |
| RegexDetector.Listed | app/src/detector.py:27 | an optional anomaly lists once when present and not at all otherwise |
| RegexDetector.DetectHighResponseTimes | app/src/detector.py:5-37 | the method returns the stable descending sort of the log-order candidates. It is ordered from the slowest, a permutation of the candidates, and every anomaly is above the threshold |
| RegexDetector.CandidatesAbove | app/src/detector.py:26 | every candidate is above the threshold |
| RegexDetector.CandidatesCount | app/src/detector.py:19-31 | each anomaly occurs once per log that yields it: nothing extra, nothing lost |
| RegexDetector.DetectTies | app/src/detector.py:36 | anomalies with equal response times stay in log order |
| RegexDetector.CanonicalMessage | app/src/detector.py:17-25 | `API response time: <n>ms` reads back n |
| RegexDetector.DigitRunIs | app/src/detector.py:17 | a run of d digits followed by a non-digit has length d |
| RegexDetector.ThresholdExample | app/src/detector.py:5-31 | a log whose message is `API response time: 1500ms` yields, at the default threshold, the anomaly with response time 1500 and the log's timestamp and message, and nothing at a threshold of 2000 |
| SplitDetector.ScanStopsAtFailure | src/detector.py:4-13 | once a log has raised, the later logs change nothing |
| SplitDetector.ValueOf | src/detector.py:5-8 | `int(parts[1].strip().replace("ms", ""))` when there is a second piece, `None` where `int()` raises `ValueError`; pinned down by `FlagSpec` and `CanonicalValue` |
| SplitDetector.Flag | src/detector.py:4-14 | the anomaly one log yields; pinned down by `FlagSpec` |
| SplitDetector.Step | src/detector.py:4-14 | one turn of the loop: the `message` lookup always happens and the `timestamp` lookup only for a flagged log, each raising `KeyError` when the key is missing; pinned down through `Scan` by `ScanFails` and `ScanSucceeds` |
| SplitDetector.Scan | src/detector.py:2-17 | the loop of the split-based detector; pinned down by `ScanFails`, `ScanSucceeds` and `ScanStopsAtFailure` |
| SplitDetector.DetectHighResponseTimes | src/detector.py:1-17 | the method's loop returns the scan: the anomalies in log order, or the first `KeyError` |
| SplitDetector.PresentSpec | src/detector.py:10-14 | the anomalies present are those of the logs that yield one, each once, in log order |
| SplitDetector.ScanFails | src/detector.py:4-11 | the scan raises exactly when some log lacks `message`, or is flagged and lacks `timestamp` |
| SplitDetector.ScanSucceeds | src/detector.py:2-17 | otherwise the scan returns the anomalies of the flagged logs in log order |
| SplitDetector.FlagSpec | src/detector.py:4-14 | a log is reported exactly when its message holds the marker and its second piece reads as a value above the threshold; the anomaly then carries that value and the log's timestamp and message |
| SplitDetector.SeparatorBeforeUnit | src/detector.py:4-16 | `API response time: <n><U+001C..U+001F>ms` reads as no value, because `int()` rejects the separator that `strip()` keeps inside the piece, so the log is skipped whatever the threshold |
| SplitDetector.ParsedLogsScan | src/detector.py:4-11 | logs built from parsed records always have both keys, so the scan never raises on them |
| SplitDetector.NumberPiece | src/detector.py:8 | ` <digits>ms` stripped and freed of `ms` is the digits |
| SplitDetector.CanonicalMarked | src/detector.py:4 | a message starting with the marker contains it |
| SplitDetector.CanonicalPieces | src/detector.py:5 | the canonical message splits on `:` into the marker and ` <digits>ms` |
| SplitDetector.CanonicalValue | src/detector.py:4-8 | `API response time: <n>ms` contains the marker and reads back n |
| DetectorComparison.AgreeOnCanonicalForm | src/detector.py:1-14 | on the canonical message form both detectors read the same value and report the same anomaly, exactly when the value is above the threshold |
| DetectorComparison.LowerFormReads | app/src/detector.py:17 | the lower-case canonical form reads back its value under the pattern |
| DetectorComparison.LowerFormUnmarked | src/detector.py:4 | the lower-case canonical form does not contain the case-sensitive marker |
| DetectorComparison.DivergeOnLowerCase | src/detector.py:4 | the lower-case canonical form above the threshold is reported by the pattern detector and not by the split detector |

## Left out

- Reading the file is not modelled (app/src/parser.py:64-72): the byte decoding, `splitlines` and `readlines`. `ParseFile` takes the lines already read. Lines from `readlines` keep their line feed, and `strip` removes it.
- `json.loads` is a parameter rather than a JSON parser. JSON numbers are integers only; floats are not modelled.
- Parser.FromJson: a JSON `timestamp` or `message` that is not a string is put into the record as it is by the source. The model's records hold text only, so such a line ends as `Failed(NonTextField)` instead.
- Parser.ParseAll: because of that, a batch holding such a line ends as `Failure(NonTextField)` where Python returns every record, the odd one included. `ParseAllSpec` and `ParseFile` state the model's behaviour, so on such input they differ from the source.
- Parser.ParseLine: `json.loads` can raise other exceptions than `JSONDecodeError`, and the source does not catch them. Examples are `RecursionError` on very deep nesting, and `ValueError` on an integer literal over the interpreter's digit limit. Such an exception would end `parse_log_file`. The decoder parameter cannot express it: its result is a value or `None` (`JSONDecodeError`).
- Python's `\d`, `\w`, `upper()` and IGNORECASE cover all of Unicode. The model uses their ASCII parts, so Unicode digits, letters and case equivalents such as `ſ` or `K` (Kelvin sign) are not modelled. The whitespace of `isspace` (for `strip`) is modelled in full, and so is the narrower set that `int()` skips.
- RegexDetector.DetectHighResponseTimes: `list.sort` sorts in place. The model reassigns the sequence to a stable sort function of it, so in-place update and aliasing are not modelled.
- RegexDetector.CapturedIsInt: proves that `int()` of the captured ASCII digits succeeds, so the `except ValueError` of app/src/detector.py:32-33 is not modelled as a branch. From Python 3.11 on, `int()` raises `ValueError` for more than 4300 digits, so the handler does run there and the log is skipped. Both detectors in the model report such a log instead.
- Text.ParseInt: `int()` is modelled for ASCII digits with an optional sign, single underscores between digits, and surrounding whitespace. Non-ASCII digits are not modelled. Neither is the limit of 4300 digits of Python 3.11 and later, past which `int()` raises `ValueError`.
- SplitDetector.DetectHighResponseTimes: the source's `KeyError` on a missing key is modelled as a `Failure` result.
- The dashboard, notifier and command-line front ends are not part of this model. Neither are the report writers.
