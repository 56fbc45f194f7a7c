# Log file analyzer, verified model

A Dafny model of the scanning core of a small log-file analyzer
(`log_analyzer.py`). Given the lines of a log file, the analyzer

- counts the lines that mention `ERROR`, `WARNING` and `INFO` (`count_levels`):
  each line is upper-cased once and each keyword is an independent substring
  test, so one line can bump several counters;
- extracts IPv4-shaped strings with the pattern `\b(?:\d{1,3}\.){3}\d{1,3}\b`,
  tallies them in a `Counter` and reports `most_common(top_n)` (`extract_ips`);
- samples the stripped lines that contain `failed` in any letter case, stopping
  once the sample has reached `limit` (`find_failed_logins`).

Files and modules:

| file | module | what it holds |
|---|---|---|
| `text.dfy` | `AsciiText` | ASCII `upper`, `lower`, `strip` and the substring test `pat in s` |
| `levels.dfy` | `LevelCounter` | `count_levels` as a method with a loop, its counting specification and lemmas |
| `ip_scan.dfy` | `IpScanner` | the address pattern as a declarative relation, a deterministic scanner for it, and `findall` |
| `tally.dfy` | `Tally` | `Counter(items)` as an insertion-ordered table, its stable descending sort and `most_common(n)` |
| `ip_extract.dfy` | `IpExtractor` | `extract_ips` as a method with a loop over the lines |
| `failed_logins.dfy` | `FailedLogins` | `find_failed_logins` as a method with an early `break`, and the corrected variant |
| `cases.dfy` | `Cases`, `LineCases` | worked inputs for the scanner, the tally, the level counter and the failed-login sample |

The three operations are imperative in the source (a loop updating a dict, a
loop extending a list, a loop appending and breaking), so each is a Dafny
`method` with a loop whose invariants tie it to a specification function.
`count_levels` returns its dict as a `map<string, nat>` whose keys are the
three keywords. The regular expression is not modelled as an engine. Instead,
`Matches` states which slices the pattern can match, with every choice the
engine's backtracking could make. `MatchAt` is a scanner that takes each digit
group as the whole digit run at that point. The lemmas prove the two agree,
which shows that the match at a given start is unique. `Counter.most_common(n)`
is `heapq.nlargest(n, items, key=count)`, which Python documents as equal to
`sorted(items, key=count, reverse=True)[:n]`. It is modelled as a stable
insertion sort followed by taking a prefix, and it returns nothing when
`n <= 0`.

Character classes are ASCII. A digit is `0-9`. A word character (for `\b`) is
`A-Z`, `a-z`, `0-9` or `_`. `upper`/`lower` change only ASCII letters. `strip`
removes the ASCII characters Python counts as whitespace: space, `\t`, `\n`,
`\v`, `\f`, `\r` and `\x1c`-`\x1f`.

The docstring of `find_failed_logins` (log_analyzer.py:63) says "Return up to
`limit` lines", but the length check runs only after an append, so a limit of 0
or less still returns the first matching line. The model follows the code (see
Findings).

## Model

| member | source | states |
|---|---|---|
| `LevelCounter.CountMentioning` | log_analyzer.py:35-42 | the value of one keyword's counter after the loop: never more than the number of lines; specified by `LevelCounter.CountIsNumberOfMentioningLines`, `LevelCounter.CountAppend`, `LevelCounter.CountOneMoreLine` |
| `LevelCounter.MentioningIndicesOfLastLine` | log_analyzer.py:35-42 | the last line's index joins the set of mentioning lines exactly when its upper-cased text contains the keyword |
| `LevelCounter.CountOneMoreLine` | log_analyzer.py:35-42 | one more line adds one to a keyword's counter exactly when its upper-cased text contains the keyword, and nothing otherwise |
| `LevelCounter.CountLevels` | log_analyzer.py:31-44 | the result has exactly the keys ERROR, WARNING, INFO, and each maps to the number of lines whose upper-cased text contains that keyword, each keyword tested independently |
| `LevelCounter.CountIsNumberOfMentioningLines` | log_analyzer.py:33-44 | each counter equals the size of the set of indices of lines that mention the keyword, so it lies between 0 and the number of lines and is 0 for no lines |
| `LevelCounter.CountAppend` | log_analyzer.py:35-42 | counting over `a + b` is the count over `a` plus the count over `b`, so appending lines never decreases a counter |
| `AsciiText.Upper` | log_analyzer.py:36 | `line.upper()` has the line's length, contains no lower-case letter, and leaves every character that is not a lower-case letter as it was; what a letter becomes is stated by `AsciiText.UpperMapsLetters` |
| `AsciiText.UpperMapsLetters` | log_analyzer.py:36 | `line.upper()` turns each lower-case letter into the upper-case letter at the same place in the alphabet |
| `AsciiText.Lower` | log_analyzer.py:69 | `line.lower()` has the line's length, contains no upper-case letter, and leaves every character that is not an upper-case letter as it was; what a letter becomes is stated by `AsciiText.LowerMapsLetters` |
| `AsciiText.LowerMapsLetters` | log_analyzer.py:69 | `line.lower()` turns each upper-case letter into the lower-case letter at the same place in the alphabet |
| `AsciiText.Contains` | log_analyzer.py:37 | `kw in upper` (and `"failed" in line.lower()` at line 69) fails when the pattern is longer than the text and holds for the empty pattern; fully specified by `AsciiText.ContainsIff` |
| `AsciiText.ContainsIff` | log_analyzer.py:37 | the substring test `kw in s` holds exactly when `kw` occurs at some index of `s` |
| `AsciiText.LeadingSpace` | log_analyzer.py:70 | the number of leading whitespace characters: all of them are whitespace, and the next one is not |
| `AsciiText.TrailingSpace` | log_analyzer.py:70 | the number of trailing whitespace characters: all of them are whitespace, and the one before is not |
| `AsciiText.Strip` | log_analyzer.py:70 | `line.strip()` is a slice of the line that neither starts nor ends with whitespace, and everything cut off on either side is whitespace |
| `AsciiText.StripIdempotent` | log_analyzer.py:70 | stripping a stripped line changes nothing |
| `IpScanner.DigitRunSpec` | log_analyzer.py:52 | the digit run at a position is all digits and stops at a non-digit or at the end of the line |
| `IpScanner.Matches` | log_analyzer.py:52 | the reference definition of `\b(?:\d{1,3}\.){3}\d{1,3}\b` matching a slice, over every backtracking choice: such a slice lies in the line and is 7 to 15 characters long; related to the scanner by `IpScanner.MatchAtIff` |
| `IpScanner.PatternUsesRuns` | log_analyzer.py:52 | however the pattern matches at a position, each of its four groups is the whole digit run there |
| `IpScanner.MatchAtSound` | log_analyzer.py:52 | whatever the scanner finds at a position is a match of `\b(?:\d{1,3}\.){3}\d{1,3}\b` |
| `IpScanner.MatchAtComplete` | log_analyzer.py:52 | every match of the pattern at a position is found by the scanner, with the same end |
| `IpScanner.MatchAtIff` | log_analyzer.py:52 | the scanner reports a match ending at `e` exactly when the pattern can match from the position to `e` |
| `IpScanner.MatchAt` | log_analyzer.py:52 | a match found at a position spans 7 to 15 characters inside the line, starts with a digit and has no word character before it; specified by `IpScanner.MatchAtSound`, `IpScanner.MatchAtComplete` and `IpScanner.MatchAtIff` |
| `IpScanner.MatchIsUnique` | log_analyzer.py:52 | two matches of the pattern at the same start have the same end |
| `IpScanner.LongRunDoesNotMatch` | log_analyzer.py:52 | a run of four or more digits never starts a match |
| `IpScanner.MatchIsDelimited` | log_analyzer.py:52 | a match has no word character directly before it and none directly after it |
| `IpScanner.MatchIsDottedQuad` | log_analyzer.py:52 | the matched text is four dot-separated groups of 1-3 digits and nothing else |
| `IpScanner.Spans` | log_analyzer.py:56 | every span reported from a position lies inside the line after that position and is 7 to 15 characters long; specified by `IpScanner.SpansMatch`, `IpScanner.SpansInOrder` and `IpScanner.NoMatchOutsideSpans` |
| `IpScanner.FindAll` | log_analyzer.py:56 | `findall` returns one string per reported span, each 7 to 15 characters long; specified by `IpScanner.FoundAreDottedQuads` and the span lemmas |
| `IpScanner.SpansMatch` | log_analyzer.py:56 | every span `findall` reports is a match of the pattern |
| `IpScanner.SpansInOrder` | log_analyzer.py:56 | the spans come left to right and never overlap |
| `IpScanner.NoMatchOutsideSpans` | log_analyzer.py:56 | no match starts at a position outside every reported span, so each span starts at the leftmost match after the previous one |
| `IpScanner.FoundAreDottedQuads` | log_analyzer.py:52-56 | every string `findall` returns is IPv4-shaped, matched by the pattern, and delimited by non-word characters in the line |
| `Tally.Bump` | log_analyzer.py:58 | counting one key grows the Counter by at most one entry; specified by `Tally.BumpExisting` and `Tally.BumpNew` |
| `Tally.Count` | log_analyzer.py:58 | `Counter(items)` has no more entries than items, and at least one for a non-empty list; specified by `Tally.CountSpec` |
| `Tally.BumpExisting` | log_analyzer.py:58 | counting a key already in the Counter adds one to that key's count in place and leaves all other entries alone |
| `Tally.BumpNew` | log_analyzer.py:58 | counting a new key appends it with count 1 at the end of the Counter |
| `Tally.CountSpec` | log_analyzer.py:58 | `Counter(ips)` has one entry per distinct string, whose count is the number of occurrences of that string, with keys in order of first occurrence |
| `Tally.Insert` | log_analyzer.py:58 | inserting an entry lengthens the list by one; specified by `Tally.InsertSorted`, `Tally.InsertPermutes`, `Tally.InsertStable` |
| `Tally.SortByCount` | log_analyzer.py:58 | the sort keeps the number of entries; specified by `Tally.SortSpec` |
| `Tally.MostCommon` | log_analyzer.py:58 | `most_common(n)` is a prefix of the sorted Counter, of at most `n` and at most all entries, and empty for `n <= 0`; specified by `Tally.MostCommonShape`, `Tally.MostCommonLeavesOutSmaller`, `Tally.MostCommonKeepsTieOrder` |
| `Tally.InsertSorted` | log_analyzer.py:58 | inserting into a list ordered by descending count keeps it ordered |
| `Tally.InsertPermutes` | log_analyzer.py:58 | insertion adds the entry and loses nothing |
| `Tally.InsertStable` | log_analyzer.py:58 | insertion puts the new entry before every entry with the same count, which keeps that count's entries in their original order |
| `Tally.SortSpec` | log_analyzer.py:58 | the sort is ordered by descending count, is a permutation, and keeps the entries of each count in their original order |
| `Tally.MostCommonShape` | log_analyzer.py:58 | `most_common(n)` returns `min(n, entries)` pairs (none when `n <= 0`), ordered by non-increasing count, all taken from the Counter |
| `Tally.MostCommonLeavesOutSmaller` | log_analyzer.py:58 | for `n >= 1`, if any entry is left out then exactly `n` pairs were returned, and every entry left out has a count no larger than the last one returned (proved one entry at a time by its helper `LeftOutIsNotLarger`) |
| `Tally.MostCommonKeepsTieOrder` | log_analyzer.py:58 | the returned entries of each count are a prefix of that count's entries in the Counter, that is, ties come in order of first occurrence |
| `IpExtractor.FlattenAppend` | log_analyzer.py:55-56 | extending with the lists of `a + b` gives the lists of `a` followed by those of `b` |
| `IpExtractor.AllMatches` | log_analyzer.py:53-56 | the `ips` list built by extending with each line's `findall`: empty for no lines; specified by `IpExtractor.AllMatchesAppend`, `IpExtractor.AllMatchesOfOneLine`, `IpExtractor.MatchesIgnoreLineOrder`, `IpExtractor.AllMatchesAreDottedQuads` |
| `IpExtractor.AllMatchesAppend` | log_analyzer.py:55-56 | the matches of `a + b` are the matches of `a` followed by those of `b` |
| `IpExtractor.AllMatchesOfOneLine` | log_analyzer.py:56 | for one line, the collected matches are that line's `findall` |
| `IpExtractor.MatchesIgnoreLineOrder` | log_analyzer.py:53-56 | any reordering of the lines (same multiset of lines) gives the same multiset of matches |
| `IpExtractor.TallyIgnoresLineOrder` | log_analyzer.py:53-58 | for any reordering of the lines, the multiset of matches is the same, and every count in the Counter of the reordered lines equals the number of occurrences of its key among the matches of the original lines |
| `IpExtractor.AllMatchesAreDottedQuads` | log_analyzer.py:52-56 | every collected string is IPv4-shaped |
| `IpExtractor.EntryCountIsExact` | log_analyzer.py:58 | a reported pair's count is the exact number of times its string was matched |
| `IpExtractor.ReportOfMatches` | log_analyzer.py:58 | `Counter(ips).most_common(top_n)` has at most `top_n` pairs (none for `top_n <= 0`), some when `top_n >= 1` and `ips` is not empty, none when it is, by non-increasing count, each naming a string of `ips` with its exact number of occurrences |
| `IpExtractor.ExtractIps` | log_analyzer.py:47-58 | the result is `most_common(top_n)` of the matches of all lines, has at most `top_n` pairs (none for `top_n <= 0`), is non-empty when `top_n >= 1` and something matched, is empty when nothing matched, is ordered by non-increasing count, and each count is the exact number of matches of its string |
| `FailedLogins.FailedLines` | log_analyzer.py:68-70 | there are no more stripped matching lines than lines; specified by `FailedLogins.FailedLinesAppend`, `FailedLogins.FailedLinesFromLines`, `FailedLogins.FailedLinesCount` |
| `FailedLogins.FirstFailed` | log_analyzer.py:68-72 | the sample is a prefix of the stripped matching lines of at most `n` entries, and all of them when it is shorter than `n` |
| `FailedLogins.StoppedScanIsFirstFailed` | log_analyzer.py:68-74 | a scan that stopped after some line with a full sample, or reached the end with at most `n` entries, holds exactly the first `n` stripped matching lines (or all of them) |
| `FailedLogins.FailedLinesAppend` | log_analyzer.py:68-70 | the stripped matching lines of `a + b` are those of `a` followed by those of `b` |
| `FailedLogins.FailedLinesFromLines` | log_analyzer.py:69-70 | each sampled entry is the stripped form of a line whose lower-cased text contains "failed", and it does not start with whitespace |
| `FailedLogins.FailedLinesCount` | log_analyzer.py:68-70 | there is one entry per line that contains "failed" in any case |
| `FailedLogins.Bound` | log_analyzer.py:71 | the size at which the post-append check `len(failed_lines) >= limit` stops the scan: at least 1, at least `limit`, and equal to `limit` unless that is 1 or less |
| `FailedLogins.FindFailedLogins` | log_analyzer.py:61-74 | the result is the first `min(max(limit, 1), k)` stripped matching lines in file order, `k` being the number of matching lines; whenever the sample reaches `max(limit, 1)` lines, scanning stopped right after the line that completed it, so no later line was examined, even when it ends exactly at the limit with lines left over; for `limit <= 0` the result is the first matching line or nothing |
| `FailedLogins.ZeroLimitStillSamplesOneLine` | log_analyzer.py:69-72 | with `limit = 0` and the single line "failed", the sample holds one line |
| `FailedLogins.FindFailedLoginsUpToLimit` | log_analyzer.py:61-74 | with the length check made before each line, the result is the first `min(max(limit, 0), k)` stripped matching lines, so it never exceeds the limit |
| `Cases.AddressInText` | log_analyzer.py:52-56 | `findall` on "at 10.0.0.1" gives exactly ["10.0.0.1"] |
| `Cases.TrailingLetterGivesNoMatch` | log_analyzer.py:52-56 | `findall` on "1.2.3.4a" gives nothing |
| `Cases.FourDigitTail` | log_analyzer.py:52-56 | in "1234.5.6.7" nothing matches from the first dot on |
| `Cases.FourDigitGroupGivesNoMatch` | log_analyzer.py:52-56 | `findall` on "1234.5.6.7" gives nothing |
| `Cases.CountKeepsFirstSeenOrder` | log_analyzer.py:58 | `Counter` of c, b, a, b, a is c:1, b:2, a:2 in that order |
| `Cases.TiesKeepFirstSeenOrder` | log_analyzer.py:58 | `most_common(2)` of that Counter is b:2 then a:2: the tie keeps first-seen order and c is cut off |
| `Cases.RepeatedAddressComesFirst` | log_analyzer.py:58 | `most_common(5)` of the Counter of 10.0.0.1, 10.0.0.1, 10.0.0.2 is 10.0.0.1:2 then 10.0.0.2:1 |
| `LineCases.LowerCaseErrorIsCounted` | log_analyzer.py:35-42 | over "disk error" and "ok", one line mentions ERROR: the lower-case keyword is found after upper-casing |
| `LineCases.CapitalFailedLooksFailed` | log_analyzer.py:69 | "a FAILED b " looks failed after lower-casing, and "x" does not |
| `LineCases.StripDropsTrailingBlank` | log_analyzer.py:70 | stripping "a FAILED b " gives "a FAILED b" |
| `LineCases.ZeroLimitTakesFirstStrippedLine` | log_analyzer.py:68-72 | with a limit of 0, the sample of "x", "a FAILED b ", "failed again" is the one stripped line "a FAILED b" |

## Left out

- `read_log_file` (log_analyzer.py:18-28): file I/O, UTF-8 decoding that drops invalid bytes, and the printed diagnostics. The model starts from the list of lines.
- `main` (log_analyzer.py:77-110): reading the path from standard input, the early return on no lines, and the printed report. This is presentation only.
- Unicode: `str.upper`/`str.lower` are modelled on ASCII letters only (so no length-changing case mappings). `str.strip` is modelled on ASCII whitespace only (not `\x85`, `\xa0` and other Unicode spaces). `\d` and `\b` are modelled on ASCII digits and word characters only.
- The internals of the regular-expression engine and of `heapq.nlargest`: only their observable results are modelled, by the declarative `Matches` relation and the stable sort followed by a prefix.
- The default arguments `top_n=5` (log_analyzer.py:47) and `limit=10` (log_analyzer.py:61): `ExtractIps` and `FindFailedLogins` always take both arguments explicitly, as `main`, the only caller that relies on the defaults, is not modelled.
- `most_common(None)`: the source always passes an integer `top_n`.
- `FindFailedLogins`: the "lines after the limit-th match are never examined" promise is stated through the ghost count `examined` (a full sample means the last examined line is the one that completed it), since a method's reads of an immutable sequence cannot otherwise be observed.

## Findings

| source | as written | input that shows it | evidently intended | confidence | as-written member | corrected member |
|---|---|---|---|---|---|---|
| log_analyzer.py:61-74 | the length check `len(failed_lines) >= limit` runs only after an append, so a limit of 0 or less still yields the first matching line | `lines = ["failed"]`, `limit = 0` gives `["failed"]` | "Return up to `limit` lines": never more than `max(limit, 0)` lines, none for a limit of 0 | medium, not executed | `FailedLogins.ZeroLimitStillSamplesOneLine` | `FailedLogins.FindFailedLoginsUpToLimit` |

`FailedLogins.FindFailedLogins` keeps the behaviour as written. `FailedLogins.FindFailedLoginsUpToLimit` is the variant that meets the docstring. The program itself only calls the function with the default limit of 10, where the two agree.
