# Mesa Git History Viewer — data core in Dafny

The viewer (`mesa_viewer.py`) reads two caches kept next to a Mesa mirror.
The history cache has one commit per line, `"<date> | <message> (<hash>)"`.
The summaries cache is one document holding the newest release notes. The
viewer filters the commits by a search query and exports the commits of the
last N months as plain text. This project models the data side of that
program and proves what it promises:

- `VersionKey`: the sort key of a release-note file name (`get_version_key`
  and its copy `version_key`), with the Python list order it is compared by.
- `Calendar`: `compute_cutoff_date`, and `datetime.strptime(s, "%Y-%m-%d")` as
  the export reads dates.
- `HistoryLog`: the per-line parser of the history cache (primary pattern,
  then the `" | "` fallback).
- `StableSort` and `ReleaseNotesCompiler`: `generate_summaries_python`. It
  selects version file names, sorts them newest first with a stable sort,
  keeps fifty and writes the document with a header per release.
- `SummariesParser`: `load_summaries`, the split of the document by the
  header pattern as `re.split` does it, and the dictionary built from the
  parts. `SummariesExample` proves what the parser gives on a document
  with indented headers and rules of different lengths, and on one whose
  header is written in lower case.
- `RoundTrip`: compiling and then parsing gives back the selected versions,
  and their texts when those are regular.
- `HistoryViews`: `filter_history` and `generate_agg_list`, as functions.
- `Viewer`: the application object. Its fields are the history records, the
  summaries dictionary and the release list. Its methods load the caches and
  generate the list, each proved equal to the functions above.
- `PyText`, `PyInt`, `Subsequences` and `Wrappers`: supporting modules.
  - `PyText` and `PyInt` cover the Python string operations and `int()`.
  - `Subsequences` covers order-preserving filtering, the shape of every
    list comprehension with a condition.

The file system, the clock and the git subprocess do not appear in the model.
Instead, their results are parameters:
- the text of a cache, or `None` when the file is missing or unreadable;
- the directory listing;
- a `read` function from a path to the file's text or the error it raised;
- the current date.

## Model

| member | source | states |
|---|---|---|
| VersionKey.ParseSegments | mesa_viewer.py:290-292 | the key list exists exactly when `int()` accepts every dot-separated segment; it then has one number per segment, each the value `int()` gives |
| VersionKey.KeyOfCanonicalName | mesa_viewer.py:286-292 | a name `n1.….nk.rst` written with canonical numerals has the key `[n1, …, nk]` |
| VersionKey.KeyInjectiveOnCanonicalNames | mesa_viewer.py:286-292 | two canonical version names with equal keys are the same name |
| VersionKey.KeyFallback | mesa_viewer.py:293-295 | one segment that `int()` rejects sends the whole name to `[0, 0, 0]` |
| VersionKey.KeyOfEmptyName | mesa_viewer.py:290-295 | the empty name gets the fallback key (`int("")` raises) |
| VersionKey.KeyNonEmpty | mesa_viewer.py:286-295 | every name gets a key, and no key is the empty list |
| VersionKey.KeyLeTotal | mesa_viewer.py:799 | Python's `<=` on integer lists, by which keys are sorted, relates any two keys |
| VersionKey.KeyLeTransitive | mesa_viewer.py:799 | that order is transitive |
| VersionKey.KeyLeAntisymmetric | mesa_viewer.py:799 | that order is antisymmetric, so only equal keys tie |
| VersionKey.ProperPrefixIsLess | mesa_viewer.py:799 | a proper prefix sorts first, so 22.1 is older than 22.1.0 |
| PyInt.ParseIntToString | mesa_viewer.py:963 | `int(str(i)) == i` for every integer, negative ones included |
| PyInt.ParseIntRejectsForeign | mesa_viewer.py:962-966 | a months text holding any character other than digits, signs, `_` and surrounding whitespace is an input error |
| PyInt.ParseIntEmpty | mesa_viewer.py:962-966 | an empty months field is an input error |
| PyInt.NatToString | mesa_viewer.py:970 | `str(n)` is a canonical numeral (no leading zero) whose value is `n` |
| PyText.StripByFacts | mesa_viewer.py:834 | `strip()` leaves the middle of the text between a leading and a trailing whitespace run, starting and ending with non-whitespace |
| PyText.Find | mesa_viewer.py:847 | the index of the first `" \| "`, or -1 when there is none |
| PyText.Contains | mesa_viewer.py:937 | `q in s` holds exactly when `q` occurs at some index of `s` |
| PyText.LowerNoUpper | mesa_viewer.py:929 | `lower()` leaves no upper-case ASCII letter |
| PyText.LowerOfLowercase | mesa_viewer.py:929 | a text without upper-case ASCII letters is its own lower case, so a lower-case query is searched as written |
| PyText.LowerIdempotent | mesa_viewer.py:929 | `s.lower().lower() == s.lower()` |
| PyText.LowerConcat | mesa_viewer.py:929 | `(a + b).lower() == a.lower() + b.lower()`, so lowering a text lowers each of its slices |
| PyText.JoinSplit | mesa_viewer.py:290 | `'.'.join(s.split('.')) == s` |
| PyText.SplitJoin | mesa_viewer.py:290 | splitting a join of pieces without `'.'` gives the pieces back |
| PyText.RepeatAdd | mesa_viewer.py:970 | `c * (m + n) == c * m + c * n` |
| Calendar.ComputeCutoff | mesa_viewer.py:895-911 | a valid date `months` calendar months before `now`; day `min(now.day, 28)`; never after `now` for months ≥ 0, after `now` for negative months |
| Calendar.CutoffValid | mesa_viewer.py:909-911 | the cutoff is a date the calendar has: its day, at most 28, exists in every month |
| Calendar.CutoffYearMonth | mesa_viewer.py:899-907 | the cutoff's year and month are the floor quotient and remainder of its month index by 12 |
| Calendar.CutoffOneMonth | tests/test_mesa_viewer.py:425-428 | one month back from 2024-03-31 is 2024-02-28: the day is clamped |
| Calendar.CutoffThreeMonths | tests/test_mesa_viewer.py:430-431 | three months back from 2024-03-31 is 2023-12-28, across the year boundary |
| Calendar.CutoffTwelveMonths | mesa_viewer.py:899-911 | twelve months back from 2024-03-31 is 2023-03-28: one year back, same month |
| Calendar.ParseDate | mesa_viewer.py:974 | `strptime` accepts only dates the calendar has |
| Calendar.ParseFormatDate | mesa_viewer.py:974 | every valid date written as `YYYY-MM-DD` is read back as that date |
| Calendar.ParseDateShortForms | mesa_viewer.py:974 | one-digit months and days and a space-padded day are accepted |
| Calendar.ParseDateLeapDay | mesa_viewer.py:974 | February 29 is accepted in a leap year and refused otherwise |
| Calendar.ParseDateRejects | mesa_viewer.py:974 | year 0, month 13 and trailing characters are refused |
| HistoryLog.MatchPrimary | mesa_viewer.py:839-845 | a record from the primary pattern has the date shape and a hex hash, and written back it is the line |
| HistoryLog.MatchPrimaryRender | mesa_viewer.py:839-845 | every such record written as a line is matched back exactly, even when its message holds parentheses or `" \| "` |
| HistoryLog.SplitFallback | mesa_viewer.py:847-849 | the fallback splits at the first `" \| "` and gives the hash `"?"`; it yields nothing exactly when the line has no `" \| "` |
| HistoryLog.ParseLineFields | mesa_viewer.py:834-849 | a line yields nothing exactly when it is blank, or misses the pattern and has no `" \| "`; otherwise the fields rebuild the stripped line |
| HistoryLog.ParseLinesAppend | mesa_viewer.py:832-854 | lines are parsed independently and their records kept in line order |
| HistoryLog.ParseLinesLength | mesa_viewer.py:832-854 | at most one record per line |
| HistoryLog.ParseLinesTrace | mesa_viewer.py:832-854 | each record comes from its own line, at increasing line positions, and every other line yields nothing |
| HistoryLog.ParseHistoryOfLog | mesa_viewer.py:826-854 | a cache written from well-shaped records whose messages have no line break is read back as exactly those records |
| HistoryLog.ParseLineRender | mesa_viewer.py:834-845 | a written well-shaped record is parsed back |
| HistoryLog.ParseHistoryEmpty | tests/test_mesa_viewer.py:120-138 | an empty cache gives no records |
| HistoryLog.ParseMalformedLine | tests/test_mesa_viewer.py:144-179 | "This line is malformed" gives no record |
| HistoryLog.ParseMalformedLineSkipped | tests/test_mesa_viewer.py:144-179 | a line without a record between two valid lines leaves exactly the two records, in order |
| HistoryLog.ParseFallbackShape | tests/test_mesa_viewer.py:85-114 | `"<date> \| <message>"` without a hash gives that date, that message and `"?"` |
| StableSort.SortByKeyDesc | mesa_viewer.py:799 | the sort is a permutation of the file list |
| StableSort.SortByKeyDescSorted | mesa_viewer.py:799 | the keys are non-increasing after the sort |
| StableSort.SortByKeyDescStable | mesa_viewer.py:799 | names with equal keys keep their listing order |
| ReleaseNotesCompiler.VersionOfFileName | mesa_viewer.py:807 | the version of a selected name is its stem of digits and dots, and the name is that version plus ".rst" |
| ReleaseNotesCompiler.VersionInjective | mesa_viewer.py:807 | distinct selected names have distinct versions |
| ReleaseNotesCompiler.SelectSize | mesa_viewer.py:800 | at most fifty names are selected, and all of them when there are at most fifty |
| ReleaseNotesCompiler.SelectFromListing | mesa_viewer.py:784-800 | every selected name is in the listing and matches the version-name pattern |
| ReleaseNotesCompiler.SelectNewest | mesa_viewer.py:799-800 | the selection is newest first and no candidate left out is newer than a selected name |
| ReleaseNotesCompiler.SelectStable | mesa_viewer.py:799-800 | names with equal keys are the first ones of that key in listing order |
| ReleaseNotesCompiler.SelectDistinct | mesa_viewer.py:784-800 | a listing without repeated names gives a selection without them |
| ReleaseNotesCompiler.DocumentSnoc | mesa_viewer.py:806-817 | each name appends its header and its text, or the error text, after the blocks before it |
| ReleaseNotesCompiler.VersionFiles | mesa_viewer.py:784-786 | the listing loop keeps exactly the version file names, in listing order |
| ReleaseNotesCompiler.WriteReleases | mesa_viewer.py:803-817 | the writing loop produces the title, then one header and one text per name, in order |
| ReleaseNotesCompiler.CompileSummaries | mesa_viewer.py:773-821 | nothing is written when the directory is missing or cannot be listed; otherwise the document of the selected names |
| SummariesParser.MatchAt | mesa_viewer.py:877-880 | a header match starts at a line start, ends just after a line break and captures a non-empty version |
| SummariesParser.NextHeaderIs | mesa_viewer.py:881 | `re.split` splits at the leftmost match: a match with none before it is the one found |
| SummariesParser.NextHeaderLeftmost | mesa_viewer.py:881 | no position before the header found matches |
| SummariesParser.SplitFromLength | mesa_viewer.py:881 | the split has one more text part than it has captured versions |
| SummariesParser.PairsMapKeys | mesa_viewer.py:883-886 | after each round the keys are the stripped versions of the rounds so far |
| SummariesParser.PairsMapLaterWins | mesa_viewer.py:883-886 | a key maps to the text after its last header so far |
| SummariesParser.SummariesKeys | mesa_viewer.py:881-886 | the keys are exactly the stripped captured versions |
| SummariesParser.SummariesLaterWins | mesa_viewer.py:886 | a later duplicate version wins |
| SummariesParser.ListedVersionsKeys | mesa_viewer.py:883-888 | the release list names exactly the keys of the dictionary |
| SummariesParser.NoHeaderNoSummaries | mesa_viewer.py:882 | a text without a header gives an empty dictionary |
| SummariesParser.NoReleaseNoSummaries | mesa_viewer.py:877-886 | a text with no "RELEASE:", in any case, gives an empty dictionary |
| SummariesExample.TolerantSplit | mesa_viewer.py:881 | on a text with indented headers and rules of 4 and 11 '=', the split is the empty prefix, "1.2", its text, "2.0", its text |
| SummariesExample.TolerantSummaries | tests/test_mesa_viewer.py:453-465 | that text gives exactly the keys 1.2 and 2.0, each with the text after its header |
| SummariesExample.LowercaseSplit | mesa_viewer.py:877-881 | a header written "release: 1.0" in lower case is matched, since the pattern ignores case: the split is the empty prefix, "1.0", the text after the header |
| SummariesExample.LowercaseSummaries | mesa_viewer.py:877-888 | that text gives exactly the key 1.0 with the text after its header |
| RoundTrip.ReleaseLineVersion | mesa_viewer.py:808 | the release line of a written header is read back as the version written |
| RoundTrip.SplitBlocks | mesa_viewer.py:881 | splitting written blocks gives each version at an odd index and, for exact texts, each text after it |
| RoundTrip.DocumentSplit | mesa_viewer.py:881 | splitting a written document gives one version per name, in order, and each exact text right after its version |
| RoundTrip.DocumentKeys | mesa_viewer.py:804-813 | parsing a written document gives exactly the written versions as keys when no text holds "RELEASE:" |
| RoundTrip.DocumentBodies | mesa_viewer.py:808-813 | and gives each exact text under its version |
| RoundTrip.CompiledVersionsParsed | mesa_viewer.py:799-813 | compile then parse: the keys are exactly the versions of the selected files, error texts included |
| RoundTrip.CompiledBodiesParsed | mesa_viewer.py:806-813 | compile then parse: each selected file's exact text is read back under its version |
| HistoryViews.FilterMembers | mesa_viewer.py:929-938 | a record is shown exactly when the query is empty or occurs, ignoring case, in its hash or its message |
| HistoryViews.FilterOrder | mesa_viewer.py:934-938 | shown records keep history order, and every record left out misses a non-empty query |
| HistoryViews.FilterIgnoresDate | mesa_viewer.py:937 | the date is never searched |
| HistoryViews.FilterFeatureExample | tests/test_mesa_viewer.py:185-221 | "feature" keeps the two records mentioning it, in order, and drops the third |
| HistoryViews.AggList | mesa_viewer.py:959-989 | an input error exactly when `int()` rejects the months; a list exactly when the cutoff is a representable date; the count is the lines after the two header lines |
| HistoryViews.AggListShape | mesa_viewer.py:970-976 | the list is the title line, 60 dashes, then `"date \| message (hash)"` for each listed record |
| HistoryViews.RecentTrace | mesa_viewer.py:972-978 | exactly the records whose date parses and is not before the cutoff are listed, in history order |
| HistoryViews.RecentStep | mesa_viewer.py:972-976 | one more record adds its line exactly when it is listed |
| HistoryViews.UnreadableDateSkipped | mesa_viewer.py:977-978 | a record whose date `strptime` refuses is never listed |
| HistoryViews.RecentAppend | mesa_viewer.py:972-978 | listing more history adds lines after the ones already there |
| Viewer.App.constructor | mesa_viewer.py:329-330 | the application starts with no records and no summaries |
| Viewer.App.LoadHistory | mesa_viewer.py:826-854 | the loop leaves the records the parser gives for the cache text, or none when there is no cache |
| Viewer.App.LoadSummaries | mesa_viewer.py:865-892 | the loop leaves the dictionary the parser gives, and the release list of the versions inserted, or both empty when there is no cache |
| Viewer.App.AddPairs | mesa_viewer.py:882-888 | the loop over the split leaves the dictionary and the release list of that split |
| Viewer.App.LoadData | mesa_viewer.py:823-859 | both caches are loaded |
| Viewer.App.ListSince | mesa_viewer.py:968-976 | the loop's output is the two header lines then one line per listed record, and its count is the number of lines after the header |
| Viewer.App.GenerateAggList | mesa_viewer.py:959-989 | the loop's lines and count are those of `AggList` on the loaded history |

## Left out

- The Tk interface is not modelled: windows, tree view, text widgets, message boxes, the status bar and the clipboard.
- `update_tree` is not modelled, including its cap of 5000 rows: the filter's result is modelled, not how it is shown.
- `on_release_select` is not modelled: it only looks a version up in the dictionary.
- The git subprocess, the download and refresh threads, the diagnostics and remediation helpers, and logging are not modelled. None of them changes the parsed data.
- The file system is not modelled. Cache texts, the directory listing and file reads are parameters, as is the clock (`datetime.now`).
- Failures while writing the summaries file are not modelled. When `open(..., "w")` fails (mesa_viewer.py:803), nothing is written and the old file stays; when a later `write` fails (mesa_viewer.py:804-816), a truncated file is left. Both are only logged (mesa_viewer.py:818-819). `ReleaseNotesCompiler.CompileSummaries` returns `Some` of the whole document in both cases.
- A cache text is taken after decoding (`errors="replace"`) and after universal-newline translation. Only `'\n'` separates lines in the model.
- Digits are ASCII only. `int()`, the `\d` of every regular expression and `strptime` also accept other Unicode decimal digits.
- `PyText.Lower`: ASCII case mapping only. Python's `lower()` also maps non-ASCII letters, and some of them to two characters.
- `PyInt.ParseInt` does not model the 4300-digit limit beyond which `int()` on a string raises.
- `Calendar.ComputeCutoff` requires the target year to lie in 1..9999. Outside that range `datetime()` raises, `generate_agg_list` reports a generation error, and `HistoryViews.AggList` models that as `Err(GenerationError)`.
- `StableSort.SortByKeyDesc`: Python's library sort is modelled by its result, a stable sort by non-increasing key, through a stable insertion sort. Timsort's steps are not modelled.
- `RoundTrip.CompiledBodiesParsed`: stated only for texts that start with a non-space character and end with one line break after a non-space character. The header pattern's `\s*` takes leading whitespace from any other text, and the line breaks before the next header.
- `RoundTrip.CompiledVersionsParsed`: stated only when no selected text, and no error text, holds "RELEASE:" in any case. Such a text can split the document at a header of its own.
- `VersionKey.KeyInjectiveOnCanonicalNames`: stated only for canonical numerals. Keys are not injective on all names: "01.2.rst" and "1.2.rst" share a key.
- Per-line exceptions in the history loop are not modelled, nor are the outer exception handlers of `load_data`, `load_summaries` and `filter_history`: the modelled parts of those operations raise nothing that those handlers catch. The outer handler of `generate_agg_list` (mesa_viewer.py:987-989) is modelled: it catches the error `datetime()` raises for a cutoff year outside 1..9999, which `HistoryViews.AggList` returns as `Err(GenerationError)`.
- `Viewer.App.GenerateAggList` returns the lines and the count rather than inserting the joined text into the widget and logging the count.
