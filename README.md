# Journal Club Assistant — a verified model of its text pipeline

Journal Club Assistant scans academic journals through the CrossRef REST API
for recently published papers. It keeps the papers whose title or abstract
mentions one of the configured keywords. The user can review the matches one
by one, and the result is saved as a Markdown report or a CSV file.

This project models the logic between the network and the terminal, one Dafny
module per source file:

- `Summarizer` (`src/summarizer.py`): tag stripping, whitespace collapsing and
  the one-sentence summary.
- `Crossref` (`src/crossref_client.py`): the `Paper` record, the
  normalisation of one CrossRef work item, and the cursor-paging loop. The
  HTTP exchange is replaced by a sequence of responses.
- `Filter` (`src/filter.py`): case-insensitive keyword matching.
- `Formatter` (`src/formatter.py`): the Markdown report lines and the CSV rows.
- `Configuration` (`src/config.py`): validation and normalisation of the
  parsed YAML document.
- `Cli` (`src/main.py`): the keep/skip/quit review, the choice of output file
  and format, and the steps and early exits of `main`.
- `Strings`, `Seqs` and `Wrappers` are helpers:
  - `Strings`: Python's whitespace set, ASCII lower-casing, `strip`, `join`,
    `split` and decimal digits;
  - `Seqs`: order-preserving subsequences;
  - `Wrappers`: `Option` and `Result`.

Loops in the source are methods with loop invariants, each proved equal to a
specification function. The properties are proved about those functions.

## Model

| member | source | states |
|---|---|---|
| `Strings.Lower` | src/filter.py:34-38 | `str.lower()` keeps the length, leaves no ASCII capital, turns each capital into its small letter in place and keeps every other character |
| `Strings.LowerIdempotent` | src/filter.py:34-38 | lower-casing an already lower-cased text changes nothing |
| `Strings.LowerNoCapitals` | src/filter.py:34-38 | a text without capitals is its own lower case |
| `Strings.Trim` | src/summarizer.py:13 | `strip()` leaves no whitespace at either end and never lengthens the text |
| `Strings.TrimEmpty` | src/summarizer.py:26 | a text strips to empty exactly when every character is whitespace |
| `Strings.TrimIsSlice` | src/summarizer.py:13 | the stripped text is a contiguous slice of the original |
| `Strings.TrimKeeps` | src/config.py:56 | a text without surrounding whitespace is left unchanged by `strip()` |
| `Strings.NonSpaceTrim` | src/summarizer.py:13 | `strip()` removes whitespace and nothing else |
| `Strings.IsSubstringIff` | src/filter.py:42 | the `in` test on strings holds exactly when the needle occurs at some position |
| `Strings.SplitJoin` | src/formatter.py:131 | splitting a joined list on a separator no part contains gives the list back |
| `Strings.NatToString` | src/formatter.py:105 | `str(n)` is non-empty and all decimal digits |
| `Strings.ParseNatToString` | src/crossref_client.py:132 | reading back the decimal text of `n` gives `n` |
| `Strings.ParseNatLeadingZero` | src/crossref_client.py:128 | a leading zero, as added by `:02d`, does not change the value read |
| `Summarizer.TagLength` | src/summarizer.py:11 | finds the `<…>` tag at the start of the text, up to its first `>`, or reports that none starts there |
| `Summarizer.ReplaceTagsTagFree` | src/summarizer.py:11 | after replacing every `<[^>]+>` match, no tag is left |
| `Summarizer.ReplaceTagsIdentity` | src/summarizer.py:11 | a tag-free text is unchanged by tag replacement |
| `Summarizer.ReplaceTagsPlainPrefix` | src/summarizer.py:11 | text without `<` passes through tag replacement unchanged, whatever follows |
| `Summarizer.ReplaceTagsLeadingTag` | src/summarizer.py:11 | a tag at the front becomes the replacement, and matching resumes after its `>` |
| `Summarizer.ReplaceTagsSplit` | src/summarizer.py:11 | in `x + tag + y` with no `<` in `x`, `x` is kept, the tag becomes the replacement, and `y` is processed after it |
| `Summarizer.ReplaceTagsWrapped` | src/summarizer.py:11 | a tag-free text between two tags comes out between two replacements |
| `Summarizer.CollapseSpaces` | src/summarizer.py:13 | collapsing whitespace runs never lengthens the text and maps a leading whitespace character to one space; its content is pinned by the lemmas below |
| `Summarizer.CollapseSpacesCollapses` | src/summarizer.py:13 | the collapsed text has no two whitespace characters in a row, and each one left is a space |
| `Summarizer.CollapseSpacesTagFree` | src/summarizer.py:11-13 | collapsing whitespace does not create a tag |
| `Summarizer.CollapseSpacesIdentity` | src/summarizer.py:13 | an already collapsed text is unchanged |
| `Summarizer.CollapseSpacesKeepsText` | src/summarizer.py:13 | with all whitespace removed, the collapsed text reads the same as the original |
| `Summarizer.CollapseSpacesRun` | src/summarizer.py:13 | a whitespace run on its own becomes exactly one space |
| `Summarizer.CollapseSpacesAppend` | src/summarizer.py:13 | collapsing works piece by piece across a cut that does not fall inside a whitespace run |
| `Summarizer.StripHtml` | src/summarizer.py:6-14 | empty input gives `""`; the output has no whitespace at either end; its content is pinned by the lemmas below |
| `Summarizer.StripHtmlTagFree` | src/summarizer.py:11 | `strip_html` output contains no `<…>` tag |
| `Summarizer.StripHtmlNormalized` | src/summarizer.py:13 | `strip_html` output has single spaces only and no whitespace at the ends |
| `Summarizer.StripHtmlIdempotent` | src/summarizer.py:6-14 | stripping twice gives the same as stripping once |
| `Summarizer.StripHtmlKeepsText` | src/summarizer.py:11-13 | with all whitespace removed, the output reads as the input with every tag replaced by a space |
| `Summarizer.StripHtmlWrapped` | src/summarizer.py:6-14 | a clean text wrapped in an opening and a closing tag comes out as the text itself |
| `Summarizer.FindBreak` | src/summarizer.py:38 | finds the first sentence break: terminator, whitespace, then an ASCII capital |
| `Summarizer.SummaryOf` | src/summarizer.py:38-50 | the summary of a cleaned text is non-empty, at most 300 characters, and ends in `.`, `!` or `?` |
| `Summarizer.ExtractSummary` | src/summarizer.py:17-50 | every summary is non-empty, at most 300 characters, and ends in terminating punctuation |
| `Summarizer.SummaryShape` | src/summarizer.py:42-48 | adding `.` and capping at 297 characters plus `...` yields that shape |
| `Summarizer.FirstSentenceNonEmpty` | src/summarizer.py:38-40 | a cleaned non-empty text has a non-empty first sentence |
| `Summarizer.BlankStripsToEmpty` | src/summarizer.py:26-32 | a whitespace-only abstract also cleans to empty, so the two fallback tests agree |
| `Summarizer.SummaryFallback` | src/summarizer.py:26-32 | an abstract that cleans to nothing gives "No abstract available." |
| `Summarizer.SummaryOfFirstSentence` | src/summarizer.py:38-48 | the summary is the text up to the first break, terminated and capped |
| `Summarizer.SummaryOfCleaned` | src/summarizer.py:29-50 | otherwise the summary is computed from the cleaned abstract |
| `Summarizer.BreakInCleanText` | src/summarizer.py:38 | in cleaned text a break is a terminator, one space, then an upper-case letter |
| `Crossref.FindDateParts` | src/crossref_client.py:119-124 | the date scan leaves at the first of the fields the record has, and finds nothing when it has none |
| `Crossref.CollectAuthors` | src/crossref_client.py:143-150 | the author loop appends each author's name in order, skipping authors without a family name |
| `Crossref.ParseItem` | src/crossref_client.py:100-160 | `_parse_item`, with its date-field scan and author loop, computes `ParsedItem` |
| `Crossref.RejectedIffNoTitle` | src/crossref_client.py:103-106 | an item is rejected exactly when its title list is empty or its first title is empty |
| `Crossref.CleanTitleIsClean` | src/crossref_client.py:108-109 | the stored title contains no tag, has no whitespace run and is trimmed |
| `Crossref.TagOnlyTitle` | src/crossref_client.py:103-109 | a title made of one tag is accepted and becomes the empty title |
| `Crossref.TitleTagDeleted` | src/crossref_client.py:109 | a tag in a title is deleted, not replaced by a space: the cleaned title is the same as without the tag |
| `Crossref.TitleWrapped` | src/crossref_client.py:108-109 | a clean title wrapped in markup, such as `<i>…</i>`, comes out as the title itself |
| `Crossref.UrlFromDoi` | src/crossref_client.py:112-113 | with a DOI the URL is `https://doi.org/` followed by the DOI; otherwise it is the item's `URL` |
| `Crossref.FirstPresentDateFieldDecides` | src/crossref_client.py:119-125 | the first present date field is used, and empty date parts there give `""` even if a later field has data |
| `Crossref.NoDateField` | src/crossref_client.py:119-125 | without any date field the date is `""` |
| `Crossref.Pad2Parses` | src/crossref_client.py:128-130 | a `:02d` field below 100 is exactly two digits, with a leading `0` below 10; from 10 up it is `str(n)`; it contains no `-` and reads back as its number |
| `Crossref.Pad2Digits` | src/crossref_client.py:128-130 | below 100, `:02d` writes the tens digit then the units digit |
| `Crossref.YearPiece` | src/crossref_client.py:128-132 | the year field contains no `-` and reads back as the year |
| `Crossref.ParseDateStringOf` | src/crossref_client.py:128-132 | splitting the date text on `-` recovers its numeric pieces |
| `Crossref.RoundTripYear` | src/crossref_client.py:131-132 | `[y]` formats as `y`, which reads back as `[y]` |
| `Crossref.RoundTripMonth` | src/crossref_client.py:129-130 | `[y, m]` formats as `y-MM`, which reads back as `[y, m]` |
| `Crossref.RoundTripDay` | src/crossref_client.py:127-128 | `[y, m, d, …]` formats as `y-MM-DD`, which reads back as `[y, m, d]` |
| `Crossref.FormatDateRoundTrip` | src/crossref_client.py:125-132 | the formatted date keeps exactly the first three (or fewer) date parts |
| `Crossref.DatePieces` | src/crossref_client.py:125-132 | split on `-`, the date is `str` of the year, then the month and day as `:02d` fields, each two characters long below 100 |
| `Crossref.YearPieces` | src/crossref_client.py:131-132 | a year alone splits into one piece, the year |
| `Crossref.MonthPieces` | src/crossref_client.py:129-130 | year and month split into the year and the padded month |
| `Crossref.DayPieces` | src/crossref_client.py:127-128 | year, month and day split into the year, the padded month and the padded day |
| `Crossref.FormatDateExampleDay` | src/crossref_client.py:127-128 | `[2024, 3, 15]` is written `2024-03-15` |
| `Crossref.FormatDateExampleMonth` | src/crossref_client.py:129-130 | `[2024, 11]` is written `2024-11` |
| `Crossref.FormatDateExampleYear` | src/crossref_client.py:131-132 | `[2024]` is written `2024` |
| `Crossref.JournalFallback` | src/crossref_client.py:135-140 | the journal is the first container title when there is one and it is non-empty, and the fallback name otherwise; it is non-empty when the fallback is |
| `Crossref.AuthorNamesAppend` | src/crossref_client.py:143-150 | authors are handled one at a time, in input order |
| `Crossref.AuthorNamesSingle` | src/crossref_client.py:145-150 | one author gives `"given family"`, or `family` alone, or nothing when the family name is empty |
| `Crossref.AuthorNamesShape` | src/crossref_client.py:143-150 | no author name is empty, and there are at most as many names as authors |
| `Crossref.ParsePage` | src/crossref_client.py:87-90 | the items of a page are parsed in order, and rejected items are skipped |
| `Crossref.CursorsFollowSent` | src/crossref_client.py:67-96 | the first request sends cursor `*`, and each later one sends the previous page's next cursor |
| `Crossref.FetchPage` | src/crossref_client.py:73-95 | one request: a failure or an empty page ends the loop with the papers so far; a page is parsed and appended, and the loop goes on only past a full page with a next cursor |
| `Crossref.FetchRecentPapers` | src/crossref_client.py:41-98 | the paging loop returns `Fetched`; the cursors sent are `*` and then each page's next cursor; it sends one request per pass until a failure, an empty page, a missing cursor, a short page or `max_results` papers in hand (`Requests`), none when `max_results` is not positive, and a new one only after a full page with a next cursor |
| `Crossref.FetchedBound` | src/crossref_client.py:72-98 | at most `max_results` papers are returned, and none when it is not positive |
| `Crossref.CollectIgnoresAfterEnd` | src/crossref_client.py:84-95 | responses after one that ends the loop do not affect the result |
| `Crossref.RequestsEndAt` | src/crossref_client.py:71-96 | from any request on, no more requests are sent than responses up to and including the one that ends the loop |
| `Crossref.NeverRequestedAfterEnd` | src/crossref_client.py:71-96 | a response after one that ends the loop is never requested |
| `Crossref.StopsAtEndingResponse` | src/crossref_client.py:84-95 | an empty page, an empty cursor or a short page ends the fetch |
| `Crossref.CollectKeepsBeforeError` | src/crossref_client.py:73-78 | a request error stops the loop |
| `Crossref.FetchErrorKeepsEarlierPapers` | src/crossref_client.py:73-98 | papers parsed before a request error are kept |
| `Crossref.CollectIsPrefix` | src/crossref_client.py:70-98 | the loop's result is a prefix of all parsed pages, after what it already had |
| `Crossref.FetchedIsPrefixOfAllPages` | src/crossref_client.py:70-98 | the result is a prefix of the papers of all responses, in order |
| `Crossref.ParsedAllTitled` | src/crossref_client.py:87-90 | a page whose items all have titles yields one paper per item |
| `Crossref.FetchThirdPage` | src/crossref_client.py:64-98 | after two full pages of 100 under a limit of 250, a third request is sent and its parsed papers are appended, the whole cut at 250 |
| `Crossref.FetchTwoFullPages` | src/crossref_client.py:64-98 | two full pages of 100 under a limit of 250, then an empty page, return the papers of both pages |
| `Crossref.TwoFullPagesThenEmpty` | src/crossref_client.py:64-98 | in that case the fetch returns 200 papers |
| `Filter.FilterPapers` | src/filter.py:16-48 | `filter_papers`, with its nested loops, computes `FilterSpec` |
| `Filter.MatchedIff` | src/filter.py:37-43 | a keyword is reported exactly when it is configured and its lower-case form occurs in the lower-case title or stripped abstract |
| `Filter.MatchedInOrder` | src/filter.py:41-43 | matched keywords keep their configured order |
| `Filter.MatchedMultiplicity` | src/filter.py:41-43 | a matched keyword appears as often as it is configured |
| `Filter.MatchedNonEmptyIff` | src/filter.py:40-46 | a paper has matches exactly when some keyword hits it |
| `Filter.NoKeywordsPassesAll` | src/filter.py:29-31 | with no keywords every paper is returned, in order, with no matched keywords |
| `Filter.KeepEntries` | src/filter.py:45-46 | every result carries its own non-empty match list |
| `Filter.KeepInOrder` | src/filter.py:36-46 | the kept papers are an order-preserving selection of the input |
| `Filter.KeepMultiplicity` | src/filter.py:36-46 | a paper is kept as many times as it occurs, or not at all |
| `Filter.FilteredEntries` | src/filter.py:37-46 | each result's keywords are exactly that paper's matches, and there is at least one |
| `Filter.FilteredInOrder` | src/filter.py:36-48 | the results keep the input order |
| `Filter.FilteredMultiplicity` | src/filter.py:36-48 | a matching paper occurs in the results as often as in the input, and a non-matching one not at all |
| `Filter.KeptIffSomeKeywordHits` | src/filter.py:16-48 | with keywords, an input paper is returned exactly when some keyword hits it |
| `Formatter.UnescapeEscape` | src/formatter.py:120-122 | pipe escaping loses nothing: reading each backslash-pipe back as a pipe restores the text |
| `Formatter.EscapeEscapesAll` | src/formatter.py:120-122 | every pipe in an escaped cell is preceded by a backslash |
| `Formatter.EscapeNoPipe` | src/formatter.py:120-122 | text without a pipe is unchanged by escaping |
| `Formatter.EscapeFirst` | src/formatter.py:120-122 | escaping keeps emptiness and turns a leading pipe into a backslash |
| `Formatter.ExportMarkdown` | src/formatter.py:86-132 | `export_markdown` builds the title, count line, table or empty message, and trailing blank line, joined by newlines |
| `Formatter.EmptyReport` | src/formatter.py:102-109 | an empty list gives "No papers matched your keywords." and no table header |
| `Formatter.ReportTable` | src/formatter.py:108-129 | otherwise there is a header, a rule and one row per paper in order, and no empty message |
| `Formatter.RowEndsWithPipe` | src/formatter.py:125-127 | each table row ends with a pipe |
| `Formatter.RowTextStart` | src/formatter.py:126 | a row starts with a pipe and a space, the first cell, and a space |
| `Formatter.RowNumber` | src/formatter.py:114-126 | row `i` begins with a pipe and a space, then the number `i` in decimal |
| `Formatter.MarkdownText` | src/formatter.py:129-131 | the text ends with a newline, and splitting it on newlines gives back the lines |
| `Formatter.JoinEndsWithEmpty` | src/formatter.py:129-131 | joining lines whose last one is empty ends with the separator |
| `Formatter.JoinSnoc` | src/formatter.py:131 | `join` of a list is the join of all but the last part, the separator, and the last part |
| `Formatter.CountBareAppend` | src/formatter.py:126 | unescaped pipes of a concatenation add up |
| `Formatter.CountBareEscaped` | src/formatter.py:120-122 | an escaped cell has no unescaped pipe |
| `Formatter.EscapedCellIsQuiet` | src/formatter.py:120-122 | an escaped cell cannot split a table cell |
| `Formatter.PipeFreeCellIsQuiet` | src/formatter.py:117-124 | a cell with no pipe cannot split a table cell |
| `Formatter.CountBareJoin` | src/formatter.py:126 | cells joined by the pipe separator contribute one pipe per gap |
| `Formatter.RowTextSeparators` | src/formatter.py:126 | a row of quiet cells has exactly one more unescaped pipe than it has cells |
| `Formatter.RowHasSixCells` | src/formatter.py:117-127 | with pipe-free keywords and URL, a row has exactly 7 unescaped pipes, so 6 cells |
| `Formatter.JoinAvoids` | src/formatter.py:117 | joining never introduces a character absent from the parts and the separator |
| `Formatter.ExportCsv` | src/formatter.py:135-170 | `export_csv` writes the 7-column header, then one row per paper in order |
| `Formatter.CsvRowShape` | src/formatter.py:156-168 | a row has one field per header column, and its summary field has the summary shape |
| `Formatter.JoinEmpty` | src/formatter.py:157-158 | a `", "`-join is empty exactly for an empty list or a single empty string |
| `Formatter.KeywordsFields` | src/formatter.py:117-157 | an empty keyword list gives `""` in CSV and an em dash in Markdown |
| `Configuration.FromYaml` | src/config.py:27-58 | `from_yaml`, with its journal loop and early raises, computes `Load` |
| `Configuration.FirstIncompleteNone` | src/config.py:42-44 | no entry is reported incomplete exactly when every entry has `name` and `issn` |
| `Configuration.FirstIncompleteAt` | src/config.py:42-44 | the entry reported is the first one lacking `name` or `issn` |
| `Configuration.LoadSucceedsIff` | src/config.py:31-52 | loading succeeds exactly when: the file exists, the document is non-empty, every entry is complete, there is a journal, and the raw keyword list is non-empty |
| `Configuration.MissingFieldFirst` | src/config.py:42-44 | an incomplete entry raises before the journal and keyword checks, naming the first such entry |
| `Configuration.LoadedConfig` | src/config.py:41-58 | journals keep their order, names and ISSNs; `search_days` defaults to 30 and `email` to `""` |
| `Configuration.BlankKeywordsPass` | src/config.py:50-56 | whitespace-only keywords pass the emptiness check and leave an empty keyword list |
| `Configuration.NormalizeKeywordsAppend` | src/config.py:56 | keywords are normalised one at a time and in order: the list for `a + b` is the list for `a` followed by the list for `b`, so order and repeated keywords are kept |
| `Configuration.NormalizeKeywordsSingle` | src/config.py:56 | one keyword gives its stripped form, or nothing when it is blank |
| `Configuration.NormalizedKeywordsTrimmed` | src/config.py:56 | every kept keyword is non-empty and stripped, and the list is no longer than the input |
| `Configuration.NormalizedKeywordsKept` | src/config.py:56 | every non-blank keyword is kept in stripped form |
| `Configuration.BlankKeywordsVanish` | src/config.py:56 | whitespace-only keywords are all dropped |
| `Configuration.NormalizeKeywordsIdempotent` | src/config.py:56 | normalising an already normalised list changes nothing |
| `Cli.InteractiveReview` | src/main.py:65-115 | `_interactive_review` computes `Review`, and an empty input gives `[]` |
| `Cli.KeptCons` | src/main.py:88-107 | the reply-based selection can be peeled off from the front |
| `Cli.KeptSubseq` | src/main.py:100-107 | selecting by reply keeps an order-preserving subsequence |
| `Cli.ReviewWithoutQuit` | src/main.py:88-107 | when every paper is answered and no answer is `q`: exactly the papers answered `y` or left blank (default `y`) are kept, in order |
| `Cli.ReviewStopsAtQuit` | src/main.py:100-102 | `q` on a paper keeps the earlier papers' decisions; neither that paper nor any later one is kept |
| `Cli.ReviewRunsOut` | src/main.py:91-97 | running out of answers before a `q` or the last paper aborts the review |
| `Cli.ReviewSubseq` | src/main.py:85-115 | the accepted list is an order-preserving subsequence of the input and no longer than it |
| `Cli.LastIndex` | src/main.py:129 | finds the last occurrence of a character, or reports there is none |
| `Cli.FileName` | src/main.py:129 | the file name is the tail of the path after its last `/` |
| `Cli.Suffix` | src/main.py:129-132 | the suffix is empty, or a dot, then no more dots, and never the whole name |
| `Cli.LastIndexAppend` | src/main.py:129 | appending text without `c` does not move the last `c` |
| `Cli.FileNameOf` | src/main.py:129 | a directory ending in `/` followed by a slash-free name has that name |
| `Cli.SuffixOf` | src/main.py:129-132 | a non-empty stem followed by a dot and dot-free text has that suffix |
| `Cli.ReplacedSuffix` | src/main.py:132-133 | replacing the suffix keeps the directory and the stem, and the new file name's suffix is `.csv` |
| `Cli.ChooseOutputStable` | src/main.py:124-134 | the format agrees with the saved file's suffix (`.md` and `.csv` compared in lower case), and choosing again from that file changes nothing |
| `Cli.DefaultOutputIsCsv` | src/main.py:21-24 | without `--output` the results go to `results_<timestamp>.csv` as CSV |
| `Cli.UpperCaseMarkdown` | src/main.py:129-130 | `.MD` selects Markdown and keeps the path |
| `Cli.OtherSuffixReplaced` | src/main.py:131-134 | any other suffix is replaced by `.csv`, keeping directory and stem |
| `Cli.Run` | src/main.py:142-258 | `main` ends as `MainOutcome` says, and writes a file only when it saves: Markdown from `export_markdown`, CSV from `export_csv` |
| `Cli.MainSaves` | src/main.py:235-257 | no match means no file; with nothing accepted there is no file either; a save holds a non-empty ordered selection of the matches; under `--no-review` it holds all of them |

## Left out

- HTTP and JSON are not modelled: the session, headers, timeouts, `raise_for_status` and `resp.json()`. The `k`-th request receives `responses[k]`, and running out of responses counts as a failed request. The ISSN and the from-date filter only shape the request URL and are not modelled.
- Clock reads are parameters: the report date (`today`) and the output timestamp. `--days` and `search_days` only move the from-date filter of the request, so they have no effect in the model.
- Terminal output is not modelled: `print_results`, `_display_paper`, the panels, the progress display and the messages. The prompt's answers arrive already resolved: `y`, `n`, `q`, or blank for the default. The prompt's re-asking on an invalid answer is not modelled.
- Writing files is not modelled: `write_text`, `open` and the `csv` module's quoting. The model stops at the Markdown text and the CSV rows as field lists.
- Reading the configuration is not modelled: `yaml.safe_load`, `Path.exists`, and documents of the wrong shape. The model starts from whether the file exists and from a typed document in which each key is absent or holds a value of the expected type. A `journals` key holding `null` (a crash in the source) is treated as absent, and so is an `email` of `null`. `int()` applied to a `search_days` value that is not an integer is not modelled.
- `argparse` is not modelled; its results are parameters of `Cli.Run`.
- Only Python's ASCII case mapping is modelled; `str.lower` on other letters is taken as the identity. `\s` is the fixed set of characters `str.isspace` accepts.
- An absent string and an empty string are the same value. The source tests both with `not x`, so this does not change any branch.
- Pathlib's normalisation of the path text is not modelled (a trailing `/`, repeated `/`, `.` components). `Cli.FileName` reads the text as given, and `Cli.Suffix` follows the suffix rule of Python 3.11 and earlier.
- `Formatter.ExportMarkdown` and `Formatter.ExportCsv` take the summariser as a parameter, and `Cli.Run` passes `Summarizer.ExtractSummary`. This keeps the proofs independent of the summariser's definition.
- `Cli.Run` does not model the exit status or the traceback of an exception: a missing answer at the prompt and a failing `with_suffix` end the run as `ReviewAborted` and `BadOutputPath`.
