# atom2remarkable in Dafny

A model of the decision and bookkeeping layer of atom2remarkable. The program reads a list of
Atom/RSS feed URLs and fetches each feed. It renders every entry published within the recent window
(24 hours by default) to a PDF under `output/<feed directory>/MM-DD-YYYY <title>.pdf`, unless that
PDF already exists, and counts what happened in ten statistics counters. The PDFs of the run are
then uploaded to a folder in reMarkable Cloud through the `rmapi` command-line tool, skipping files
already there. The program exits with 0, 1 or 2 depending on the counters.

The model has one module per concern:

- `PyText` covers the Python string built-ins the program relies on: `strip`, `isspace`, `lower` and `in`.
- `Calendar` covers naive `datetime`: its range checks, its order, a microsecond time line and
  `strftime('%m-%d-%Y')`.
- `Config` holds the naming rules of `config.py`; `ConfigExamples` holds the examples of its unit tests.
- `Fallback` is the first-success chain behind the date and content fallbacks.
- `Entries` covers date resolution, the recency test and `extract_entry_data`.
- `Sanitizer` is the HTML clean-up, as a transformation of an element tree.
- `FeedList` is the feeds-file line filter.
- `Paths` is the part of `pathlib` in use.
- `Remarkable` is the `rmapi` gate and the upload batch.
- `Processor` is the processor proper: `generate_pdf`, `process_feed`, `process_all_feeds` and the
  exit code.

Two parts keep their imperative form:

- `Processor.AtomFeedProcessor` is a class. Its fields are the counters, the set of existing PDF
  paths and the transcript of `rmapi` commands. Its methods run the loops of the source; each
  `ensures` ties the new state to a pure function of the old state, and the lemmas on those
  functions prove the counting rules.
- The batch loop of `upload_pdfs` is the method `Remarkable.UploadEachLoop`, proved equal to the
  fold `UploadEach`.

Collaborators the program calls but does not contain are parameters of the model:

- A `Setup` holds the clock reading `now`, the feed fetcher (HTTP plus feedparser), the renderer
  (Jinja2 plus WeasyPrint, as two success flags) and the `rmapi` binary.
- An `Rmapi` answers each command, given the commands issued before it, with an exit status and
  output, a timeout or an exception.
- The result of dateutil's free-text parser is part of an entry.

## Model

| member | source | states |
|---|---|---|
| PyText.TrimLeft | main.py:95-96 | `lstrip` removes exactly a blank prefix and leaves a suffix that starts with a non-space |
| PyText.TrimRight | main.py:95-96 | `rstrip` removes exactly a blank suffix and leaves a prefix that ends with a non-space |
| PyText.Strip | config.py:62 | `strip()` yields a trimmed slice of its input with only whitespace on either side of it |
| PyText.StripEmptyIffBlank | main.py:96 | a line strips to the empty (falsy) string exactly when every character is whitespace |
| PyText.AllSpaceIffBlank | remarkable.py:139 | the character-by-character whitespace scan agrees with the quantified definition |
| PyText.StripEmptyIffAllSpace | remarkable.py:139 | `s.strip()` is falsy exactly when the scan finds only whitespace |
| PyText.StripTrimmed | config.py:62 | stripping leaves an already trimmed string unchanged |
| PyText.TrimRightBlankTail | main.py:95 | `rstrip` removes exactly a whitespace tail after a final non-space |
| PyText.StripTrailingBlank | main.py:95 | a trimmed line followed by its newline strips back to the line |
| PyText.StripLeadingBlank | main.py:95 | a leading whitespace character does not change the result of `strip()` |
| PyText.TrimmedCons | main.py:95 | a non-space in front of a trimmed string keeps it trimmed |
| PyText.StripIdempotent | main.py:224 | `s.strip().strip() == s.strip()` |
| PyText.Lower | remarkable.py:72 | `lower()` keeps the length of the string |
| PyText.ContainsIffOccurs | remarkable.py:72 | the substring test `in` holds exactly when the needle occurs as a contiguous slice |
| Calendar.DaysBeforeYearStep | main.py:187 | the day count before year y+1 is the count before y plus the length of y |
| Calendar.DaysBeforeYearGrows | main.py:187 | a whole year fits before any later year begins |
| Calendar.DaysBeforeMonthStep | main.py:187 | the day count before month m+1 is the count before m plus the length of m |
| Calendar.DaysBeforeMonthGrows | main.py:187 | a whole month fits before any later month of the same year |
| Calendar.DayOfYearBounds | main.py:187 | the day of the year of a valid date lies in 1..length of the year |
| Calendar.OrdinalGrows | main.py:187 | strictly earlier calendar days have strictly smaller day ordinals |
| Calendar.TimeOfDayBounds | main.py:187 | the time of day lies within one day's microseconds |
| Calendar.EarlierDayEarlierMicros | main.py:187 | a date on an earlier day is earlier on the microsecond time line |
| Calendar.SameDayOrder | main.py:187 | on one day, datetime order is the order of the time of day |
| Calendar.MicrosOrderIsChronological | main.py:187 | Python's field-by-field `<` on datetimes is exactly `<` of their microsecond positions |
| Calendar.ZeroPadded | config.py:56 | padding writes exactly `width` decimal digits |
| Calendar.ZeroPaddedRoundTrip | config.py:56 | reading a zero-padded number back gives the number when it fits the width |
| Calendar.OrdinalOnCalendar | config.py:50 | the day ordinal of a datetime lies between 1 and the last day of year 9999 |
| Calendar.MicrosOnTimeLine | config.py:50 | every datetime lies on the time line between `datetime.min` and `datetime.max` |
| Calendar.FormatMonthDayYear | config.py:56 | `strftime('%m-%d-%Y')` has ten characters with dashes at 2 and 5, whose digit groups read back as month, day and year |
| Config.KeepSafe | config.py:59-62 | the character filter keeps only alphanumerics, space, `-` and `_`, and never lengthens |
| Config.KeepSafeAppend | config.py:59-62 | the filter works piece by piece: kept characters stay in order and dropped ones leave no trace |
| Config.KeepSafeOfSafe | config.py:59-62 | text made only of safe characters passes the filter unchanged |
| Config.SafeSpaceIsBlank | config.py:59-62 | among the safe characters only the space is whitespace |
| Config.SliceKeepsSafe | config.py:65 | any slice of safe text is safe |
| Config.StripKeepsSafe | config.py:62 | stripping safe text leaves safe text |
| Config.PrefixStart | config.py:65 | truncating keeps the first character |
| Config.SafeName | config.py:59-65 | filter, strip, truncate: at most `limit` safe characters, no leading space, and exactly the first min(limit, length) characters of the stripped safe text |
| Config.GetFeedDirectory | config.py:70-80 | a feed directory has at most 50 safe characters and does not start with a space |
| Config.NameLayout | config.py:67 | the date, the space, the title and `.pdf` sit where the f-string puts them |
| Config.OutputFilenameLayout | config.py:53-67 | a PDF name is the zero-padded date reading back as month, day and year, one space, the sanitised title of at most 60 characters, then `.pdf` |
| Config.GetOutputFilename | config.py:53-67 | `get_output_filename`: its layout (date, space, title of at most 60 safe characters, `.pdf`) is stated by Config.NameLayout and Config.OutputFilenameLayout, and the test examples by ConfigExamples.OutputFilenameExample and OutputFilenameDateExample |
| Config.FeedDirectoryStable | config.py:70-80 | a safe, trimmed name of at most 50 characters is its own feed directory |
| Config.GetCutoffTime | config.py:48-50 | the cutoff is exactly `RECENT_HOURS` hours before now on datetime's range, and strictly before now exactly when the window is positive; OverflowError (no cutoff) exactly when the timedelta limit is passed or the result leaves datetime's range |
| Config.CutoffOverflow | config.py:50 | for a valid clock reading the cutoff overflows exactly when now minus the window leaves datetime's range |
| Config.DefaultWindowFits | config.py:20 | the default 24-hour window has a cutoff once the clock is a day past `datetime.min` |
| ConfigExamples.KeepSafeDropLast | config.py:59-62 | an unsafe character after safe text is dropped |
| ConfigExamples.KeepSafeDrop | config.py:59-62 | the same after any prefix |
| ConfigExamples.ThreeDrops | config.py:59-62 | three safe runs, each followed by an unsafe character, keep exactly the runs |
| ConfigExamples.SafeNameOfKept | config.py:59-65 | a name whose kept text is trimmed and short enough is its own safe name |
| ConfigExamples.FeedTitleParts | tests/test_config.py:39-41 | the example feed title decomposes into safe runs and dropped characters |
| ConfigExamples.FeedTitleJoin | tests/test_config.py:39-41 | the kept runs join to `Feed Name  More` |
| ConfigExamples.FeedTitleKept | tests/test_config.py:39-41 | the filter keeps `Feed Name  More` of `Feed: Name & More!` |
| ConfigExamples.FeedDirectoryExample | tests/test_config.py:39-41 | `get_feed_directory("Feed: Name & More!") == "Feed Name  More"`, double space kept |
| ConfigExamples.FeedDirectoryKeepsCleanNames | tests/test_config.py:35-37 | `My-Feed_Name` and `Simon Willison` are their own feed directories |
| ConfigExamples.YearPadded | tests/test_config.py:28-31 | the year 2025 is written `2025` |
| ConfigExamples.ArticleTitleParts | tests/test_config.py:16-19 | the example entry title decomposes into safe runs and dropped characters |
| ConfigExamples.ArticleTitleJoin | tests/test_config.py:16-19 | the kept runs join to `Article A  B` |
| ConfigExamples.ArticleTitleKept | tests/test_config.py:16-19 | the filter keeps `Article A  B` of `Article: A & B!` |
| ConfigExamples.ArticleTitle | tests/test_config.py:16-19 | the sanitised title of `Article: A & B!` is `Article A  B` |
| ConfigExamples.JulyDate | tests/test_config.py:16-19 | 2025-07-28 is written `07-28-2025` |
| ConfigExamples.DecemberDate | tests/test_config.py:28-31 | 2025-12-03 is written `12-03-2025` |
| ConfigExamples.FilenameOf | config.py:67 | a file name is its date, a space, its title portion and `.pdf` |
| ConfigExamples.FilenameJoin | tests/test_config.py:19 | the assembled example name is the literal in the unit test |
| ConfigExamples.OutputFilenameExample | tests/test_config.py:16-19 | `get_output_filename("Article: A & B!", 2025-07-28) == "07-28-2025 Article A  B.pdf"` |
| ConfigExamples.OutputFilenameDateExample | tests/test_config.py:28-31 | for any title the name for 2025-12-03 starts with `12-03-2025` |
| ConfigExamples.LongNamesTruncated | tests/test_config.py:21-26 | a 100-character title gives a name of at most 75 characters and a directory of at most 50 |
| Fallback.FirstSuccess | main.py:156-177 | the chain yields `Missed` exactly when every source misses, else the first source that did not miss |
| Fallback.FirstSuccessAt | main.py:156-177 | the first non-missing source decides the chain; later ones are never consulted |
| Entries.FromStruct | main.py:158-160 | for fields that fit a C `int`, `datetime(*t[:6])` succeeds exactly when the fields are in range, with microsecond 0 and the same fields |
| Entries.FromStructTimeTuple | main.py:158 | a time tuple converted back loses only the microseconds |
| Entries.StructAttempt | main.py:156-160 | a structured source raises (uncaught OverflowError) exactly when present with a field beyond a C `int`; it yields the converted date exactly when present and convertible, and otherwise lets the chain go on |
| Entries.FreeTextAttempt | main.py:162-169 | the free-text source escapes exactly on the parser's OverflowError, yields exactly a parsed date, and misses on absence or a caught ValueError/TypeError; the chain order is stated by ResolveDate and LaterDateSourcesIgnored |
| Entries.ResolveDate | main.py:153-177 | the date chain is the first success of `published_parsed`, free-text `published`, `updated_parsed` |
| Entries.LaterDateSourcesIgnored | main.py:156-177 | once a source decides, later sources do not matter; the chain escapes exactly when the first source that does not miss overflows: a structured date beyond a C `int` or the free-text OverflowError |
| Entries.WideYearEscapes | main.py:156-160 | a `published_parsed` year of 2147483648 escapes `is_entry_recent` whatever the other sources hold |
| Entries.IsEntryRecent | main.py:149-188 | an entry raises exactly when the chain escapes; no date means `(False, None)`; a date is returned exactly when one resolves |
| Entries.RecentIffAfterCutoff | main.py:187 | recent exactly when a date resolves and lies strictly after the cutoff in datetime order |
| Entries.RecentWithinWindow | main.py:187 | with a resolved date, recent exactly when the entry is younger than the window |
| Entries.RawContent | main.py:227-233 | the content is the first success of `content[0]`, `summary`, `description`, else empty |
| Entries.ExtractedArticle | main.py:221-251 | the article has the stripped title (default `Untitled`), the feed title, cleaned content with no banned element, only safe attributes and the visible text, the default author and link, and the id or its title-hash fallback |
| Entries.ExtractEntryData | main.py:221-251 | `extract_entry_data`: its defaults, stripping, content chain and cleaned content are stated by Entries.ExtractedArticle, DefaultTitle and ContentFallback |
| Entries.DefaultTitle | main.py:224 | a missing title becomes `Untitled` |
| Entries.ContentFallback | main.py:228-233 | `content[0]` wins when present; an empty list falls to `summary` whenever it exists, even empty; `description` only without both |
| Sanitizer.Erase | main.py:204-210 | erasing attributes keeps the number of top-level nodes |
| Sanitizer.Decompose | main.py:200-201 | after removal no banned element remains at any depth, and the top level never grows |
| Sanitizer.DecomposeNode | main.py:200-201 | a kept node keeps its kind, tag and attributes, and has no banned element below it |
| Sanitizer.KeepSafeAttrs | main.py:206-210 | the kept attributes are exactly the safe-named ones of the list |
| Sanitizer.StripAttrs | main.py:204-210 | every element ends up with only safe attributes, shape, tags and text are unchanged, and each top-level node is filtered on its own |
| Sanitizer.StripAttrsNode | main.py:204-210 | an element keeps exactly the safe attributes of its own list, with shape, tags and text unchanged |
| Sanitizer.KeepSafeAttrsAppend | main.py:206-210 | the attribute filter works piece by piece, so the kept attributes stay in their order |
| Sanitizer.AttributesOfStripped | main.py:204-210 | the attributes of the cleaned document, in document order, are exactly the safe attributes of the original |
| Sanitizer.AttributesOfStrippedNode | main.py:204-210 | the same for one node and its subtree |
| Sanitizer.DecomposeAppend | main.py:200-201 | removal works node by node: removing from a concatenation concatenates the removals |
| Sanitizer.DecomposeSingle | main.py:200-201 | a banned element goes with its subtree; a text node stays; any other element stays with its tag and attributes and removal applied to its children |
| Sanitizer.NoBannedErase | main.py:200-210 | fragments of the same shape have the same banned elements |
| Sanitizer.TextContentErase | main.py:200-210 | fragments of the same shape have the same text |
| Sanitizer.TextContentCons | main.py:215 | the text of a fragment is its first node's text followed by the rest |
| Sanitizer.DecomposeText | main.py:200-201 | removal keeps exactly the text outside banned elements |
| Sanitizer.DecomposeNodeText | main.py:200-201 | the same for one node |
| Sanitizer.CleanGuarantees | main.py:190-215 | cleaned content has no banned element, only safe attributes, exactly the visible text, and empty stays empty |
| Sanitizer.Clean | main.py:190-215 | `clean_html_content`, banned elements removed and then unsafe attributes: its guarantees are stated by Sanitizer.CleanGuarantees and CleanIdempotent, and the test examples by ScriptRemovedExample and UnsafeAttributeExample |
| Sanitizer.DecomposeNoBanned | main.py:200-201 | removal changes nothing without banned elements |
| Sanitizer.KeepSafeAttrsOfSafe | main.py:206-210 | filtering safe attributes changes nothing |
| Sanitizer.StripAttrsOfSafe | main.py:204-210 | the attribute step changes nothing when all attributes are safe |
| Sanitizer.CleanIdempotent | main.py:190-215 | clean content is left as it is, so cleaning twice is cleaning once |
| Sanitizer.ScriptRemovedExample | tests/test_processor.py:66-70 | the paragraph stays and the script goes |
| Sanitizer.UnsafeAttributeExample | tests/test_processor.py:93-97 | `onclick` goes and `class="ok"` stays |
| FeedList.FeedUrls | main.py:94-97 | at most one URL per line, each non-empty and stripped |
| FeedList.FeedUrlsAppend | main.py:94-97 | the filter works line by line, in file order |
| FeedList.FeedUrlsMembers | main.py:94-97 | a URL is loaded exactly when some feed line strips to it |
| FeedList.FeedUrlsSkipped | main.py:96 | blank lines and raw lines starting with `#` contribute nothing |
| FeedList.LoadFeeds | main.py:84-104 | a missing or unreadable file gives no URLs, otherwise the filter of its lines |
| FeedList.FeedUrlsSingle | main.py:94-97 | a one-line file gives its stripped line exactly when it is a feed line |
| FeedList.FeedUrlsNeitherOfTwo | main.py:96 | two non-feed lines give nothing |
| FeedList.UrlLine | main.py:95 | a URL with its newline gives exactly that URL |
| FeedList.FeedUrlsOfTwo | main.py:94-97 | a two-line file gives the first line's URLs, then the second's |
| FeedList.FeedUrlsOfThree | main.py:94-97 | a three-line file gives the first line's URLs, then the rest's |
| FeedList.TwoFeedLines | tests/test_processor.py:101-111 | two URL lines load both URLs, in order |
| FeedList.BlankLineSkipped | main.py:96 | a whitespace-only line is not a feed line |
| FeedList.NewlineSkipped | tests/test_processor.py:113-120 | a lone newline is not a feed line |
| FeedList.CommentSkipped | main.py:96 | a line starting with `#` is not a feed line |
| FeedList.BlankAndCommentDropped | tests/test_processor.py:113-120 | a URL line, a blank line and a comment give only the URL |
| FeedList.IndentedCommentStrip | main.py:95 | an indented comment strips to the comment |
| FeedList.IndentedCommentKept | main.py:95-96 | only the raw line is examined for `#`, so an indented comment is loaded, stripped |
| Paths.Join | main.py:325 | joining a component appends it; joining the empty name is a no-op |
| Paths.RFind | remarkable.py:150 | the last index of the character, or -1 when it does not occur |
| Paths.Stem | remarkable.py:150 | the stem is a prefix of the final name |
| Paths.StemOfPdf | remarkable.py:150 | the stem of `<base>.pdf` is `<base>` for a dot-free base |
| Remarkable.ReportsPresentIsStripTest | remarkable.py:139 | `find` reports presence exactly when it exits 0 and `stdout.strip()` is non-empty |
| Remarkable.PutsAppend | remarkable.py:185-190 | `put` commands of two transcripts add up |
| Remarkable.CheckRmapiAvailable | remarkable.py:18-41 | rmapi is available exactly when `rmapi version` exits 0; a failure, timeout or exception means unavailable |
| Remarkable.FileExistsInRemarkable | remarkable.py:127-145 | one `find`; true exactly when it exits 0 with non-blank stdout; a timeout or exception gives false |
| Remarkable.EnsureFolderExists | remarkable.py:43-125 | `mkdir` only when `find` ran and did not report the folder; true exactly when found, or `mkdir` exits 0 or fails with "already exists" in any case |
| Remarkable.EnsureFolderNoPut | remarkable.py:43-125 | ensuring a folder issues one or two commands and no `put` |
| Remarkable.AlreadyExistsAccepted | remarkable.py:71-74 | a failed `mkdir` whose stderr contains "already exists" in any letter case is accepted |
| Remarkable.RemoteFilePath | remarkable.py:147-155 | `folder/sub/stem` with a non-empty subfolder, `folder/stem` otherwise |
| Remarkable.RemoteKeyOfPdf | tests/test_remarkable.py:39-52 | the remote key drops `.pdf` from the file name |
| Remarkable.PutPdf | remarkable.py:185-197 | one `put` into the target folder; true exactly when it exits 0 |
| Remarkable.Extend | remarkable.py:185-190 | appending a command extends the transcript and counts a `put` |
| Remarkable.UploadPdfContract | remarkable.py:157-204 | an existing key succeeds after one `find`; otherwise, once the root folder and then the subfolder (when given) are ensured, the one `put` into the target folder is issued last and decides the result; when a folder cannot be ensured there is no `put` and the result is false |
| Remarkable.UploadPdf | remarkable.py:157-204 | `upload_pdf`: the find, the folder ensuring in order and the one deciding `put` are stated by Remarkable.UploadPdfContract |
| Remarkable.PrefixTrans | remarkable.py:157-204 | transcript extension is transitive |
| Remarkable.InferSubfolder | remarkable.py:224-227 | the subfolder is `parts[-2]` exactly when there are at least 3 parts and `parts[-3]` is `output` |
| Remarkable.InferGeneratedSubfolder | remarkable.py:222-227 | a PDF written under `…/output/<feed>/` is inferred to belong to `<feed>` |
| Remarkable.AddCounts | remarkable.py:233-243 | counting a verdict adds one to its own counter and to the total |
| Remarkable.UploadOne | remarkable.py:229-239 | a path is skipped exactly when its remote key is found, after that one `find` only; otherwise it counts as uploaded exactly when `upload_pdf` returns true and as failed exactly when it returns false |
| Remarkable.UploadOneLog | remarkable.py:229-239 | a path extends the transcript and issues at most one `put`, none when skipped |
| Remarkable.UploadEachCounts | remarkable.py:220-243 | every path adds exactly one to one counter, and no more `put`s than non-skipped paths |
| Remarkable.PrefixOfPrefix | remarkable.py:220-243 | a prefix of a prefix is a prefix |
| Remarkable.UploadEachUnfold | remarkable.py:220-243 | one turn of the batch loop |
| Remarkable.UploadEach | remarkable.py:216-243 | the loop of `upload_pdfs` as a fold: one counter per path and the `put` bound by Remarkable.UploadEachCounts, and the while loop computes it by UploadEachLoop |
| Remarkable.UploadPdfsCounts | remarkable.py:206-246 | the counters add up to the batch size; an unavailable rmapi gives `(0, 0, n)` after `version` only, a root folder that cannot be ensured gives `(0, 0, n)` after the folder commands only; `put`s never exceed uploads plus failures |
| Remarkable.UploadPdfsSpec | remarkable.py:206-246 | `upload_pdfs` as a whole: the sum rule and both early exits are stated by Remarkable.UploadPdfsCounts, and the method UploadPdfs returns it |
| Remarkable.UploadStep | remarkable.py:220-243 | one pass of the batch loop adds one to the total |
| Remarkable.UploadEachLoop | remarkable.py:216-243 | the counter loop computes the batch fold |
| Remarkable.UploadPdfs | remarkable.py:206-246 | `upload_pdfs` computes its specification, and the counters add up to the batch size |
| Processor.SafeIsPlain | config.py:59-62 | safe names have no dot and no separator |
| Processor.DateIsPlain | config.py:56 | a formatted date has no dot and no separator |
| Processor.NamesAreComponents | main.py:324-336 | feed directories and PDF names are single path components; a PDF name is a plain non-empty base and `.pdf` |
| Processor.PlainIsComponent | main.py:325 | a plain name is a single component |
| Processor.PlainJoin | config.py:67 | joining plain names gives a plain name |
| Processor.PdfName | config.py:67 | a plain base with `.pdf` is a single component |
| Processor.OutputPath | main.py:324-336 | the output path is the output directory, the feed directory unless empty, then the file name; it lies strictly below the output directory |
| Processor.RemoteKeyOfGenerated | main.py:324-336 | a PDF generated under `output/<feed>` is uploaded as `folder/<feed>/<base>` |
| Processor.GeneratePdfOutcomes | main.py:306-367 | with the template prepared, an existing path gives `(path, True)` and writes nothing, a new path that is written gives `(path, False)` and adds it, a failed write gives `(None, False)`; a render failure gives `(None, False)` even when the file exists; nothing disappears |
| Processor.GeneratePdfTwice | main.py:336-341 | with the template prepared, the first call returns a path exactly when the PDF existed or was written, and a second call then skips it and writes nothing |
| Processor.GeneratePdfExisting | main.py:336-341 | an existing PDF gives `(path, True)` with the file set unchanged, on this and every later call |
| Processor.GeneratePdfSpec | main.py:306-367 | `generate_pdf`: its outcomes are stated by Processor.GeneratePdfOutcomes, GeneratePdfTwice and GeneratePdfExisting, and the method AtomFeedProcessor.GeneratePdf equals it |
| Processor.EntryStepRaised | main.py:414-420 | an error escaping `is_entry_recent` (a date error or an overflowing cutoff) counts one failed PDF |
| Processor.EntryStepStale | main.py:391-392 | a stale or undated entry changes nothing |
| Processor.EntryStepRecent | main.py:394-402 | a recent entry always has a date and goes through extraction and `generate_pdf` with it |
| Processor.RunEntriesOverflow | main.py:386-420 | with an overflowing cutoff every entry, dated or not, counts one failed PDF and nothing is rendered or returned |
| Processor.Cutoff | config.py:48-50 | the cutoff of the run, read from the clock once: its range and overflow are stated by Config.GetCutoffTime, CutoffOverflow and DefaultWindowFits |
| Processor.EntryRecency | main.py:149-188 | `is_entry_recent` including its cutoff: an overflowing cutoff raises (Processor.RunEntriesOverflow, EntryStepRaised), otherwise Entries.IsEntryRecent and RecentIffAfterCutoff apply |
| Processor.EntryStep | main.py:386-420 | one iteration of the entry loop: its three branches are stated by Processor.EntryStepRaised, EntryStepStale and EntryStepRecent, and its counter growth by EntryStepCounts |
| Processor.RunEntries | main.py:386-420 | the entry loop as a fold: its counters and paths are stated by Processor.RunEntriesCounts and RunEntriesOverflow, and the method AtomFeedProcessor.ProcessEntries computes it |
| Processor.RunEntriesUnfold | main.py:386 | one turn of the entry loop |
| Processor.EntryOutcomeGrowth | main.py:404-412 | counting one `generate_pdf` result grows the counters like one entry |
| Processor.RecentStepGrowth | main.py:394-412 | a recent entry grows the counters like one entry |
| Processor.EntryStepCounts | main.py:386-420 | each entry adds at most one to generated, skipped or failed, and returned paths match generated plus skipped |
| Processor.EntryGrowthTrans | main.py:386-420 | growth over consecutive stretches of entries composes |
| Processor.RunEntriesCounts | main.py:386-420 | over n entries: at most n PDF outcomes, paths equal generated plus skipped, at most one per recent entry, all below the output directory |
| Processor.ProcessFeedFetched | main.py:379-425 | a fetched feed: one processed feed, its entries found, as many returned paths as PDFs counted generated or skipped, at most one per recent entry |
| Processor.ProcessFeedCounts | main.py:369-425 | a failed fetch adds one failed feed and nothing else; every call adds one to processed plus failed |
| Processor.ProcessFeedSpec | main.py:369-425 | `process_feed`: a failed fetch and the counting of a fetched feed are stated by Processor.ProcessFeedCounts and ProcessFeedFetched, and the method AtomFeedProcessor.ProcessFeed equals it |
| Processor.RunFeedsCounts | main.py:459-469 | every feed raises processed plus failed by at least one; the batch grows by as many paths as PDFs counted generated or skipped; the reMarkable counters are untouched |
| Processor.RunFeedsAllUnreachable | main.py:459-469 | when every fetch fails, one failed feed per URL and nothing else |
| Processor.FeedStep | main.py:459-469 | one iteration of the feed loop, with its own handler for an escaping exception: stated by Processor.RunFeedsCounts over the loop |
| Processor.RunFeeds | main.py:459-469 | the feed loop as a fold: stated by Processor.RunFeedsCounts and RunFeedsAllUnreachable |
| Processor.RunAllCounts | main.py:437-479 | no feeds gives zero counters and no `rmapi` call; the reMarkable counters add up to generated plus skipped; no upload without PDFs |
| Processor.RunAllUploadCounters | main.py:471-479 | the three reMarkable counters and the transcript are those `upload_pdfs` returns for the batch; an empty batch leaves them zero and calls no `rmapi` command; the other counters are the feed loop's |
| Processor.RunAll | main.py:427-496 | `process_all_feeds`: stated by Processor.RunAllCounts, RunAllUploadCounters and MissingFeedsFileExitsZero, and the method AtomFeedProcessor.ProcessAllFeeds equals it |
| Processor.ExitCode | main.py:535-545 | exit 1 exactly when the run raised or every PDF failed, else 2 exactly when some feed failed, else 0 |
| Processor.MissingFeedsFileExitsZero | main.py:451-454 | a missing feeds file gives zero counters, no `rmapi` call and exit code 0 for the run |
| Processor.AllFetchesFailExitTwo | main.py:536-541 | when every listed feed fails to fetch the run exits with 2 |
| Processor.Main | main.py:529-545 | an undefined template attribute makes `main` exit with 1; with it defined, a missing feeds file exits with 0; the code is always 0, 1 or 2 |
| Processor.MainAsWrittenExitsOne | main.py:24 | with `Config` as written, every run exits with 1, even one that would exit with 0 |
| Processor.MainExitCode | main.py:529-545 | with the template attribute defined, `main` exits with the code of the run's counters: 0 for a missing feeds file, 2 when every listed feed is unreachable |
| Processor.AtomFeedProcessor.constructor | main.py:40-52 | a new processor starts with zero counters and an empty transcript (the constructor once the template lookup succeeds) |
| Processor.AtomFeedProcessor.GeneratePdf | main.py:306-367 | the method computes `generate_pdf`'s result and the new set of existing PDFs |
| Processor.AtomFeedProcessor.CountPdf | main.py:404-412 | counting the result of `generate_pdf` |
| Processor.AtomFeedProcessor.ProcessEntry | main.py:386-420 | one pass of the entry loop updates the counters and paths as one entry step |
| Processor.AtomFeedProcessor.ProcessRecent | main.py:394-412 | the recent branch of the entry loop |
| Processor.AtomFeedProcessor.ProcessEntries | main.py:381-421 | the entry loop computes the entry fold, and the count equals the paths' length |
| Processor.AtomFeedProcessor.ProcessFeed | main.py:369-425 | `process_feed` computes its specification; the count equals the paths' length |
| Processor.AtomFeedProcessor.ProcessAllFeeds | main.py:427-496 | `process_all_feeds` computes the run specification: counters, existing PDFs and transcript |

## Left out

- Fetching and parsing feeds (HTTP, feedparser) are a `fetch` oracle in `Setup`. `Unreachable`
  covers every exception inside `fetch_feed`, including a result without `feed` or `entries`
  (main.py:134-135, main.py:142-147). `Broken` over-approximates an exception escaping
  `process_feed` after the feed was counted as processed, so that the feed loop's handler
  (main.py:463-469) is modelled; as written no input is known to cause one.
- The free-text date parser is not modelled. Its outcome (absent, unparsable, overflow or a date
  with the time zone already dropped) is part of the entry.
- HTML parsing and serialisation are left out; the clean-up works on an element tree. The fallback
  that returns the raw text when the HTML library fails is a library-failure path and is not modelled.
- Template rendering, PDF writing and CSS loading (`get_pdf_styles`, `get_fallback_styles`) are
  the `render` oracle, which gives two flags: prepared and written. A partially written file left
  by a failed write is not modelled.
- `subprocess.run` and its timeouts: every `rmapi` call is an answer of the `Rmapi` oracle.
- `list_remarkable_files` is not part of this model: it is a debugging listing that nothing in
  the pipeline uses.
- These are not modelled:
  - logging;
  - argument parsing and the environment overrides of `Config`;
  - `setup_directories`;
  - the template lookup in the constructor, beyond whether `Config` defines `TEMPLATE_FILE`
    (see Findings).
- The `generated_date` taken from the clock is left out of the article.
- The `hash(title)` id fallback is the opaque value `TitleHash(title)`: Python's string hash is
  randomised per process.
- PyText.Lower, Config.IsSafeChar: `str.lower` and `str.isalnum` are restricted to ASCII, because
  the model has no Unicode tables. CPython's `lower()` does not keep the length in general
  (`'İ'.lower()` has two characters), so `PyText.Lower`'s promise that the length is kept holds
  only under this restriction. `str.isspace`/`strip` use CPython's full whitespace table.
- Config.GetOutputFilename: the source's `feed_title` argument is unused there, so it is not a
  parameter of the model.
- The fetcher and the renderer are fixed functions. A URL listed twice therefore gets the same fetch
  result both times, and the renderer cannot observe earlier renders.
- The counters of `self.stats` form one `Stats` value held in a field, rather than a dictionary.
- `UploadPdfs` and `UploadPdf` are functions of the transcript so far and return the extended
  transcript; the class threads that transcript through.
- The running total `total_pdfs` of `process_all_feeds` is never read by the source. The model
  keeps it only as a loop invariant (equal to the batch length) and returns nothing about it.
- `Processor.Cutoff`: `is_entry_recent` reads the clock for every entry (main.py:151, config.py:48-50),
  so the cutoff can move forward during a run. The model reads `now` once per run and uses one
  cutoff for every entry.
- The per-path `except Exception` of `upload_pdfs` (remarkable.py:241-243) has no counterpart.
  Every call in the loop body (`file_exists_in_remarkable`, `upload_pdf`) catches its own
  exceptions, and what remains (`parts`, string formatting, logging) cannot fail in the model.
- Calendar.FormatMonthDayYear: always writes four year digits. CPython's `strftime('%Y')` on
  glibc writes a year below 1000 without leading zeros, so for such years the model's file name
  differs from the one written on that platform.
- `except Exception` around `main` (exit code 1) is modelled as the option `None` given to
  `ExitCode`. The model has no run that raises out of `process_all_feeds`, because every
  per-feed exception is caught by the feed loop.

## Where the code is followed

- An exception while checking whether a file exists remotely is swallowed by
  `file_exists_in_remarkable` (remarkable.py:143-145). The path is then uploaded, not counted as
  failed.
- Subfolder inference compares `parts[-3]` with the literal `output` (remarkable.py:226), whatever
  the configured output directory is called.
- A missing feeds file gives an empty feed list and all-zero counters, and the exit rule then
  gives 0 (main.py:88-90, main.py:451-454, main.py:536-541). As written `main` never gets that
  far; see Findings.

## Findings

The class `Processor.AtomFeedProcessor` and `Processor.MainExitCode` model the processor once
its constructor gets past the template lookup; `Processor.Main` models both outcomes of that lookup.

| source | as written | input that shows it | evidently intended | confidence | as-written member | corrected member |
|---|---|---|---|---|---|---|
| main.py:24 | the constructor reads `Config.TEMPLATE_FILE`, which `Config` (config.py:6-45) does not define, so it raises AttributeError inside the `try` of `main`, which exits with 1 | any run, e.g. one whose feeds file is missing | a `TEMPLATE_FILE` setting that defaults to `None`, so the constructor falls back to `TEMPLATE_DIR` and the run goes ahead | high; not executed | Processor.MainAsWrittenExitsOne | Processor.MainExitCode |
