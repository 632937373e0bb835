/**
 * The feed processor: for every feed URL, fetch the feed, render every recent entry to a PDF
 * unless that PDF already exists locally, count what happened, then hand the batch of PDF
 * paths to the reMarkable uploader, and choose the exit code from the counters.
 *
 * Fetching, rendering and the `rmapi` binary are oracles fixed in a `Setup`; the local file
 * system is the set of PDF paths that exist.
 */
module Processor {
  import opened Wrappers
  import opened PyText
  import opened Calendar
  import opened Sanitizer
  import opened Config
  import opened Entries
  import opened FeedList
  import opened Paths
  import opened Remarkable

  /** A parsed feed: its title, when it has one, and its entries. */
  datatype Feed = Feed(title: Option<string>, entries: seq<Entry>)

  /** What fetching and parsing a URL gives. `Unreachable` is `fetch_feed` returning `None`:
      a network error, or any exception while parsing the feed or reading its title and
      entries. `Broken` over-approximates an exception escaping `process_feed` after it
      counted the feed as processed, so that the feed loop's own handler is modelled; since
      `fetch_feed` already read the title and the entries, nothing known makes it happen. */
  datatype Fetch = Unreachable | Broken | Fetched(feed: Feed)

  /** What the template engine and the PDF writer do with one article: `prepared` when the
      template loads, renders and the feed directory can be created; `written` when the PDF
      is then written. */
  datatype RenderOutcome = RenderOutcome(prepared: bool, written: bool)

  /** The fixed surroundings of a run. `now` is the clock reading on the microsecond time
      line, `recentHours` the window, `folder` the reMarkable folder. */
  datatype Setup = Setup(
    outputDir: Path,
    recentHours: int,
    now: int,
    fetch: string -> Fetch,
    render: (Article, Instant) -> RenderOutcome,
    rmapi: Rmapi,
    folder: string)

  /** The ten counters of `self.stats`. */
  datatype Stats = Stats(
    feedsProcessed: nat, feedsFailed: nat,
    entriesFound: nat, entriesRecent: nat,
    pdfsGenerated: nat, pdfsSkipped: nat, pdfsFailed: nat,
    remarkableUploaded: nat, remarkableSkipped: nat, remarkableFailed: nat)

  const ZeroStats := Stats(0, 0, 0, 0, 0, 0, 0, 0, 0, 0)

  // ---------------------------------------------------------------- output paths

  /** A name without dots or separators. */
  predicate Plain(s: string) {
    '.' !in s && '/' !in s
  }

  lemma SafeIsPlain(s: string)
    requires AllSafe(s)
    ensures Plain(s)
  {
  }

  lemma DateIsPlain(d: Instant)
    ensures Plain(FormatMonthDayYear(d))
  {
  }

  /** The part of a PDF file name before `.pdf`. */
  function PdfBase(entryTitle: string, date: Instant): string {
    FormatMonthDayYear(date) + " " + SafeName(entryTitle, TitleLimit)
  }

  /** Safe names and PDF file names are single path components, and a PDF file name is a
      plain, non-empty base followed by `.pdf`. */
  lemma NamesAreComponents(feedTitle: string, entryTitle: string, date: Instant)
    ensures IsComponent(GetFeedDirectory(feedTitle))
    ensures IsComponent(GetOutputFilename(entryTitle, date))
    ensures Plain(PdfBase(entryTitle, date)) && PdfBase(entryTitle, date) != []
    ensures GetOutputFilename(entryTitle, date) == PdfBase(entryTitle, date) + ".pdf"
  {
    var dir := GetFeedDirectory(feedTitle);
    SafeIsPlain(dir);
    PlainIsComponent(dir);
    var date10 := FormatMonthDayYear(date);
    var title := SafeName(entryTitle, TitleLimit);
    SafeIsPlain(title);
    DateIsPlain(date);
    PlainJoin(date10, " ", title);
    PdfName(PdfBase(entryTitle, date));
  }

  lemma PlainIsComponent(s: string)
    requires Plain(s)
    ensures IsComponent(s)
  {
    assert "."[0] == '.';
  }

  lemma PlainJoin(a: string, b: string, c: string)
    requires Plain(a) && Plain(b) && Plain(c)
    ensures Plain(a + b + c)
  {
  }

  lemma PdfName(base: string)
    requires Plain(base)
    ensures IsComponent(base + ".pdf")
  {
    assert |base + ".pdf"| > 1;
  }

  /** Where `generate_pdf` writes an article: the output directory, the feed directory (no
      extra level when it is empty), then the PDF file name. It lies strictly below the output
      directory. */
  function OutputPath(outputDir: Path, feedTitle: string, a: Article, date: Instant): (p: Path)
    ensures GetFeedDirectory(feedTitle) == ""
        ==> p == outputDir + [GetOutputFilename(a.entryTitle, date)]
    ensures GetFeedDirectory(feedTitle) != ""
        ==> p == outputDir + [GetFeedDirectory(feedTitle), GetOutputFilename(a.entryTitle, date)]
    ensures |p| > |outputDir| && p[..|outputDir|] == outputDir
    ensures Name(p) == GetOutputFilename(a.entryTitle, date)
  {
    var dir := GetFeedDirectory(feedTitle);
    var name := GetOutputFilename(a.entryTitle, date);
    NamesAreComponents(feedTitle, a.entryTitle, date);
    if dir == "" then
      assert (outputDir + [name])[..|outputDir|] == outputDir;
      outputDir + [name]
    else
      assert (outputDir + [dir, name])[..|outputDir|] == outputDir;
      outputDir + [dir, name]
  }

  /** A PDF in a named feed directory below a directory called `output` is uploaded into
      `folder/<feed directory>`, under its file name without `.pdf`. */
  lemma RemoteKeyOfGenerated(s: Setup, feedTitle: string, a: Article, date: Instant)
    requires s.outputDir != [] && s.outputDir[|s.outputDir| - 1] == "output"
    requires GetFeedDirectory(feedTitle) != ""
    ensures var p := OutputPath(s.outputDir, feedTitle, a, date);
      && InferSubfolder(p) == Some(GetFeedDirectory(feedTitle))
      && RemoteFilePath(s.folder, p, InferSubfolder(p))
         == s.folder + "/" + GetFeedDirectory(feedTitle) + "/" + PdfBase(a.entryTitle, date)
  {
    NamesAreComponents(feedTitle, a.entryTitle, date);
    var dir := GetFeedDirectory(feedTitle);
    var base := PdfBase(a.entryTitle, date);
    var p := OutputPath(s.outputDir, feedTitle, a, date);
    assert p == s.outputDir + [dir, base + ".pdf"];
    InferGeneratedSubfolder(s.outputDir, dir, base + ".pdf");
    assert p == (s.outputDir + [dir]) + [base + ".pdf"];
    RemoteKeyOfPdf(s.folder, s.outputDir + [dir], base, Some(dir));
  }

  // ---------------------------------------------------------------- generate_pdf

  /** The pair `generate_pdf` returns. */
  datatype PdfResult = PdfResult(path: Option<Path>, skipped: bool)

  /** A result and the set of existing PDF paths after it. */
  datatype PdfStep = PdfStep(result: PdfResult, disk: set<Path>)

  /** `generate_pdf`: render first, then the skip-if-exists gate on the output path, then the
      write. Any failure gives `(None, False)`. */
  function GeneratePdfSpec(s: Setup, disk: set<Path>, a: Article, date: Instant, feedTitle: string): PdfStep {
    var render := s.render(a, date);
    if !render.prepared then PdfStep(PdfResult(None, false), disk)
    else
      var path := OutputPath(s.outputDir, feedTitle, a, date);
      if path in disk then PdfStep(PdfResult(Some(path), true), disk)
      else if !render.written then PdfStep(PdfResult(None, false), disk)
      else PdfStep(PdfResult(Some(path), false), disk + {path})
  }

  /** The three outcomes of `generate_pdf`. An existing path is returned as skipped and nothing
      is written; a new path is written and returned; every failure returns no path. Nothing is
      ever removed, and a failure before the gate wins even when the file exists. */
  lemma GeneratePdfOutcomes(s: Setup, disk: set<Path>, a: Article, date: Instant, feedTitle: string)
    ensures var g := GeneratePdfSpec(s, disk, a, date, feedTitle);
      var path := OutputPath(s.outputDir, feedTitle, a, date);
      && (g.result.path.Some? ==> g.result.path.value == path && path in g.disk)
      && (g.result.skipped ==> g.result.path.Some? && path in disk && g.disk == disk)
      && (g.result.path.Some? && !g.result.skipped ==> path !in disk && g.disk == disk + {path})
      && (g.result.path.None? ==> !g.result.skipped && g.disk == disk)
      && (!s.render(a, date).prepared ==> g.result == PdfResult(None, false))
      && (s.render(a, date).prepared && path in disk ==> g == PdfStep(PdfResult(Some(path), true), disk))
      && (s.render(a, date).prepared && s.render(a, date).written && path !in disk
          ==> g == PdfStep(PdfResult(Some(path), false), disk + {path}))
      && (s.render(a, date).prepared && !s.render(a, date).written && path !in disk
          ==> g == PdfStep(PdfResult(None, false), disk))
      && disk <= g.disk && g.disk <= disk + {path}
  {
  }

  /** Local idempotency: with a renderer that prepares, the first call returns a path
      exactly when the PDF already existed or could be written, and then generating it
      again skips it, returns the same path and writes nothing. */
  lemma GeneratePdfTwice(s: Setup, disk: set<Path>, a: Article, date: Instant, feedTitle: string)
    requires s.render(a, date).prepared
    ensures var first := GeneratePdfSpec(s, disk, a, date, feedTitle);
      && (first.result.path.Some?
          <==> OutputPath(s.outputDir, feedTitle, a, date) in disk || s.render(a, date).written)
      && (first.result.path.Some? ==>
            GeneratePdfSpec(s, first.disk, a, date, feedTitle)
            == PdfStep(PdfResult(first.result.path, true), first.disk))
  {
  }

  /** An existing PDF is skipped on every later call, and the file set stays as it was. */
  lemma GeneratePdfExisting(s: Setup, disk: set<Path>, a: Article, date: Instant, feedTitle: string)
    requires s.render(a, date).prepared
    requires OutputPath(s.outputDir, feedTitle, a, date) in disk
    ensures var g := GeneratePdfSpec(s, disk, a, date, feedTitle);
      g == PdfStep(PdfResult(Some(OutputPath(s.outputDir, feedTitle, a, date)), true), disk)
      && GeneratePdfSpec(s, g.disk, a, date, feedTitle) == g
  {
  }

  // ---------------------------------------------------------------- process_feed

  /** The state `process_feed` threads through its entry loop. */
  datatype FeedAcc = FeedAcc(stats: Stats, disk: set<Path>, paths: seq<Path>)

  /** The cutoff on the microsecond time line, or `None` when computing it overflows. */
  function Cutoff(s: Setup): Option<int> {
    GetCutoffTime(s.now, s.recentHours)
  }

  /** `is_entry_recent` as a whole: it computes the cutoff first, so an overflowing cutoff
      escapes from it like an escaping date error. */
  function EntryRecency(s: Setup, e: Entry): Recency {
    match Cutoff(s)
    case None => Recency.Raised
    case Some(cutoff) => IsEntryRecent(e, cutoff)
  }

  /** One iteration of the entry loop. An error escaping from `is_entry_recent` (a date
      error or an overflowing cutoff) counts as a failed PDF; a stale
      or undated entry changes nothing; a recent entry is counted, extracted and rendered. */
  function EntryStep(s: Setup, feedTitle: string, acc: FeedAcc, e: Entry): FeedAcc {
    var st := acc.stats;
    match EntryRecency(s, e)
    case Raised => acc.(stats := st.(pdfsFailed := st.pdfsFailed + 1))
    case Classified(recent, date) =>
      if !recent then acc
      else RecentStep(s, feedTitle, acc, ExtractEntryData(e, feedTitle), date.value)
  }

  /** A recent entry, once extracted, with its resolved date: counted, rendered, and the
      result of `generate_pdf` counted. */
  function RecentStep(s: Setup, feedTitle: string, acc: FeedAcc, a: Article, date: Instant): FeedAcc {
    EntryOutcome(acc.stats.(entriesRecent := acc.stats.entriesRecent + 1),
                 GeneratePdfSpec(s, acc.disk, a, date, feedTitle),
                 acc.paths)
  }

  /** How the result of `generate_pdf` for a recent entry is counted: a returned path is
      collected and counted as skipped or generated, no path counts as a failure. */
  function EntryOutcome(st: Stats, g: PdfStep, paths: seq<Path>): FeedAcc {
    match g.result.path
    case None => FeedAcc(st.(pdfsFailed := st.pdfsFailed + 1), g.disk, paths)
    case Some(p) =>
      if g.result.skipped then FeedAcc(st.(pdfsSkipped := st.pdfsSkipped + 1), g.disk, paths + [p])
      else FeedAcc(st.(pdfsGenerated := st.pdfsGenerated + 1), g.disk, paths + [p])
  }

  /** An entry for which `is_entry_recent` raises counts as one failed PDF. */
  lemma EntryStepRaised(s: Setup, feedTitle: string, acc: FeedAcc, e: Entry)
    requires EntryRecency(s, e).Raised?
    ensures EntryStep(s, feedTitle, acc, e) == acc.(stats := acc.stats.(pdfsFailed := acc.stats.pdfsFailed + 1))
  {
  }

  /** A stale or undated entry changes nothing. */
  lemma EntryStepStale(s: Setup, feedTitle: string, acc: FeedAcc, e: Entry)
    requires EntryRecency(s, e).Classified? && !EntryRecency(s, e).recent
    ensures EntryStep(s, feedTitle, acc, e) == acc
  {
  }

  /** A recent entry always has a date, and goes through `generate_pdf` with it. */
  lemma EntryStepRecent(s: Setup, feedTitle: string, acc: FeedAcc, e: Entry)
    requires EntryRecency(s, e).Classified? && EntryRecency(s, e).recent
    ensures EntryRecency(s, e).date.Some?
    ensures EntryStep(s, feedTitle, acc, e)
         == RecentStep(s, feedTitle, acc, ExtractEntryData(e, feedTitle), EntryRecency(s, e).date.value)
  {
  }

  /** The entry loop over the remaining entries. */
  function RunEntries(s: Setup, feedTitle: string, acc: FeedAcc, entries: seq<Entry>): FeedAcc
    decreases |entries|
  {
    if entries == [] then acc
    else RunEntries(s, feedTitle, EntryStep(s, feedTitle, acc, entries[0]), entries[1..])
  }

  /** One turn of the entry loop, at position `i`. */
  lemma RunEntriesUnfold(s: Setup, feedTitle: string, acc: FeedAcc, entries: seq<Entry>, i: nat)
    requires i < |entries|
    ensures RunEntries(s, feedTitle, acc, entries[i..])
         == RunEntries(s, feedTitle, EntryStep(s, feedTitle, acc, entries[i]), entries[i + 1..])
  {
    assert entries[i..][1..] == entries[i + 1..];
  }

  /** When the window is so wide that the cutoff overflows, every entry of the feed, dated or
      not, counts as one failed PDF, and nothing is rendered or returned. */
  lemma {:induction false} RunEntriesOverflow(s: Setup, feedTitle: string, acc: FeedAcc, entries: seq<Entry>)
    requires Cutoff(s).None?
    ensures RunEntries(s, feedTitle, acc, entries)
         == acc.(stats := acc.stats.(pdfsFailed := acc.stats.pdfsFailed + |entries|))
    decreases |entries|
  {
    if entries != [] {
      EntryStepRaised(s, feedTitle, acc, entries[0]);
      RunEntriesOverflow(s, feedTitle, EntryStep(s, feedTitle, acc, entries[0]), entries[1..]);
    }
  }

  /** The counters of the entry loop that only the entry loop changes. */
  predicate SameFeedCounters(a: Stats, b: Stats) {
    && a.feedsProcessed == b.feedsProcessed && a.feedsFailed == b.feedsFailed
    && a.entriesFound == b.entriesFound
    && a.remarkableUploaded == b.remarkableUploaded
    && a.remarkableSkipped == b.remarkableSkipped
    && a.remarkableFailed == b.remarkableFailed
  }

  /** The growth of the per-entry counters from `a` to `b` is the one `n` entries can cause:
      every returned path was generated or skipped, every generated or skipped PDF came from a
      recent entry, and each entry adds at most one to generated, skipped or failed. */
  ghost predicate EntryGrowth(a: FeedAcc, b: FeedAcc, n: nat, outputDir: Path) {
    && SameFeedCounters(a.stats, b.stats)
    && b.stats.pdfsGenerated >= a.stats.pdfsGenerated
    && b.stats.pdfsSkipped >= a.stats.pdfsSkipped
    && b.stats.pdfsFailed >= a.stats.pdfsFailed
    && b.stats.entriesRecent >= a.stats.entriesRecent
    && |b.paths| >= |a.paths| && b.paths[..|a.paths|] == a.paths
    && (b.stats.pdfsGenerated + b.stats.pdfsSkipped) - (a.stats.pdfsGenerated + a.stats.pdfsSkipped)
       == |b.paths| - |a.paths|
    && |b.paths| - |a.paths| <= b.stats.entriesRecent - a.stats.entriesRecent
    && (b.stats.pdfsGenerated + b.stats.pdfsSkipped + b.stats.pdfsFailed)
       - (a.stats.pdfsGenerated + a.stats.pdfsSkipped + a.stats.pdfsFailed) <= n
    && b.stats.entriesRecent - a.stats.entriesRecent <= n
    && a.disk <= b.disk
    && (forall i :: |a.paths| <= i < |b.paths| ==> |b.paths[i]| > |outputDir| && b.paths[i][..|outputDir|] == outputDir)
  }

  /** Counting the result of `generate_pdf` for one recent entry grows the counters like
      one entry may. */
  lemma EntryOutcomeGrowth(acc: FeedAcc, g: PdfStep, outputDir: Path)
    requires acc.disk <= g.disk
    requires g.result.path.Some? ==>
      |g.result.path.value| > |outputDir| && g.result.path.value[..|outputDir|] == outputDir
    ensures EntryGrowth(acc, EntryOutcome(acc.stats.(entriesRecent := acc.stats.entriesRecent + 1), g, acc.paths), 1, outputDir)
  {
    if g.result.path.Some? {
      var p := g.result.path.value;
      assert (acc.paths + [p])[..|acc.paths|] == acc.paths;
      assert (acc.paths + [p])[|acc.paths|] == p;
    }
  }

  /** A recent entry grows the counters like one entry may. */
  lemma RecentStepGrowth(s: Setup, feedTitle: string, acc: FeedAcc, a: Article, date: Instant)
    ensures EntryGrowth(acc, RecentStep(s, feedTitle, acc, a, date), 1, s.outputDir)
  {
    GeneratePdfOutcomes(s, acc.disk, a, date, feedTitle);
    EntryOutcomeGrowth(acc, GeneratePdfSpec(s, acc.disk, a, date, feedTitle), s.outputDir);
  }

  /** One entry: a stale or undated entry changes nothing at all. */
  lemma EntryStepCounts(s: Setup, feedTitle: string, acc: FeedAcc, e: Entry)
    ensures EntryGrowth(acc, EntryStep(s, feedTitle, acc, e), 1, s.outputDir)
    ensures var c := EntryRecency(s, e);
      c.Classified? && !c.recent ==> EntryStep(s, feedTitle, acc, e) == acc
  {
    var c := EntryRecency(s, e);
    if c.Raised? {
      EntryStepRaised(s, feedTitle, acc, e);
      assert acc.paths[..|acc.paths|] == acc.paths;
    } else if c.recent {
      EntryStepRecent(s, feedTitle, acc, e);
      RecentStepGrowth(s, feedTitle, acc, ExtractEntryData(e, feedTitle), c.date.value);
    } else {
      EntryStepStale(s, feedTitle, acc, e);
      assert acc.paths[..|acc.paths|] == acc.paths;
    }
  }

  /** Growth composes: two consecutive stretches of the loop grow like their total length. */
  lemma EntryGrowthTrans(a: FeedAcc, b: FeedAcc, c: FeedAcc, m: nat, n: nat, outputDir: Path)
    requires EntryGrowth(a, b, m, outputDir) && EntryGrowth(b, c, n, outputDir)
    ensures EntryGrowth(a, c, m + n, outputDir)
  {
    assert c.paths[..|a.paths|] == c.paths[..|b.paths|][..|a.paths|];
    forall i | |a.paths| <= i < |c.paths|
      ensures |c.paths[i]| > |outputDir| && c.paths[i][..|outputDir|] == outputDir
    {
      if i < |b.paths| {
        assert c.paths[i] == c.paths[..|b.paths|][i];
      }
    }
  }

  /** The counting rules of the entry loop, for any number of entries. */
  lemma {:induction false} RunEntriesCounts(s: Setup, feedTitle: string, acc: FeedAcc, entries: seq<Entry>)
    ensures EntryGrowth(acc, RunEntries(s, feedTitle, acc, entries), |entries|, s.outputDir)
    decreases |entries|
  {
    if entries == [] {
      assert acc.paths[..|acc.paths|] == acc.paths;
    } else {
      var next := EntryStep(s, feedTitle, acc, entries[0]);
      EntryStepCounts(s, feedTitle, acc, entries[0]);
      RunEntriesCounts(s, feedTitle, next, entries[1..]);
      EntryGrowthTrans(acc, next, RunEntries(s, feedTitle, next, entries[1..]), 1, |entries| - 1, s.outputDir);
    }
  }

  /** What `process_feed` returns and leaves behind; `raised` when it escapes with an
      exception. */
  datatype FeedOutcome = FeedOutcome(stats: Stats, disk: set<Path>, paths: seq<Path>, raised: bool)

  /** `process_feed`: a failed fetch counts a failed feed and returns nothing; otherwise the
      feed is counted as processed, its entries as found, and the entry loop runs. */
  function ProcessFeedSpec(s: Setup, st: Stats, disk: set<Path>, url: string): FeedOutcome {
    match s.fetch(url)
    case Unreachable => FeedOutcome(st.(feedsFailed := st.feedsFailed + 1), disk, [], false)
    case Broken => FeedOutcome(st.(feedsProcessed := st.feedsProcessed + 1), disk, [], true)
    case Fetched(feed) =>
      var st1 := st.(feedsProcessed := st.feedsProcessed + 1,
                     entriesFound := st.entriesFound + |feed.entries|);
      var r := RunEntries(s, feed.title.GetOr("Unknown Feed"), FeedAcc(st1, disk, []), feed.entries);
      FeedOutcome(r.stats, r.disk, r.paths, false)
  }

  /** What every call of `process_feed` keeps: exactly one of the processed and failed feed
      counters grows by one, the PDF counters only grow, the reMarkable counters stay, no PDF
      disappears, and every returned path lies below the output directory. */
  ghost predicate FeedGrowth(st: Stats, r: FeedOutcome, outputDir: Path) {
    && r.stats.feedsProcessed + r.stats.feedsFailed == st.feedsProcessed + st.feedsFailed + 1
    && r.stats.pdfsGenerated >= st.pdfsGenerated && r.stats.pdfsSkipped >= st.pdfsSkipped
    && r.stats.pdfsFailed >= st.pdfsFailed
    && r.stats.remarkableUploaded == st.remarkableUploaded
    && r.stats.remarkableSkipped == st.remarkableSkipped
    && r.stats.remarkableFailed == st.remarkableFailed
    && (r.stats.pdfsGenerated + r.stats.pdfsSkipped) - (st.pdfsGenerated + st.pdfsSkipped) == |r.paths|
    && (forall i :: 0 <= i < |r.paths| ==> |r.paths[i]| > |outputDir| && r.paths[i][..|outputDir|] == outputDir)
  }

  /** The counting rules of `process_feed` for a fetched feed: one processed feed, its entry
      count, and as many returned paths as PDFs it counted as generated or skipped, at most
      one per recent entry. */
  lemma ProcessFeedFetched(s: Setup, st: Stats, disk: set<Path>, url: string)
    requires s.fetch(url).Fetched?
    ensures var r := ProcessFeedSpec(s, st, disk, url);
      && !r.raised
      && r.stats.feedsProcessed == st.feedsProcessed + 1
      && r.stats.feedsFailed == st.feedsFailed
      && r.stats.entriesFound == st.entriesFound + |s.fetch(url).feed.entries|
      && |r.paths| <= r.stats.entriesRecent - st.entriesRecent <= |s.fetch(url).feed.entries|
      && FeedGrowth(st, r, s.outputDir)
      && disk <= r.disk
  {
    var feed := s.fetch(url).feed;
    var st1 := st.(feedsProcessed := st.feedsProcessed + 1,
                   entriesFound := st.entriesFound + |feed.entries|);
    var start := FeedAcc(st1, disk, []);
    var e := RunEntries(s, feed.title.GetOr("Unknown Feed"), start, feed.entries);
    RunEntriesCounts(s, feed.title.GetOr("Unknown Feed"), start, feed.entries);
    assert ProcessFeedSpec(s, st, disk, url) == FeedOutcome(e.stats, e.disk, e.paths, false);
  }

  /** The counting rules of `process_feed`. A failed fetch adds one failed feed and nothing
      else; a broken feed is counted as processed and then raises; a fetched feed obeys
      `ProcessFeedFetched`. */
  lemma ProcessFeedCounts(s: Setup, st: Stats, disk: set<Path>, url: string)
    ensures var r := ProcessFeedSpec(s, st, disk, url);
      && (s.fetch(url).Unreachable? ==> r == FeedOutcome(st.(feedsFailed := st.feedsFailed + 1), disk, [], false))
      && (s.fetch(url).Broken? ==> r == FeedOutcome(st.(feedsProcessed := st.feedsProcessed + 1), disk, [], true))
      && (r.raised <==> s.fetch(url).Broken?)
      && FeedGrowth(st, r, s.outputDir)
      && disk <= r.disk
  {
    if s.fetch(url).Fetched? {
      ProcessFeedFetched(s, st, disk, url);
    }
  }

  // ---------------------------------------------------------------- process_all_feeds

  /** The state `process_all_feeds` threads through its feed loop. */
  datatype RunAcc = RunAcc(stats: Stats, disk: set<Path>, pdfs: seq<Path>)

  /** One iteration of the feed loop: an exception out of `process_feed` counts a failed feed
      and contributes no paths. */
  function FeedStep(s: Setup, acc: RunAcc, url: string): RunAcc {
    var r := ProcessFeedSpec(s, acc.stats, acc.disk, url);
    if r.raised then RunAcc(r.stats.(feedsFailed := r.stats.feedsFailed + 1), r.disk, acc.pdfs)
    else RunAcc(r.stats, r.disk, acc.pdfs + r.paths)
  }

  function RunFeeds(s: Setup, acc: RunAcc, urls: seq<string>): RunAcc
    decreases |urls|
  {
    if urls == [] then acc else RunFeeds(s, FeedStep(s, acc, urls[0]), urls[1..])
  }

  /** The feed loop: every feed raises processed plus failed by at least one, so a failing
      feed never stops the later ones; the batch grows by as many paths as PDFs counted as
      generated or skipped; the reMarkable counters are untouched. */
  lemma {:induction false} RunFeedsCounts(s: Setup, acc: RunAcc, urls: seq<string>)
    ensures var r := RunFeeds(s, acc, urls);
      && r.stats.feedsProcessed + r.stats.feedsFailed >= acc.stats.feedsProcessed + acc.stats.feedsFailed + |urls|
      && (r.stats.pdfsGenerated + r.stats.pdfsSkipped) - (acc.stats.pdfsGenerated + acc.stats.pdfsSkipped)
         == |r.pdfs| - |acc.pdfs|
      && r.stats.pdfsGenerated >= acc.stats.pdfsGenerated && r.stats.pdfsSkipped >= acc.stats.pdfsSkipped
      && r.stats.pdfsFailed >= acc.stats.pdfsFailed
      && r.stats.remarkableUploaded == acc.stats.remarkableUploaded
      && r.stats.remarkableSkipped == acc.stats.remarkableSkipped
      && r.stats.remarkableFailed == acc.stats.remarkableFailed
      && acc.disk <= r.disk
    decreases |urls|
  {
    if urls != [] {
      ProcessFeedCounts(s, acc.stats, acc.disk, urls[0]);
      RunFeedsCounts(s, FeedStep(s, acc, urls[0]), urls[1..]);
    }
  }

  /** When every fetch fails, the feed loop counts one failed feed per URL and nothing else. */
  lemma {:induction false} RunFeedsAllUnreachable(s: Setup, acc: RunAcc, urls: seq<string>)
    requires forall i :: 0 <= i < |urls| ==> s.fetch(urls[i]).Unreachable?
    ensures RunFeeds(s, acc, urls)
         == acc.(stats := acc.stats.(feedsFailed := acc.stats.feedsFailed + |urls|))
    decreases |urls|
  {
    if urls != [] {
      assert s.fetch(urls[0]).Unreachable?;
      RunFeedsAllUnreachable(s, FeedStep(s, acc, urls[0]), urls[1..]);
    }
  }

  /** What a whole run leaves behind: the counters, the existing PDFs and the `rmapi`
      transcript. */
  datatype RunOutcome = RunOutcome(stats: Stats, disk: set<Path>, log: seq<Command>)

  /** `process_all_feeds`: fresh counters; no feeds means nothing else happens; otherwise the
      feed loop, then one upload of the batch when it is non-empty, whose three counters are
      copied into the statistics. */
  function RunAll(s: Setup, disk: set<Path>, log: seq<Command>, feedsFile: Option<seq<string>>): RunOutcome {
    var feeds := LoadFeeds(feedsFile);
    if feeds == [] then RunOutcome(ZeroStats, disk, log)
    else
      var r := RunFeeds(s, RunAcc(ZeroStats, disk, []), feeds);
      if r.pdfs == [] then RunOutcome(r.stats, r.disk, log)
      else
        var up := UploadPdfsSpec(s.rmapi, log, s.folder, r.pdfs);
        RunOutcome(r.stats.(remarkableUploaded := up.value.uploaded,
                            remarkableSkipped := up.value.skipped,
                            remarkableFailed := up.value.failed),
                   r.disk, up.log)
  }

  /** The run-level promises. With no feeds the counters are all zero and `rmapi` is never
      called. Every feed is counted as processed or failed. The uploader is called only for a
      non-empty batch, and the batch is every PDF generated or skipped, so the three
      reMarkable counters always add up to generated plus skipped. */
  lemma RunAllCounts(s: Setup, disk: set<Path>, log: seq<Command>, feedsFile: Option<seq<string>>)
    ensures var r := RunAll(s, disk, log, feedsFile);
      var feeds := LoadFeeds(feedsFile);
      && (feeds == [] ==> r == RunOutcome(ZeroStats, disk, log))
      && r.stats.feedsProcessed + r.stats.feedsFailed >= |feeds|
      && r.stats.remarkableUploaded + r.stats.remarkableSkipped + r.stats.remarkableFailed
         == r.stats.pdfsGenerated + r.stats.pdfsSkipped
      && (r.stats.pdfsGenerated + r.stats.pdfsSkipped == 0 ==> r.log == log)
      && |r.log| >= |log| && r.log[..|log|] == log
      && disk <= r.disk
  {
    var feeds := LoadFeeds(feedsFile);
    if feeds != [] {
      RunFeedsCounts(s, RunAcc(ZeroStats, disk, []), feeds);
      var r := RunFeeds(s, RunAcc(ZeroStats, disk, []), feeds);
      if r.pdfs != [] {
        UploadPdfsCounts(s.rmapi, log, s.folder, r.pdfs);
      } else {
        assert log[..|log|] == log;
      }
    } else {
      assert log[..|log|] == log;
    }
  }

  /** The reMarkable counters of a run are the three counts `upload_pdfs` returns for the
      batch of the feed loop, and the transcript is the uploader's; an empty batch leaves
      them zero and calls no `rmapi` command. */
  lemma RunAllUploadCounters(s: Setup, disk: set<Path>, log: seq<Command>, feedsFile: Option<seq<string>>)
    requires LoadFeeds(feedsFile) != []
    ensures var b := RunFeeds(s, RunAcc(ZeroStats, disk, []), LoadFeeds(feedsFile));
      var r := RunAll(s, disk, log, feedsFile);
      var up := UploadPdfsSpec(s.rmapi, log, s.folder, b.pdfs);
      && (b.pdfs != [] ==>
            && r.stats.remarkableUploaded == up.value.uploaded
            && r.stats.remarkableSkipped == up.value.skipped
            && r.stats.remarkableFailed == up.value.failed
            && r.log == up.log)
      && (b.pdfs == [] ==>
            r.stats.remarkableUploaded == r.stats.remarkableSkipped == r.stats.remarkableFailed == 0
            && r.log == log)
      && r.stats.(remarkableUploaded := 0, remarkableSkipped := 0, remarkableFailed := 0)
         == b.stats
  {
    RunFeedsCounts(s, RunAcc(ZeroStats, disk, []), LoadFeeds(feedsFile));
  }

  // ---------------------------------------------------------------- exit code

  /** The exit code of `main`: `None` is a run that raised. 1 when the run failed or every PDF
      failed, else 2 when some feed failed, else 0. */
  function ExitCode(run: Option<Stats>): (code: int)
    ensures code in {0, 1, 2}
    ensures code == 1 <==> run.None? || (run.value.pdfsFailed > 0 && run.value.pdfsGenerated == 0)
    ensures code == 2 <==> run.Some? && !(run.value.pdfsFailed > 0 && run.value.pdfsGenerated == 0)
                                     && run.value.feedsFailed > 0
  {
    match run
    case None => 1
    case Some(st) =>
      if st.pdfsFailed > 0 && st.pdfsGenerated == 0 then 1
      else if st.feedsFailed > 0 then 2
      else 0
  }

  /** A missing or unreadable feeds file is not an error for the exit code: the run ends with
      zero counters, no `rmapi` call, and exit code 0. */
  lemma MissingFeedsFileExitsZero(s: Setup, disk: set<Path>, log: seq<Command>)
    ensures RunAll(s, disk, log, None) == RunOutcome(ZeroStats, disk, log)
    ensures ExitCode(Some(RunAll(s, disk, log, None).stats)) == 0
  {
  }

  /** When at least one feed is listed and every fetch fails, the run exits with 2. */
  lemma AllFetchesFailExitTwo(s: Setup, disk: set<Path>, log: seq<Command>, lines: seq<string>)
    requires FeedUrls(lines) != []
    requires forall i :: 0 <= i < |FeedUrls(lines)| ==> s.fetch(FeedUrls(lines)[i]).Unreachable?
    ensures var r := RunAll(s, disk, log, Some(lines));
      r.stats == ZeroStats.(feedsFailed := |FeedUrls(lines)|) && r.log == log && ExitCode(Some(r.stats)) == 2
  {
    RunFeedsAllUnreachable(s, RunAcc(ZeroStats, disk, []), FeedUrls(lines));
  }

  // ---------------------------------------------------------------- main

  /** The `TEMPLATE_FILE` attribute that the processor's constructor looks up on `Config`:
      undefined on the class, or defined with a value (`None` for the template directory). */
  datatype TemplateAttr = Undefined | Defined(file: Option<string>)

  /** `Config` as written defines no `TEMPLATE_FILE`. */
  const WrittenTemplate: TemplateAttr := Undefined

  /** `main` after the argument overrides: construct the processor, run, pick the exit code.
      After setting up logging and directories the constructor reads the template attribute,
      and an undefined one raises; `main` turns any exception into exit code 1. */
  function Main(template: TemplateAttr, s: Setup, disk: set<Path>, log: seq<Command>,
                feedsFile: Option<seq<string>>): (code: int)
    ensures template.Undefined? ==> code == 1
    ensures template.Defined? && LoadFeeds(feedsFile) == [] ==> code == 0
    ensures code in {0, 1, 2}
  {
    if template.Undefined? then ExitCode(None)
    else ExitCode(Some(RunAll(s, disk, log, feedsFile).stats))
  }

  /** As written, every run exits with 1, even one whose feeds file is missing and that
      would otherwise do nothing and exit with 0. */
  lemma MainAsWrittenExitsOne(s: Setup, disk: set<Path>, log: seq<Command>, feedsFile: Option<seq<string>>)
    ensures Main(WrittenTemplate, s, disk, log, feedsFile) == 1
    ensures Main(WrittenTemplate, s, disk, log, None) != Main(Defined(None), s, disk, log, None)
  {
  }

  /** With the attribute defined, `main` exits with the code the counters of the run call for:
      0 for a missing feeds file, 2 when every listed feed is unreachable. */
  lemma MainExitCode(file: Option<string>, s: Setup, disk: set<Path>, log: seq<Command>, feedsFile: Option<seq<string>>)
    ensures Main(Defined(file), s, disk, log, feedsFile) == ExitCode(Some(RunAll(s, disk, log, feedsFile).stats))
    ensures Main(Defined(file), s, disk, log, None) == 0
    ensures feedsFile.Some? && FeedUrls(feedsFile.value) != []
        && (forall i :: 0 <= i < |FeedUrls(feedsFile.value)| ==> s.fetch(FeedUrls(feedsFile.value)[i]).Unreachable?)
        ==> Main(Defined(file), s, disk, log, feedsFile) == 2
  {
    MissingFeedsFileExitsZero(s, disk, log);
    if feedsFile.Some? && FeedUrls(feedsFile.value) != []
       && (forall i :: 0 <= i < |FeedUrls(feedsFile.value)| ==> s.fetch(FeedUrls(feedsFile.value)[i]).Unreachable?) {
      AllFetchesFailExitTwo(s, disk, log, feedsFile.value);
    }
  }

  // ---------------------------------------------------------------- the processor object

  /** `AtomFeedProcessor`: the counters of `self.stats` as fields, the existing PDFs and the
      `rmapi` transcript. */
  class AtomFeedProcessor {
    const setup: Setup
    /** `self.stats`. */
    var stats: Stats
    /** The PDF paths that exist locally. */
    var disk: set<Path>
    /** Every `rmapi` invocation so far. */
    var transcript: seq<Command>

    constructor (setup: Setup, disk: set<Path>)
      ensures this.setup == setup && this.disk == disk && transcript == []
      ensures stats == ZeroStats
    {
      this.setup := setup;
      stats := ZeroStats;
      this.disk := disk;
      transcript := [];
    }

    /** `generate_pdf`. */
    method GeneratePdf(a: Article, date: Instant, feedTitle: string) returns (path: Option<Path>, skipped: bool)
      modifies this`disk
      ensures PdfStep(PdfResult(path, skipped), disk) == GeneratePdfSpec(setup, old(disk), a, date, feedTitle)
    {
      var render := setup.render(a, date);
      if !render.prepared {
        return None, false;
      }
      var p := OutputPath(setup.outputDir, feedTitle, a, date);
      if p in disk {
        return Some(p), true;
      }
      if !render.written {
        return None, false;
      }
      disk := disk + {p};
      return Some(p), false;
    }

    /** The counting that follows `generate_pdf` for a recent entry; returns the path to
        collect, if any. */
    method CountPdf(path: Option<Path>, wasSkipped: bool, ghost paths: seq<Path>) returns (made: Option<Path>)
      modifies this`stats
      ensures FeedAcc(stats, disk, if made.Some? then paths + [made.value] else paths)
           == EntryOutcome(old(stats), PdfStep(PdfResult(path, wasSkipped), disk), paths)
    {
      made := path;
      if path.Some? {
        if wasSkipped {
          stats := stats.(pdfsSkipped := stats.pdfsSkipped + 1);
        } else {
          stats := stats.(pdfsGenerated := stats.pdfsGenerated + 1);
        }
      } else {
        stats := stats.(pdfsFailed := stats.pdfsFailed + 1);
      }
    }

    /** One pass of the entry loop of `process_feed`: classify, extract, render, count. It
        returns the path `generate_pdf` gave, if any. */
    method ProcessEntry(entry: Entry, feedTitle: string, ghost paths: seq<Path>) returns (made: Option<Path>)
      modifies this
      ensures FeedAcc(stats, disk, if made.Some? then paths + [made.value] else paths)
           == EntryStep(setup, feedTitle, FeedAcc(old(stats), old(disk), paths), entry)
      ensures transcript == old(transcript)
    {
      ghost var acc := FeedAcc(stats, disk, paths);
      made := None;
      var recency := EntryRecency(setup, entry);
      if recency.Raised? {
        EntryStepRaised(setup, feedTitle, acc, entry);
        stats := stats.(pdfsFailed := stats.pdfsFailed + 1);
      } else if !recency.recent {
        EntryStepStale(setup, feedTitle, acc, entry);
      } else {
        EntryStepRecent(setup, feedTitle, acc, entry);
        var data := ExtractEntryData(entry, feedTitle);
        made := ProcessRecent(data, feedTitle, recency.date.value, paths);
      }
    }

    /** The recent-entry branch of the entry loop, after extraction: count, render, count the
        result. */
    method ProcessRecent(data: Article, feedTitle: string, date: Instant, ghost paths: seq<Path>) returns (made: Option<Path>)
      modifies this`stats, this`disk
      ensures FeedAcc(stats, disk, if made.Some? then paths + [made.value] else paths)
           == RecentStep(setup, feedTitle, FeedAcc(old(stats), old(disk), paths), data, date)
    {
      stats := stats.(entriesRecent := stats.entriesRecent + 1);
      var path, wasSkipped := GeneratePdf(data, date, feedTitle);
      made := CountPdf(path, wasSkipped, paths);
    }

    /** The entry loop of `process_feed` over the entries of one feed. */
    method ProcessEntries(entries: seq<Entry>, feedTitle: string) returns (count: nat, paths: seq<Path>)
      modifies this
      ensures FeedAcc(stats, disk, paths) == RunEntries(setup, feedTitle, FeedAcc(old(stats), old(disk), []), entries)
      ensures count == |paths|
      ensures transcript == old(transcript)
    {
      count, paths := 0, [];
      var i := 0;
      while i < |entries|
        invariant 0 <= i <= |entries|
        invariant count == |paths|
        invariant transcript == old(transcript)
        invariant RunEntries(setup, feedTitle, FeedAcc(stats, disk, paths), entries[i..])
               == RunEntries(setup, feedTitle, FeedAcc(old(stats), old(disk), []), entries)
      {
        RunEntriesUnfold(setup, feedTitle, FeedAcc(stats, disk, paths), entries, i);
        var made := ProcessEntry(entries[i], feedTitle, paths);
        if made.Some? {
          count := count + 1;
          paths := paths + [made.value];
        }
        i := i + 1;
      }
      assert entries[i..] == [];
    }

    /** `process_feed`; `raised` reports the exception it lets escape. */
    method ProcessFeed(url: string) returns (count: nat, paths: seq<Path>, raised: bool)
      modifies this
      ensures var r := ProcessFeedSpec(setup, old(stats), old(disk), url);
        stats == r.stats && disk == r.disk && paths == r.paths && raised == r.raised
      ensures count == |paths|
      ensures transcript == old(transcript)
    {
      var fetched := setup.fetch(url);
      if fetched.Unreachable? {
        stats := stats.(feedsFailed := stats.feedsFailed + 1);
        return 0, [], false;
      }
      stats := stats.(feedsProcessed := stats.feedsProcessed + 1);
      if fetched.Broken? {
        return 0, [], true;
      }
      var feed := fetched.feed;
      stats := stats.(entriesFound := stats.entriesFound + |feed.entries|);
      count, paths := ProcessEntries(feed.entries, feed.title.GetOr("Unknown Feed"));
      raised := false;
    }

    /** `process_all_feeds`, given the lines of the feeds file (`None` when the file is missing
      or unreadable); returns the final counters. */
    method ProcessAllFeeds(feedsFile: Option<seq<string>>) returns (result: Stats)
      modifies this
      ensures var r := RunAll(setup, old(disk), old(transcript), feedsFile);
        result == stats == r.stats && disk == r.disk && transcript == r.log
    {
      stats := ZeroStats;
      var feeds := LoadFeeds(feedsFile);
      if feeds == [] {
        return stats;
      }
      var generated: seq<Path> := [];
      var total := 0;
      ghost var start := RunAcc(ZeroStats, disk, []);
      var i := 0;
      while i < |feeds|
        invariant 0 <= i <= |feeds|
        invariant total == |generated|
        invariant transcript == old(transcript)
        invariant RunFeeds(setup, RunAcc(stats, disk, generated), feeds[i..])
               == RunFeeds(setup, start, feeds)
      {
        ghost var before := RunAcc(stats, disk, generated);
        assert feeds[i..][1..] == feeds[i + 1..];
        var count, paths, raised := ProcessFeed(feeds[i]);
        if raised {
          stats := stats.(feedsFailed := stats.feedsFailed + 1);
        } else {
          total := total + count;
          generated := generated + paths;
        }
        assert RunAcc(stats, disk, generated) == FeedStep(setup, before, feeds[i]);
        i := i + 1;
      }
      assert feeds[i..] == [];
      if generated != [] {
        var tally, log := UploadPdfs(setup.rmapi, transcript, setup.folder, generated);
        stats := stats.(remarkableUploaded := tally.uploaded,
                        remarkableSkipped := tally.skipped,
                        remarkableFailed := tally.failed);
        transcript := log;
      }
      result := stats;
    }
  }
}
