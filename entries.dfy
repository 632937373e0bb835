/**
 * What the processor decides about one feed entry: its publication date (a three-step
 * fallback chain), whether it falls inside the recency window, and the article record handed
 * to the renderer (a content fallback chain, defaults, and the HTML clean-up).
 *
 * An entry is the parsed view the feed library delivers. The free-text date parser is not
 * modelled; its outcome for the entry's `published` text is part of the entry.
 */
module Entries {
  import opened Wrappers
  import opened PyText
  import opened Calendar
  import opened Fallback
  import opened Sanitizer

  /** The first six fields of a `time.struct_time` (`published_parsed`, `updated_parsed`). */
  datatype StructTime = StructTime(year: int, month: int, day: int,
                                   hour: int, minute: int, second: int)

  /** What the free-text date parser makes of an entry's `published` text. */
  datatype FreeText =
    | Absent              // the entry has no `published` attribute
    | Unparsable          // the parser raises ValueError or TypeError
    | Overflow            // the parser raises OverflowError, which is not caught
    | Parsed(value: Instant)  // a datetime, with any time zone already dropped

  /** A feed entry as the feed library exposes it; `None` means the attribute is missing. */
  datatype Entry = Entry(
    title: Option<string>,
    publishedParsed: Option<StructTime>,
    published: FreeText,
    updatedParsed: Option<StructTime>,
    content: seq<Html>,
    summary: Option<Html>,
    description: Option<Html>,
    author: Option<string>,
    link: Option<string>,
    id: Option<string>)

  // ---------------------------------------------------------------- publication date

  /** The range of a C `int`, into which `datetime()` converts each of its arguments: a value
      outside it raises OverflowError before any range check. */
  const CIntMin := -0x8000_0000
  const CIntLimit := 0x8000_0000

  predicate FitsCInt(x: int) { CIntMin <= x < CIntLimit }

  /** Every field of the tuple converts to a C `int`. */
  predicate FitsCInts(t: StructTime) {
    FitsCInt(t.year) && FitsCInt(t.month) && FitsCInt(t.day)
    && FitsCInt(t.hour) && FitsCInt(t.minute) && FitsCInt(t.second)
  }

  /** `datetime(*t[:6])` for a tuple whose fields fit a C `int`: a `datetime` with
      microsecond 0, or ValueError when a field is out of range (a leap second of 60
      included). A field beyond a C `int` is `StructAttempt`'s OverflowError. */
  function FromStruct(t: StructTime): (r: Option<Instant>)
    ensures r.Some? <==> Valid(DateTime(t.year, t.month, t.day, t.hour, t.minute, t.second, 0))
    ensures r.Some? ==> r.value.microsecond == 0 && TimeTuple(r.value) == t
  {
    var d := DateTime(t.year, t.month, t.day, t.hour, t.minute, t.second, 0);
    if Valid(d) then Some(d) else None
  }

  /** `d.timetuple()[:6]`. */
  function TimeTuple(d: Instant): StructTime {
    StructTime(d.year, d.month, d.day, d.hour, d.minute, d.second)
  }

  /** Converting a datetime to a time tuple and back loses only the microseconds. */
  lemma FromStructTimeTuple(d: Instant)
    ensures FromStruct(TimeTuple(d)) == Some(d.(microsecond := 0))
  {
  }

  /** One structured date source: missing, or a ValueError in the conversion, lets the chain
      go on; a field beyond a C `int` raises OverflowError, which the handler does not catch. */
  function StructAttempt(t: Option<StructTime>): (r: Attempt<Instant>)
    ensures r.Crashed? <==> t.Some? && !FitsCInts(t.value)
    ensures r.Got? <==> t.Some? && FromStruct(t.value).Some?
    ensures r.Got? ==> r.value == FromStruct(t.value).value
  {
    match t
    case None => Missed
    case Some(st) =>
      if !FitsCInts(st) then Crashed
      else if FromStruct(st).Some? then Got(FromStruct(st).value)
      else Missed
  }

  /** The free-text source: a caught parser error lets the chain go on, an overflow escapes. */
  function FreeTextAttempt(p: FreeText): (r: Attempt<Instant>)
    ensures r.Crashed? <==> p.Overflow?
    ensures r.Got? <==> p.Parsed?
    ensures r.Got? ==> r.value == p.value
  {
    match p
    case Absent => Missed
    case Unparsable => Missed
    case Overflow => Crashed
    case Parsed(d) => Got(d)
  }

  /** The three date sources in the order they are consulted. */
  function DateAttempts(e: Entry): seq<Attempt<Instant>> {
    [StructAttempt(e.publishedParsed), FreeTextAttempt(e.published), StructAttempt(e.updatedParsed)]
  }

  /** The date chain of `is_entry_recent`, step by step: `published_parsed`, then the free text
      of `published`, then `updated_parsed`. It is the first success of the three sources. */
  function ResolveDate(e: Entry): (r: Attempt<Instant>)
    ensures r == FirstSuccess(DateAttempts(e))
  {
    var first := StructAttempt(e.publishedParsed);
    var second := FreeTextAttempt(e.published);
    var third := StructAttempt(e.updatedParsed);
    var xs := DateAttempts(e);
    if !first.Missed? then
      FirstSuccessAt(xs, 0);
      first
    else if !second.Missed? then
      FirstSuccessAt(xs, 1);
      second
    else if !third.Missed? then
      FirstSuccessAt(xs, 2);
      third
    else
      third
  }

  /** A later source is consulted only when every earlier one is missing or fails to convert
      with a caught error: once a source decides, changing the later ones does not change the
      result. The chain escapes with an error exactly when the first source that does not miss
      overflows: a structured date beyond a C `int`, or the free-text parser's OverflowError. */
  lemma LaterDateSourcesIgnored(e: Entry, published: FreeText, updated: Option<StructTime>)
    ensures !StructAttempt(e.publishedParsed).Missed?
        ==> ResolveDate(e.(published := published, updatedParsed := updated)) == ResolveDate(e)
    ensures !FreeTextAttempt(e.published).Missed?
        ==> ResolveDate(e.(updatedParsed := updated)) == ResolveDate(e)
    ensures ResolveDate(e).Crashed? <==>
      || (e.publishedParsed.Some? && !FitsCInts(e.publishedParsed.value))
      || (StructAttempt(e.publishedParsed).Missed? && e.published.Overflow?)
      || (StructAttempt(e.publishedParsed).Missed? && FreeTextAttempt(e.published).Missed?
          && e.updatedParsed.Some? && !FitsCInts(e.updatedParsed.value))
  {
  }

  /** A `published_parsed` year one past a C `int` escapes `is_entry_recent`, whatever the
      other sources hold. */
  lemma WideYearEscapes(e: Entry)
    requires e.publishedParsed == Some(StructTime(CIntLimit, 1, 1, 0, 0, 0))
    ensures ResolveDate(e).Crashed?
  {
  }

  /** The result of `is_entry_recent`: the flag and the resolved date, or the escaping error. */
  datatype Recency = Classified(recent: bool, date: Option<Instant>) | Raised

  /** `is_entry_recent` against a cutoff on the microsecond time line. */
  function IsEntryRecent(e: Entry, cutoff: int): (r: Recency)
    ensures r.Raised? <==> ResolveDate(e).Crashed?
    ensures r.Classified? && r.date.None? ==> !r.recent
    ensures r.Classified? ==> (r.date.Some? <==> ResolveDate(e).Got?)
  {
    match ResolveDate(e)
    case Crashed => Raised
    case Missed => Classified(false, None)
    case Got(d) => Classified(Micros(d) > cutoff, Some(d))
  }

  /** An entry counts as recent exactly when its resolved date lies strictly after the cutoff,
      in Python's own datetime order. A date equal to the cutoff is not recent. */
  lemma RecentIffAfterCutoff(e: Entry, cutoff: Instant)
    ensures IsEntryRecent(e, Micros(cutoff)).Classified? && IsEntryRecent(e, Micros(cutoff)).recent
        <==> ResolveDate(e).Got? && Before(cutoff, ResolveDate(e).value)
  {
    if ResolveDate(e).Got? {
      MicrosOrderIsChronological(cutoff, ResolveDate(e).value);
    }
  }

  /** With the cutoff `now - hours`, an entry with a date is recent exactly when its age is
      strictly less than the window: one hour old is recent in a 24-hour window, 25 or 48
      hours old is not. */
  lemma RecentWithinWindow(e: Entry, now: int, hours: int)
    requires ResolveDate(e).Got?
    ensures var r := IsEntryRecent(e, now - hours * MicrosPerHour);
      r.Classified? && r.date == Some(ResolveDate(e).value)
      && (r.recent <==> now - Micros(ResolveDate(e).value) < hours * MicrosPerHour)
  {
  }

  // ---------------------------------------------------------------- article extraction

  /** The entry id, or the fallback derived from the built-in `hash` of the stripped title. */
  datatype EntryId = GivenId(id: string) | TitleHash(title: string)

  /** The record `extract_entry_data` hands to the renderer (less the generation time). */
  datatype Article = Article(
    entryTitle: string,
    feedTitle: string,
    content: Html,
    author: string,
    link: string,
    entryId: EntryId)

  function OptionAttempt<T>(o: Option<T>): Attempt<T> {
    match o
    case None => Missed
    case Some(v) => Got(v)
  }

  /** The content sources in the order they are consulted: the first `content` item when the
      list is non-empty, then `summary` when present (even empty), then `description`. */
  function ContentAttempts(e: Entry): seq<Attempt<Html>> {
    [if |e.content| > 0 then Got(e.content[0]) else Missed,
     OptionAttempt(e.summary),
     OptionAttempt(e.description)]
  }

  /** The content chain, step by step; empty content when every source is missing. */
  function RawContent(e: Entry): (r: Html)
    ensures var f := FirstSuccess(ContentAttempts(e));
      !f.Crashed? && (f.Got? ==> r == f.value) && (f.Missed? ==> r == [])
  {
    var xs := ContentAttempts(e);
    if |e.content| > 0 then
      FirstSuccessAt(xs, 0);
      e.content[0]
    else if e.summary.Some? then
      FirstSuccessAt(xs, 1);
      e.summary.value
    else if e.description.Some? then
      FirstSuccessAt(xs, 2);
      e.description.value
    else
      []
  }

  /** `extract_entry_data`: the stripped title (default `Untitled`), the cleaned content, and
      the defaults for author, link and id. */
  function ExtractEntryData(e: Entry, feedTitle: string): Article {
    var title := Strip(e.title.GetOr("Untitled"));
    Article(title, feedTitle, Clean(RawContent(e)), e.author.GetOr("Unknown Author"),
            e.link.GetOr(""),
            if e.id.Some? then GivenId(e.id.value) else TitleHash(title))
  }

  /** What the renderer receives: a stripped title, the feed title as given, content with no
      banned element and no unsafe attribute whose text is the visible text of the raw
      content, the defaults for missing author and link, and the id or its title fallback. */
  lemma ExtractedArticle(e: Entry, feedTitle: string)
    ensures var a := ExtractEntryData(e, feedTitle);
      && a.entryTitle == Strip(e.title.GetOr("Untitled")) && Trimmed(a.entryTitle)
      && a.feedTitle == feedTitle
      && a.content == Clean(RawContent(e))
      && NoBanned(a.content) && AttrsSafe(a.content)
      && TextContent(a.content) == VisibleText(RawContent(e))
      && a.author == e.author.GetOr("Unknown Author")
      && a.link == e.link.GetOr("")
      && a.entryId == (if e.id.Some? then GivenId(e.id.value) else TitleHash(a.entryTitle))
  {
    CleanGuarantees(RawContent(e));
  }

  /** The default title survives stripping unchanged. */
  lemma DefaultTitle(e: Entry, feedTitle: string)
    requires e.title.None?
    ensures ExtractEntryData(e, feedTitle).entryTitle == "Untitled"
  {
    StripTrimmed("Untitled");
  }

  /** Summary is used whenever it is present and the content list is empty, even when the
      summary is empty; description is used only when both are missing. A source that decides
      makes the later ones irrelevant. */
  lemma ContentFallback(e: Entry, summary: Option<Html>, description: Option<Html>)
    ensures |e.content| > 0
        ==> RawContent(e.(summary := summary, description := description)) == e.content[0]
    ensures |e.content| == 0 && e.summary.Some?
        ==> RawContent(e.(description := description)) == e.summary.value
    ensures |e.content| == 0 && e.summary.None? ==> RawContent(e) == e.description.GetOr([])
  {
  }
}
