/**
 * The naming rules of `Config`: the sanitised feed directory and PDF file name that together
 * form the local idempotency key, and the recency cutoff.
 */
module Config {
  import opened Wrappers
  import opened PyText
  import opened Calendar

  /** Longest title portion of a PDF file name. */
  const TitleLimit := 60
  /** Longest feed directory name. */
  const FeedDirLimit := 50
  /** Default width of the recency window, in hours (`RECENT_HOURS`). */
  const DefaultRecentHours := 24

  /** `str.isalnum()`, restricted to ASCII letters and digits. */
  predicate IsAsciiAlnum(c: char) {
    ('a' <= c <= 'z') || ('A' <= c <= 'Z') || ('0' <= c <= '9')
  }

  /** A character the name sanitiser keeps: alphanumerics, space, hyphen and underscore. */
  predicate IsSafeChar(c: char) {
    IsAsciiAlnum(c) || c == ' ' || c == '-' || c == '_'
  }

  ghost predicate AllSafe(s: string) {
    forall i :: 0 <= i < |s| ==> IsSafeChar(s[i])
  }

  /** The generator `"".join(c for c in s if c.isalnum() or c in (' ', '-', '_'))`. */
  function KeepSafe(s: string): (r: string)
    ensures AllSafe(r) && |r| <= |s|
  {
    if s == [] then []
    else (if IsSafeChar(s[0]) then [s[0]] else []) + KeepSafe(s[1..])
  }

  /** The filter works piece by piece: the kept characters of a concatenation are the kept
      characters of each part, in order. With the one-character case this pins the filter
      down completely: kept characters stay in order, dropped ones leave no trace. */
  lemma {:induction false} KeepSafeAppend(a: string, b: string)
    ensures KeepSafe(a + b) == KeepSafe(a) + KeepSafe(b)
  {
    if a == [] {
      assert a + b == b;
    } else {
      var head := if IsSafeChar(a[0]) then [a[0]] else [];
      assert (a + b)[0] == a[0] && (a + b)[1..] == a[1..] + b;
      assert KeepSafe(a + b) == head + KeepSafe(a[1..] + b);
      KeepSafeAppend(a[1..], b);
      assert head + (KeepSafe(a[1..]) + KeepSafe(b)) == (head + KeepSafe(a[1..])) + KeepSafe(b);
    }
  }

  /** A string made only of safe characters passes the filter unchanged. */
  lemma {:induction false} KeepSafeOfSafe(s: string)
    requires AllSafe(s)
    ensures KeepSafe(s) == s
  {
    if s != [] {
      KeepSafeOfSafe(s[1..]);
    }
  }

  /** Among the safe characters only the space is whitespace. */
  lemma SafeSpaceIsBlank(c: char)
    ensures IsSafeChar(c) ==> (IsSpace(c) <==> c == ' ')
  {
  }

  /** Any slice of safe text is safe. */
  lemma SliceKeepsSafe(s: string, lo: nat, hi: nat)
    requires AllSafe(s) && lo <= hi <= |s|
    ensures AllSafe(s[lo..hi])
  {
    assert forall i :: 0 <= i < hi - lo ==> s[lo..hi][i] == s[lo + i];
  }

  /** Stripping whitespace from safe text leaves safe text. */
  lemma StripKeepsSafe(s: string)
    requires AllSafe(s)
    ensures AllSafe(Strip(s))
  {
    var t := Strip(s);
    var k := |s| - |TrimLeft(s)|;
    assert t == s[k..][..|t|];
    assert s[k..][..|t|] == s[k..k + |t|];
    SliceKeepsSafe(s, k, k + |t|);
  }

  /** Keeping a prefix keeps the first character. */
  lemma PrefixStart(t: string, n: nat)
    requires n <= |t|
    ensures n > 0 ==> t[..n][0] == t[0]
  {
  }

  /** The shared sanitiser of both names: filter, then `strip()`, then keep at most `limit`
      characters. The result is a prefix of the stripped safe text of `s`. */
  function SafeName(s: string, limit: nat): (r: string)
    ensures |r| <= limit && AllSafe(r)
    ensures r == [] || r[0] != ' '
    ensures var t := Strip(KeepSafe(s));
      r <= t && |r| == (if |t| <= limit then |t| else limit)
  {
    var t := Strip(KeepSafe(s));
    StripKeepsSafe(KeepSafe(s));
    if |t| <= limit then t
    else
      PrefixStart(t, limit);
      t[..limit]
  }

  /** `Config.get_output_filename`: the publication date as `MM-DD-YYYY`, one space, the
      sanitised title and `.pdf`. The feed title argument of the source is unused there and is
      not a parameter here. */
  function GetOutputFilename(entryTitle: string, publishedDate: Instant): string {
    FormatMonthDayYear(publishedDate) + " " + SafeName(entryTitle, TitleLimit) + ".pdf"
  }

  /** `Config.get_feed_directory`. */
  function GetFeedDirectory(feedTitle: string): (r: string)
    ensures |r| <= FeedDirLimit && AllSafe(r)
    ensures r == [] || r[0] != ' '
  {
    SafeName(feedTitle, FeedDirLimit)
  }

  /** The pieces of `date + " " + title + ".pdf"` sit where they were put. */
  lemma NameLayout(date: string, title: string)
    requires |date| == 10
    ensures var name := date + " " + title + ".pdf";
      && |name| == 15 + |title|
      && name[..10] == date
      && name[..2] == date[..2]
      && name[3..5] == date[3..5]
      && name[6..10] == date[6..]
      && name[10] == ' '
      && name[11..|name| - 4] == title
      && name[|name| - 4..] == ".pdf"
  {
    var name := date + " " + title + ".pdf";
    assert name[..10] == date;
    assert name[11..|name| - 4] == title;
    assert name[|name| - 4..] == ".pdf";
  }

  /** The layout of a PDF file name: ten characters of date whose digits read back as the
      month, the day and the year; a space; a title portion of at most 60 safe characters that
      does not start with a space; and `.pdf`. */
  lemma OutputFilenameLayout(entryTitle: string, publishedDate: Instant)
    ensures var name := GetOutputFilename(entryTitle, publishedDate);
      && 15 <= |name| <= 15 + TitleLimit
      && name[..10] == FormatMonthDayYear(publishedDate)
      && ReadsAs(name[..2], publishedDate.month)
      && ReadsAs(name[3..5], publishedDate.day)
      && ReadsAs(name[6..10], publishedDate.year)
      && name[10] == ' '
      && name[11..|name| - 4] == SafeName(entryTitle, TitleLimit)
      && name[|name| - 4..] == ".pdf"
  {
    var date := FormatMonthDayYear(publishedDate);
    var title := SafeName(entryTitle, TitleLimit);
    NameLayout(date, title);
    assert ReadsAs(date[..2], publishedDate.month);
    assert ReadsAs(date[3..5], publishedDate.day);
    assert ReadsAs(date[6..], publishedDate.year);
  }

  /** A name that is already safe, already trimmed and short enough is its own feed
      directory. */
  lemma FeedDirectoryStable(name: string)
    requires AllSafe(name) && |name| <= FeedDirLimit
    requires name == [] || (name[0] != ' ' && name[|name| - 1] != ' ')
    ensures GetFeedDirectory(name) == name
  {
    KeepSafeOfSafe(name);
    if name != [] {
      SafeSpaceIsBlank(name[0]);
      SafeSpaceIsBlank(name[|name| - 1]);
    }
    StripTrimmed(name);
  }

  /** The largest magnitude, in days, a `timedelta` holds. */
  const MaxTimedeltaDays := 999999999

  /** `Config.get_cutoff_time`, on the microsecond time line: `now` minus the window. Building
      `timedelta(hours=...)` raises OverflowError past the timedelta day limit, and the
      subtraction raises it when the result leaves datetime's range; `None` is that error. */
  function GetCutoffTime(now: int, recentHours: int): (cutoff: Option<int>)
    ensures cutoff.Some? ==> now - cutoff.value == recentHours * MicrosPerHour
    ensures cutoff.Some? ==> OnTimeLine(cutoff.value)
    ensures cutoff.Some? ==> (cutoff.value < now <==> recentHours > 0)
    ensures cutoff.None? <==> !(-MaxTimedeltaDays <= recentHours / 24 <= MaxTimedeltaDays)
                              || !OnTimeLine(now - recentHours * MicrosPerHour)
  {
    if !(-MaxTimedeltaDays <= recentHours / 24 <= MaxTimedeltaDays) then None
    else if !OnTimeLine(now - recentHours * MicrosPerHour) then None
    else Some(now - recentHours * MicrosPerHour)
  }

  /** For a clock reading that a `datetime` can hold, the cutoff fails exactly when `now`
      minus the window falls outside datetime's range: the timedelta limit is wider than the
      whole range, so it never decides on its own. */
  lemma CutoffOverflow(now: int, recentHours: int)
    requires OnTimeLine(now)
    ensures GetCutoffTime(now, recentHours).None? <==> !OnTimeLine(now - recentHours * MicrosPerHour)
  {
    if !(-MaxTimedeltaDays <= recentHours / 24 <= MaxTimedeltaDays) {
      assert recentHours >= 24 * (MaxTimedeltaDays + 1) || recentHours < -24 * MaxTimedeltaDays;
      assert MicrosEnd < 24 * MaxTimedeltaDays * MicrosPerHour;
    }
  }

  /** The default 24-hour window has a cutoff once the clock is a day past `datetime.min`. */
  lemma DefaultWindowFits(now: int)
    requires OnTimeLine(now) && now >= DefaultRecentHours * MicrosPerHour
    ensures GetCutoffTime(now, DefaultRecentHours) == Some(now - DefaultRecentHours * MicrosPerHour)
  {
  }
}
