/**
 * The naming examples of the configuration unit tests, proved on the model.
 */
module ConfigExamples {
  import opened PyText
  import opened Calendar
  import opened Config

  /** An unsafe character after a run of safe ones is dropped and leaves no trace. */
  lemma KeepSafeDropLast(a: string, x: char)
    requires AllSafe(a) && !IsSafeChar(x)
    ensures KeepSafe(a + [x]) == a
  {
    KeepSafeAppend(a, [x]);
    KeepSafeOfSafe(a);
    assert KeepSafe([x]) == [];
  }

  /** The same, after any prefix. */
  lemma KeepSafeDrop(pre: string, a: string, x: char)
    requires AllSafe(a) && !IsSafeChar(x)
    ensures KeepSafe(pre + a + [x]) == KeepSafe(pre) + a
  {
    assert pre + a + [x] == pre + (a + [x]);
    KeepSafeAppend(pre, a + [x]);
    KeepSafeDropLast(a, x);
  }

  /** Three safe runs, each followed by one unsafe character, keep exactly the runs. */
  lemma ThreeDrops(a: string, x: char, b: string, y: char, c: string, z: char)
    requires AllSafe(a) && AllSafe(b) && AllSafe(c)
    requires !IsSafeChar(x) && !IsSafeChar(y) && !IsSafeChar(z)
    ensures KeepSafe(a + [x] + b + [y] + c + [z]) == a + b + c
  {
    KeepSafeDropLast(a, x);
    KeepSafeDrop(a + [x], b, y);
    KeepSafeDrop(a + [x] + b + [y], c, z);
  }

  /** A name whose kept characters are already trimmed and short enough is its own safe
      name. */
  lemma SafeNameOfKept(s: string, t: string, limit: nat)
    requires KeepSafe(s) == t && Trimmed(t) && |t| <= limit
    ensures SafeName(s, limit) == t
  {
    StripTrimmed(t);
  }

  /** The feed title of the feed-directory example, as safe runs and the characters dropped
      between them. */
  lemma FeedTitleParts(feedTitle: string)
    requires feedTitle == "Feed: Name & More!"
    ensures feedTitle == "Feed" + [':'] + " Name " + ['&'] + " More" + ['!']
  {
  }

  lemma FeedTitleJoin(t: string)
    requires t == "Feed" + " Name " + " More"
    ensures t == "Feed Name  More"
  {
  }

  /** The kept characters of the feed-directory example. */
  lemma FeedTitleKept(feedTitle: string)
    requires feedTitle == "Feed: Name & More!"
    ensures KeepSafe(feedTitle) == "Feed Name  More"
  {
    FeedTitleParts(feedTitle);
    ThreeDrops("Feed", ':', " Name ", '&', " More", '!');
    FeedTitleJoin("Feed" + " Name " + " More");
  }

  /** The feed-directory example: punctuation is removed and the double space it leaves
      behind is kept. */
  lemma FeedDirectoryExample(feedTitle: string)
    requires feedTitle == "Feed: Name & More!"
    ensures GetFeedDirectory(feedTitle) == "Feed Name  More"
  {
    FeedTitleKept(feedTitle);
    SafeNameOfKept(feedTitle, "Feed Name  More", FeedDirLimit);
  }

  /** Hyphens and underscores survive, and a name that is already clean is kept as it is. */
  lemma FeedDirectoryKeepsCleanNames(feedTitle: string)
    requires feedTitle == "My-Feed_Name" || feedTitle == "Simon Willison"
    ensures GetFeedDirectory(feedTitle) == feedTitle
  {
    FeedDirectoryStable(feedTitle);
  }

  /** A four-digit year is written as itself. */
  lemma YearPadded()
    ensures ZeroPadded(2025, 4) == "2025"
  {
    assert ZeroPadded(2, 1) == "2";
    assert ZeroPadded(20, 2) == "20";
    assert ZeroPadded(202, 3) == "202";
  }

  /** The entry title of the output-filename example, as safe runs and the characters
      dropped between them. */
  lemma ArticleTitleParts(entryTitle: string)
    requires entryTitle == "Article: A & B!"
    ensures entryTitle == "Article" + [':'] + " A " + ['&'] + " B" + ['!']
  {
  }

  lemma ArticleTitleJoin(t: string)
    requires t == "Article" + " A " + " B"
    ensures t == "Article A  B"
  {
  }

  /** The kept characters of the output-filename example. */
  lemma ArticleTitleKept(entryTitle: string)
    requires entryTitle == "Article: A & B!"
    ensures KeepSafe(entryTitle) == "Article A  B"
  {
    ArticleTitleParts(entryTitle);
    ThreeDrops("Article", ':', " A ", '&', " B", '!');
    ArticleTitleJoin("Article" + " A " + " B");
  }

  /** The sanitised title of the output-filename example. */
  lemma ArticleTitle(entryTitle: string)
    requires entryTitle == "Article: A & B!"
    ensures SafeName(entryTitle, TitleLimit) == "Article A  B"
  {
    ArticleTitleKept(entryTitle);
    SafeNameOfKept(entryTitle, "Article A  B", TitleLimit);
  }

  /** The date of the output-filename example: a zero-padded month. */
  lemma JulyDate(d: Instant)
    requires d == DateTime(2025, 7, 28, 0, 0, 0, 0)
    ensures FormatMonthDayYear(d) == "07-28-2025"
  {
    YearPadded();
    assert ZeroPadded(7, 2) == "07";
    assert ZeroPadded(28, 2) == "28";
  }

  /** The date of the date-format example: a zero-padded day. */
  lemma DecemberDate(d: Instant)
    requires d == DateTime(2025, 12, 3, 0, 0, 0, 0)
    ensures FormatMonthDayYear(d) == "12-03-2025"
  {
    YearPadded();
    assert ZeroPadded(12, 2) == "12";
    assert ZeroPadded(3, 2) == "03";
  }

  /** A file name is assembled from its date and its title portion. */
  lemma FilenameOf(entryTitle: string, d: Instant, date: string, title: string)
    requires FormatMonthDayYear(d) == date && SafeName(entryTitle, TitleLimit) == title
    ensures GetOutputFilename(entryTitle, d) == date + " " + title + ".pdf"
  {
  }

  /** The output-filename example: a zero-padded month, the sanitised title and the `.pdf`
      suffix. */
  lemma OutputFilenameExample(entryTitle: string, d: Instant)
    requires entryTitle == "Article: A & B!" && d == DateTime(2025, 7, 28, 0, 0, 0, 0)
    ensures GetOutputFilename(entryTitle, d) == "07-28-2025 Article A  B.pdf"
  {
    var date, title := "07-28-2025", "Article A  B";
    assert FormatMonthDayYear(d) == date by { JulyDate(d); }
    assert SafeName(entryTitle, TitleLimit) == title by { ArticleTitle(entryTitle); }
    FilenameOf(entryTitle, d, date, title);
    FilenameJoin(date + " " + title + ".pdf");
  }

  lemma FilenameJoin(name: string)
    requires name == "07-28-2025" + " " + "Article A  B" + ".pdf"
    ensures name == "07-28-2025 Article A  B.pdf"
  {
  }

  /** The date-format example: whatever the title, the name starts with the zero-padded
      date. */
  lemma OutputFilenameDateExample(entryTitle: string, d: Instant)
    requires d == DateTime(2025, 12, 3, 0, 0, 0, 0)
    ensures GetOutputFilename(entryTitle, d)[..10] == "12-03-2025"
  {
    OutputFilenameLayout(entryTitle, d);
    DecemberDate(d);
  }

  /** The truncation examples: a title of 100 letters gives a name of at most 75 characters
      and a feed directory of at most 50. */
  lemma LongNamesTruncated(name: string, d: Instant)
    requires |name| == 100
    ensures |GetOutputFilename(name, d)| <= |"01-01-2025 "| + 60 + |".pdf"|
    ensures |GetFeedDirectory(name)| <= 50
  {
    OutputFilenameLayout(name, d);
  }
}
