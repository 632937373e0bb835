/**
 * The feeds file filter: which lines of the file become feed URLs. Reading the file and
 * splitting it into lines are not modelled; the lines arrive as they are read, each with its
 * line terminator.
 */
module FeedList {
  import opened Wrappers
  import opened PyText

  /** A line names a feed when something is left after stripping it and the raw line (before
      stripping) does not start with `#`. */
  predicate IsFeedLine(line: string) {
    Strip(line) != [] && !(|line| > 0 && line[0] == '#')
  }

  /** The comprehension of `load_feeds`: the stripped form of every feed line, in file order. */
  function FeedUrls(lines: seq<string>): (urls: seq<string>)
    ensures |urls| <= |lines|
    ensures forall i :: 0 <= i < |urls| ==> urls[i] != [] && Trimmed(urls[i])
  {
    if lines == [] then []
    else (if IsFeedLine(lines[0]) then [Strip(lines[0])] else []) + FeedUrls(lines[1..])
  }

  /** The filter works line by line: the URLs of two consecutive parts of the file are the
      URLs of the first followed by those of the second. */
  lemma {:induction false} FeedUrlsAppend(a: seq<string>, b: seq<string>)
    ensures FeedUrls(a + b) == FeedUrls(a) + FeedUrls(b)
  {
    if a == [] {
      assert a + b == b;
    } else {
      assert (a + b)[0] == a[0] && (a + b)[1..] == a[1..] + b;
      FeedUrlsAppend(a[1..], b);
    }
  }

  /** A URL is loaded exactly when some feed line strips to it. */
  lemma {:induction false} FeedUrlsMembers(lines: seq<string>, url: string)
    ensures url in FeedUrls(lines) <==> exists i :: 0 <= i < |lines| && IsFeedLine(lines[i]) && Strip(lines[i]) == url
  {
    if lines != [] {
      FeedUrlsMembers(lines[1..], url);
      if exists i :: 0 <= i < |lines| - 1 && IsFeedLine(lines[1..][i]) && Strip(lines[1..][i]) == url {
        var i :| 0 <= i < |lines| - 1 && IsFeedLine(lines[1..][i]) && Strip(lines[1..][i]) == url;
        assert lines[i + 1] == lines[1..][i];
      }
      if exists i :: 0 <= i < |lines| && IsFeedLine(lines[i]) && Strip(lines[i]) == url {
        var i :| 0 <= i < |lines| && IsFeedLine(lines[i]) && Strip(lines[i]) == url;
        if i > 0 {
          assert lines[1..][i - 1] == lines[i];
        }
      }
    }
  }

  /** Lines that are blank or start with `#` contribute nothing. */
  lemma {:induction false} FeedUrlsSkipped(lines: seq<string>)
    requires forall i :: 0 <= i < |lines| ==> !IsFeedLine(lines[i])
    ensures FeedUrls(lines) == []
  {
    if lines != [] {
      FeedUrlsSkipped(lines[1..]);
    }
  }

  /** `load_feeds`: the file's lines, or nothing when the file is missing or cannot be read. */
  function LoadFeeds(file: Option<seq<string>>): (urls: seq<string>)
    ensures file.None? ==> urls == []
    ensures file.Some? ==> urls == FeedUrls(file.value)
  {
    match file
    case None => []
    case Some(lines) => FeedUrls(lines)
  }

  /** The filter on a file of one line. */
  lemma FeedUrlsSingle(line: string)
    ensures FeedUrls([line]) == if IsFeedLine(line) then [Strip(line)] else []
  {
    assert [line][1..] == [];
  }

  /** Two lines that are not feed lines contribute nothing. */
  lemma FeedUrlsNeitherOfTwo(x: string, y: string)
    requires !IsFeedLine(x) && !IsFeedLine(y)
    ensures FeedUrls([x, y]) == []
  {
    FeedUrlsSingle(y);
    assert [x, y][1..] == [y];
  }

  /** A line holding one URL and its newline contributes exactly that URL. */
  lemma UrlLine(url: string)
    requires Trimmed(url) && url != [] && url[0] != '#'
    ensures FeedUrls([url + "\n"]) == [url]
  {
    assert IsSpace('\n');
    StripTrailingBlank(url, "\n");
    FeedUrlsSingle(url + "\n");
  }

  /** The filter on a file of two lines, line by line. */
  lemma FeedUrlsOfTwo(x: string, y: string)
    ensures FeedUrls([x, y]) == FeedUrls([x]) + FeedUrls([y])
  {
    FeedUrlsAppend([x], [y]);
    assert [x] + [y] == [x, y];
  }

  /** The filter on a file of three lines: the first line, then the other two. */
  lemma FeedUrlsOfThree(x: string, y: string, z: string)
    ensures FeedUrls([x, y, z]) == FeedUrls([x]) + FeedUrls([y, z])
  {
    FeedUrlsAppend([x], [y, z]);
    assert [x] + [y, z] == [x, y, z];
  }

  /** The shape of the first example of the unit tests: two URL lines give both URLs, in
      order. */
  lemma TwoFeedLines(a: string, b: string)
    requires Trimmed(a) && a != [] && a[0] != '#'
    requires Trimmed(b) && b != [] && b[0] != '#'
    ensures LoadFeeds(Some([a + "\n", b + "\n"])) == [a, b]
  {
    FeedUrlsOfTwo(a + "\n", b + "\n");
    UrlLine(a);
    UrlLine(b);
  }

  /** A line of whitespace only is not a feed line. */
  lemma BlankLineSkipped(line: string)
    requires Blank(line)
    ensures !IsFeedLine(line)
  {
    StripEmptyIffBlank(line);
  }

  /** A lone newline is not a feed line. */
  lemma NewlineSkipped()
    ensures !IsFeedLine("\n")
  {
    assert IsSpace("\n"[0]);
    BlankLineSkipped("\n");
  }

  /** A line starting with `#` is not a feed line. */
  lemma CommentSkipped(comment: string)
    ensures !IsFeedLine("#" + comment)
  {
    assert ("#" + comment)[0] == '#';
  }

  /** The shape of the second example of the unit tests: a blank line and a comment line
      after a URL line are dropped. */
  lemma BlankAndCommentDropped(url: string, comment: string)
    requires Trimmed(url) && url != [] && url[0] != '#'
    ensures LoadFeeds(Some([url + "\n", "\n", "#" + comment])) == [url]
  {
    FeedUrlsOfThree(url + "\n", "\n", "#" + comment);
    UrlLine(url);
    NewlineSkipped();
    CommentSkipped(comment);
    FeedUrlsNeitherOfTwo("\n", "#" + comment);
  }

  /** An indented comment strips to the comment. */
  lemma IndentedCommentStrip(rest: string)
    requires Trimmed(rest)
    ensures Strip(" #" + rest) == "#" + rest
  {
    var kept := ['#'] + rest;
    assert " #" + rest == [' '] + kept;
    StripLeadingBlank(' ', kept);
    TrimmedCons('#', rest);
    StripTrimmed(kept);
  }

  /** Only the raw line is examined for `#`: an indented comment is kept, stripped. */
  lemma IndentedCommentKept(rest: string)
    requires Trimmed(rest)
    ensures FeedUrls([" #" + rest]) == ["#" + rest]
  {
    IndentedCommentStrip(rest);
    assert (" #" + rest)[0] == ' ';
    FeedUrlsSingle(" #" + rest);
  }
}
