/**
 * The Python string built-ins the pipeline relies on: `str.isspace`, `str.strip`,
 * `str.lower` and the `in` substring test.
 */
module PyText {

  /** `str.isspace()` for one character: CPython's whitespace table, which is also the set of
      characters that `str.strip()` with no argument removes. */
  predicate IsSpace(c: char) {
    || ('\t' <= c <= '\r')
    || ('\U{1C}' <= c <= '\U{1F}')
    || c == ' ' || c == '\U{85}' || c == '\U{A0}' || c == '\U{1680}'
    || ('\U{2000}' <= c <= '\U{200A}')
    || c == '\U{2028}' || c == '\U{2029}' || c == '\U{202F}' || c == '\U{205F}' || c == '\U{3000}'
  }

  /** Every character of `s` is whitespace (in particular, the empty string). */
  ghost predicate Blank(s: string) {
    forall i :: 0 <= i < |s| ==> IsSpace(s[i])
  }

  /** `s` neither starts nor ends with whitespace. */
  ghost predicate Trimmed(s: string) {
    s == [] || (!IsSpace(s[0]) && !IsSpace(s[|s| - 1]))
  }

  /** `str.lstrip()`: the suffix of `s` left after its leading whitespace. */
  function TrimLeft(s: string): (r: string)
    ensures |r| <= |s| && r == s[|s| - |r|..]
    ensures Blank(s[..|s| - |r|])
    ensures r == [] || !IsSpace(r[0])
  {
    if s == [] || !IsSpace(s[0]) then s else TrimLeft(s[1..])
  }

  /** `str.rstrip()`: the prefix of `s` left before its trailing whitespace. */
  function TrimRight(s: string): (r: string)
    ensures |r| <= |s| && r == s[..|r|]
    ensures Blank(s[|r|..])
    ensures r == [] || !IsSpace(r[|r| - 1])
  {
    if s == [] || !IsSpace(s[|s| - 1]) then s else TrimRight(s[..|s| - 1])
  }

  /** `str.strip()`: what is left of `s` after its leading and its trailing whitespace are
      removed, so a slice of `s` surrounded only by whitespace. */
  function Strip(s: string): (r: string)
    ensures Trimmed(r)
    ensures |r| <= |s|
    ensures var k := |s| - |TrimLeft(s)|;
      && k + |r| <= |s|
      && r == TrimLeft(s)[..|r|]
      && TrimLeft(s) == s[k..]
      && Blank(s[..k])
      && Blank(s[k + |r|..])
  {
    var t := TrimLeft(s);
    var r := TrimRight(t);
    assert s[|s| - |t| + |r|..] == t[|r|..];
    r
  }

  /** A string strips to nothing exactly when it is all whitespace, which is what Python's
      truthiness test on `s.strip()` asks. */
  lemma StripEmptyIffBlank(s: string)
    ensures Strip(s) == [] <==> Blank(s)
  {
    var k := |s| - |TrimLeft(s)|;
    if Strip(s) == [] {
      forall i | 0 <= i < |s| ensures IsSpace(s[i]) {
        if i < k {
          assert s[..k][i] == s[i];
        } else {
          assert s[k..][i - k] == s[i];
        }
      }
    } else {
      assert s[k] == Strip(s)[0];
    }
  }

  /** `s` is empty or made of whitespace only, scanned character by character. */
  predicate AllSpace(s: string) {
    s == [] || (IsSpace(s[0]) && AllSpace(s[1..]))
  }

  /** The scan agrees with the quantified form. */
  lemma {:induction false} AllSpaceIffBlank(s: string)
    ensures AllSpace(s) <==> Blank(s)
  {
    if s != [] {
      AllSpaceIffBlank(s[1..]);
      assert forall i :: 0 < i < |s| ==> s[i] == s[1..][i - 1];
    }
  }

  /** `s.strip()` is falsy exactly when `s` is all whitespace. */
  lemma StripEmptyIffAllSpace(s: string)
    ensures Strip(s) == [] <==> AllSpace(s)
  {
    StripEmptyIffBlank(s);
    AllSpaceIffBlank(s);
  }

  /** Stripping leaves a string that has nothing left to strip unchanged. */
  lemma StripTrimmed(s: string)
    requires Trimmed(s)
    ensures Strip(s) == s
  {
    if s != [] {
      assert TrimLeft(s) == s;
    }
  }

  /** Trailing whitespace after a last non-space character is exactly what `rstrip` removes. */
  lemma {:induction false} TrimRightBlankTail(s: string, tail: string)
    requires s == [] || !IsSpace(s[|s| - 1])
    requires Blank(tail)
    ensures TrimRight(s + tail) == s
    decreases |tail|
  {
    if tail == [] {
      assert s + tail == s;
    } else {
      var u := s + tail;
      assert IsSpace(u[|u| - 1]);
      assert u[..|u| - 1] == s + tail[..|tail| - 1];
      TrimRightBlankTail(s, tail[..|tail| - 1]);
    }
  }

  /** A stripped string followed by whitespace (a line with its newline, say) strips back to
      itself. */
  lemma StripTrailingBlank(s: string, tail: string)
    requires Trimmed(s) && s != []
    requires Blank(tail)
    ensures Strip(s + tail) == s
  {
    assert (s + tail)[0] == s[0];
    assert TrimLeft(s + tail) == s + tail;
    TrimRightBlankTail(s, tail);
  }

  /** A leading whitespace character makes no difference to `strip()`. */
  lemma StripLeadingBlank(c: char, s: string)
    requires IsSpace(c)
    ensures Strip([c] + s) == Strip(s)
  {
    assert ([c] + s)[1..] == s;
    assert TrimLeft([c] + s) == TrimLeft(s);
  }

  /** A non-space character in front of a trimmed string leaves it trimmed. */
  lemma TrimmedCons(c: char, s: string)
    requires !IsSpace(c) && Trimmed(s)
    ensures Trimmed([c] + s)
  {
    var t := [c] + s;
    assert t[0] == c;
    assert t[|t| - 1] == if s == [] then c else s[|s| - 1];
  }

  /** `s.strip().strip() == s.strip()`. */
  lemma StripIdempotent(s: string)
    ensures Strip(Strip(s)) == Strip(s)
  {
    StripTrimmed(Strip(s));
  }

  /** `str.lower()` on one character, for the ASCII letters; every other character is kept. */
  function LowerChar(c: char): char {
    if 'A' <= c <= 'Z' then (c as int + 32) as char else c
  }

  /** `str.lower()`, character by character. */
  function Lower(s: string): (r: string)
    ensures |r| == |s|
  {
    seq(|s|, i requires 0 <= i < |s| => LowerChar(s[i]))
  }

  /** `needle` occurs in `hay` starting at index `i`. */
  ghost predicate OccursAt(hay: string, needle: string, i: int) {
    0 <= i <= |hay| - |needle| && hay[i..i + |needle|] == needle
  }

  /** Python's `needle in hay` for strings, scanning left to right. */
  function Contains(hay: string, needle: string): bool
    decreases |hay|
  {
    if |hay| < |needle| then false
    else if hay[..|needle|] == needle then true
    else Contains(hay[1..], needle)
  }

  /** The scan finds `needle` exactly when it occurs as a contiguous slice of `hay`. */
  lemma {:induction false} ContainsIffOccurs(hay: string, needle: string)
    ensures Contains(hay, needle) <==> exists i :: OccursAt(hay, needle, i)
    decreases |hay|
  {
    if |hay| < |needle| {
    } else if hay[..|needle|] == needle {
      assert OccursAt(hay, needle, 0);
    } else {
      ContainsIffOccurs(hay[1..], needle);
      forall i ensures OccursAt(hay[1..], needle, i) <==> OccursAt(hay, needle, i + 1) {
        if 0 <= i <= |hay| - 1 - |needle| {
          assert hay[1..][i..i + |needle|] == hay[i + 1..i + 1 + |needle|];
        }
      }
      if exists i :: OccursAt(hay, needle, i) {
        var i :| OccursAt(hay, needle, i);
        assert i != 0;
        assert OccursAt(hay[1..], needle, i - 1);
      }
    }
  }
}
