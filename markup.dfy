/**
 * `stripHtml` (html.replace(/<[^>]*>/g, '')) and the article excerpt built
 * from it: strip, keep the first 150 characters, trim.
 */
module Markup {
  import opened JsText

  /** Excerpt budget in characters (`readMoreLength`). */
  const ReadMoreLength: nat := 150

  /**
   * The global replace scans left to right: at a '<' that has a '>' somewhere
   * after it, the match runs to the first such '>' and is deleted, and the scan
   * resumes after it; any other character is kept.
   */
  function StripHtml(html: string): string
    decreases |html|
  {
    if html == [] then []
    else if html[0] == '<' && '>' in html[1..] then
      StripHtml(html[IndexOf(html, '>') + 1..])
    else
      [html[0]] + StripHtml(html[1..])
  }

  /** No '<' is followed, anywhere later, by a '>': the text holds nothing the pattern can match. */
  predicate NoTag(s: string) {
    forall i, j :: 0 <= i < j < |s| && s[i] == '<' ==> s[j] != '>'
  }

  /** `a` can be obtained from `b` by deleting characters. */
  ghost predicate IsSubsequence(a: string, b: string)
    decreases |b|
  {
    if a == [] then true
    else if b == [] then false
    else (a[0] == b[0] && IsSubsequence(a[1..], b[1..])) || IsSubsequence(a, b[1..])
  }

  lemma {:induction false} SubsequenceOfSuffix(a: string, b: string, k: nat)
    requires k <= |b| && IsSubsequence(a, b[k..])
    ensures IsSubsequence(a, b)
    decreases k
  {
    if k > 0 {
      assert b[k - 1..][1..] == b[k..];
      assert IsSubsequence(a, b[k - 1..]);
      SubsequenceOfSuffix(a, b, k - 1);
    }
  }

  lemma {:induction false} SubsequenceElements(a: string, b: string, c: char)
    requires IsSubsequence(a, b) && c in a
    ensures c in b
    decreases |b|
  {
    if a[0] == b[0] && IsSubsequence(a[1..], b[1..]) {
      if c != a[0] {
        SubsequenceElements(a[1..], b[1..], c);
      }
    } else {
      SubsequenceElements(a, b[1..], c);
    }
  }

  /** Stripping only deletes characters: the output is a subsequence of the input. */
  lemma {:induction false} StripHtmlIsSubsequence(html: string)
    ensures IsSubsequence(StripHtml(html), html)
    decreases |html|
  {
    if html == [] {
    } else if html[0] == '<' && '>' in html[1..] {
      var k := IndexOf(html, '>') + 1;
      StripHtmlIsSubsequence(html[k..]);
      SubsequenceOfSuffix(StripHtml(html), html, k);
    } else {
      StripHtmlIsSubsequence(html[1..]);
      var r := StripHtml(html);
      assert r[0] == html[0] && r[1..] == StripHtml(html[1..]);
    }
  }

  /** Nothing tag-shaped survives: no '<' in the output is followed later by '>'. */
  lemma {:induction false} StripHtmlNoTag(html: string)
    ensures NoTag(StripHtml(html))
    decreases |html|
  {
    if html == [] {
    } else if html[0] == '<' && '>' in html[1..] {
      StripHtmlNoTag(html[IndexOf(html, '>') + 1..]);
    } else {
      var rest := StripHtml(html[1..]);
      StripHtmlNoTag(html[1..]);
      if html[0] == '<' && '>' in rest {
        StripHtmlIsSubsequence(html[1..]);
        SubsequenceElements(rest, html[1..], '>');
      }
      NoTagCons(html[0], rest);
    }
  }

  /** A character in front of tag-free text keeps it tag-free unless it opens a tag that a later '>' closes. */
  lemma NoTagCons(c: char, rest: string)
    requires NoTag(rest) && (c == '<' ==> '>' !in rest)
    ensures NoTag([c] + rest)
  {
    var r := [c] + rest;
    forall i, j | 0 <= i < j < |r| && r[i] == '<'
      ensures r[j] != '>'
    {
      if i == 0 {
        assert r[j] == rest[j - 1];
      } else {
        assert r[i] == rest[i - 1] && r[j] == rest[j - 1];
      }
    }
  }

  /** Text with nothing tag-shaped in it is left unchanged. */
  lemma {:induction false} StripHtmlKeepsPlainText(s: string)
    requires NoTag(s)
    ensures StripHtml(s) == s
    decreases |s|
  {
    if s != [] {
      assert NoTag(s[1..]) by {
        forall i, j | 0 <= i < j < |s[1..]| && s[1..][i] == '<'
          ensures s[1..][j] != '>'
        {
          assert s[i + 1] == '<';
        }
      }
      StripHtmlKeepsPlainText(s[1..]);
    }
  }

  /** Stripping twice is the same as stripping once. */
  lemma StripHtmlIdempotent(html: string)
    ensures StripHtml(StripHtml(html)) == StripHtml(html)
  {
    StripHtmlNoTag(html);
    StripHtmlKeepsPlainText(StripHtml(html));
  }

  /** Any slice of tag-free text is tag-free. */
  lemma NoTagSlice(s: string, lo: nat, hi: nat)
    requires NoTag(s) && lo <= hi <= |s|
    ensures NoTag(s[lo..hi])
  {
    forall i, j | 0 <= i < j < hi - lo && s[lo..hi][i] == '<'
      ensures s[lo..hi][j] != '>'
    {
      assert s[lo + i] == '<';
    }
  }

  /** `stripHtml(html).substring(0, readMoreLength).trim()`. */
  function Excerpt(html: string): (text: string)
    ensures |text| <= ReadMoreLength
    ensures IsTrimmed(text)
    ensures NoTag(text)
  {
    var stripped := StripHtml(html);
    var cut := Prefix(stripped, ReadMoreLength);
    var text := Trim(cut);
    StripHtmlNoTag(html);
    NoTagSlice(stripped, 0, |cut|);
    TrimIsSlice(cut);
    NoTagSlice(cut, |cut| - |TrimStart(cut)|, |cut| - |TrimStart(cut)| + |text|);
    text
  }
}
