/**
 * The JavaScript string operations the content pipeline relies on:
 * String.prototype.trim, substring(0, n), split(',') and path.extname.
 * Strings are sequences of Unicode scalar values (see README for the
 * UTF-16 caveat).
 */
module JsText {

  /** ECMAScript WhiteSpace and LineTerminator code points: exactly what `trim` removes. */
  const Whitespace: string :=
    "\t\n\U{000B}\U{000C}\r \U{00A0}\U{1680}"
    + "\U{2000}\U{2001}\U{2002}\U{2003}\U{2004}\U{2005}\U{2006}\U{2007}\U{2008}\U{2009}\U{200A}"
    + "\U{2028}\U{2029}\U{202F}\U{205F}\U{3000}\U{FEFF}"

  predicate IsWhitespace(c: char) {
    Contains(Whitespace, c)
  }

  /** `c in s`, stated by recursion on `s`. */
  predicate Contains(s: string, c: char) {
    s != [] && (s[0] == c || Contains(s[1..], c))
  }

  /** True when `s` neither starts nor ends with whitespace. */
  predicate IsTrimmed(s: string) {
    s == [] || (!IsWhitespace(s[0]) && !IsWhitespace(s[|s| - 1]))
  }

  /** Drops leading whitespace. */
  function TrimStart(s: string): (r: string)
    ensures |r| <= |s|
    ensures r == [] || !IsWhitespace(r[0])
  {
    if s != [] && IsWhitespace(s[0]) then TrimStart(s[1..]) else s
  }

  /** Drops trailing whitespace. */
  function TrimEnd(s: string): (r: string)
    ensures |r| <= |s|
    ensures r == [] || !IsWhitespace(r[|r| - 1])
  {
    if s != [] && IsWhitespace(s[|s| - 1]) then TrimEnd(s[..|s| - 1]) else s
  }

  /** What `TrimStart` removes is the maximal leading run of whitespace; the rest is kept as it is. */
  lemma {:induction false} TrimStartIsSuffix(s: string)
    ensures TrimStart(s) == s[|s| - |TrimStart(s)|..]
    ensures forall k :: 0 <= k < |s| - |TrimStart(s)| ==> IsWhitespace(s[k])
  {
    if s != [] && IsWhitespace(s[0]) {
      TrimStartIsSuffix(s[1..]);
    }
  }

  /** What `TrimEnd` removes is the maximal trailing run of whitespace; the rest is kept as it is. */
  lemma {:induction false} TrimEndIsPrefix(s: string)
    ensures TrimEnd(s) == s[..|TrimEnd(s)|]
    ensures forall k :: |TrimEnd(s)| <= k < |s| ==> IsWhitespace(s[k])
  {
    if s != [] && IsWhitespace(s[|s| - 1]) {
      TrimEndIsPrefix(s[..|s| - 1]);
    }
  }

  /** `s.trim()`. */
  function Trim(s: string): (r: string)
    ensures IsTrimmed(r)
    ensures |r| <= |s|
  {
    var t := TrimStart(s);
    var r := TrimEnd(t);
    TrimEndIsPrefix(t);
    assert r != [] ==> r[0] == t[0];
    r
  }

  /** `trim` keeps a contiguous run of its input: whitespace is dropped only at the two ends. */
  lemma TrimIsSlice(s: string)
    ensures |s| - |TrimStart(s)| + |Trim(s)| <= |s|
    ensures Trim(s) == s[|s| - |TrimStart(s)|..|s| - |TrimStart(s)| + |Trim(s)|]
  {
    var t := TrimStart(s);
    TrimStartIsSuffix(s);
    TrimEndIsPrefix(t);
  }

  /** `s.substring(0, n)` for a non-negative `n`. */
  function Prefix(s: string, n: nat): (r: string)
    ensures |r| <= n && |r| <= |s|
    ensures r == s[..|r|]
    ensures |s| <= n ==> r == s
    ensures |r| == if n < |s| then n else |s|
  {
    if n < |s| then s[..n] else s
  }

  /** First index of `c` in `s`, or -1 (`s.indexOf(c)`). */
  function IndexOf(s: string, c: char): (k: int)
    ensures -1 <= k < |s|
    ensures 0 <= k ==> s[k] == c && c !in s[..k]
    ensures k == -1 <==> c !in s
  {
    if s == [] then -1
    else if s[0] == c then 0
    else
      var k := IndexOf(s[1..], c);
      assert s[1..][..if k < 0 then 0 else k] == s[1..if k < 0 then 1 else k + 1];
      if k < 0 then -1 else k + 1
  }

  /** Last index of `c` in `s`, or -1 (`s.lastIndexOf(c)`). */
  function LastIndexOf(s: string, c: char): (k: int)
    ensures -1 <= k < |s|
    ensures 0 <= k ==> s[k] == c && c !in s[k + 1..]
    ensures k == -1 <==> c !in s
  {
    if s == [] then -1
    else if s[|s| - 1] == c then |s| - 1
    else
      var k := LastIndexOf(s[..|s| - 1], c);
      assert k >= 0 ==> s[k + 1..] == s[..|s| - 1][k + 1..] + [s[|s| - 1]];
      assert s == s[..|s| - 1] + [s[|s| - 1]];
      k
  }

  /** A directory entry name: a path with no '/' in it. */
  type BaseName = s: string | '/' !in s witness ""

  /**
   * `path.extname(name)` for a directory entry name: the text from the last
   * '.' on, unless that dot is the first character, and "" for "..".
   */
  function Extname(name: BaseName): string
  {
    var dot := LastIndexOf(name, '.');
    if name == ".." || dot <= 0 then "" else name[dot..]
  }

  /** The entry names the converter treats as articles are those ending in ".md" after a non-empty stem. */
  lemma ExtnameIsMd(name: BaseName)
    ensures Extname(name) == ".md" <==> |name| > 3 && name[|name| - 3..] == ".md"
  {
    if |name| > 3 && name[|name| - 3..] == ".md" {
      ExtnameOfMdName(name);
    }
    if Extname(name) == ".md" {
      MdNameOfExtname(name);
    }
  }

  /** A name ending in ".md" after a non-empty stem has the extension ".md". */
  lemma ExtnameOfMdName(name: BaseName)
    requires |name| > 3 && name[|name| - 3..] == ".md"
    ensures Extname(name) == ".md"
  {
    var n := |name|;
    var dot := LastIndexOf(name, '.');
    assert name[n - 3] == '.' && name[n - 2] == 'm' && name[n - 1] == 'd';
    assert name[n - 3..] == [name[n - 3], name[n - 2], name[n - 1]];
    assert dot == n - 3;
  }

  /** A name with the extension ".md" ends in ".md" after a non-empty stem. */
  lemma MdNameOfExtname(name: BaseName)
    requires Extname(name) == ".md"
    ensures |name| > 3 && name[|name| - 3..] == ".md"
  {
    var dot := LastIndexOf(name, '.');
    assert name != ".." && dot > 0;
    assert name[dot..] == ".md";
  }

  /** Number of occurrences of `c` in `s`. */
  function Occurrences(s: string, c: char): nat {
    multiset(s)[c]
  }

  /** `s.split(sep)` for a one-character separator: empty pieces are kept. */
  function Split(s: string, sep: char): (pieces: seq<string>)
    ensures |pieces| == Occurrences(s, sep) + 1
    ensures forall i :: 0 <= i < |pieces| ==> sep !in pieces[i]
    decreases |s|
  {
    var k := IndexOf(s, sep);
    if k < 0 then [s]
    else
      OccurrencesAtFirst(s, sep, k);
      [s[..k]] + Split(s[k + 1..], sep)
  }

  /** Cutting at the first occurrence of `c` leaves one occurrence fewer after it. */
  lemma OccurrencesAtFirst(s: string, c: char, k: nat)
    requires k < |s| && s[k] == c && c !in s[..k]
    ensures Occurrences(s, c) == Occurrences(s[k + 1..], c) + 1
  {
    assert s == s[..k] + [c] + s[k + 1..];
    assert multiset(s) == multiset(s[..k]) + multiset{c} + multiset(s[k + 1..]);
  }

  /** `pieces.join(sep)`. */
  function Join(pieces: seq<string>, sep: char): string {
    if pieces == [] then ""
    else if |pieces| == 1 then pieces[0]
    else pieces[0] + [sep] + Join(pieces[1..], sep)
  }

  /** Splitting loses nothing: joining the pieces with the separator gives back the input. */
  lemma {:induction false} JoinSplit(s: string, sep: char)
    ensures Join(Split(s, sep), sep) == s
    decreases |s|
  {
    var k := IndexOf(s, sep);
    if k >= 0 {
      JoinSplit(s[k + 1..], sep);
      assert s == s[..k] + [sep] + s[k + 1..];
    }
  }

  /** Joining a non-empty list of pieces free of the separator and splitting again gives the pieces back. */
  lemma {:induction false} SplitJoin(pieces: seq<string>, sep: char)
    requires pieces != []
    requires forall i :: 0 <= i < |pieces| ==> sep !in pieces[i]
    ensures Split(Join(pieces, sep), sep) == pieces
    decreases |pieces|
  {
    if |pieces| == 1 {
      assert IndexOf(pieces[0], sep) == -1;
    } else {
      var rest := pieces[1..];
      var tail := Join(rest, sep);
      var s := pieces[0] + [sep] + tail;
      assert Join(pieces, sep) == s;
      SplitAtFirst(pieces[0], sep, tail);
      SplitJoin(rest, sep);
      assert rest == pieces[1..] && pieces == [pieces[0]] + rest;
    }
  }

  /** Splitting a separator-free head, the separator and a tail gives the head, then the tail's pieces. */
  lemma SplitAtFirst(head: string, sep: char, tail: string)
    requires sep !in head
    ensures Split(head + [sep] + tail, sep) == [head] + Split(tail, sep)
  {
    var s := head + [sep] + tail;
    var k := |head|;
    assert s[..k] == head;
    assert s[k] == sep;
    assert IndexOf(s, sep) == k;
    assert s[k + 1..] == tail;
  }
}
