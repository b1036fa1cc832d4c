/**
 * The string operations the rule engine relies on: str.strip(), the first word of
 * str.split() with no separator, shlex.split() of an unquoted line, str.split(sep) and
 * sep.join(parts), on Python 2 byte strings.
 */
module Text {

  /** The characters Python 2's str.strip() and str.split() treat as whitespace. */
  predicate IsSpace(c: char) {
    c == ' ' || c == '\t' || c == '\n' || c == '\r' || c == '\U{000B}' || c == '\U{000C}'
  }

  predicate AllSpace(s: string) {
    forall i :: 0 <= i < |s| ==> IsSpace(s[i])
  }

  predicate NoSpace(s: string) {
    forall i :: 0 <= i < |s| ==> !IsSpace(s[i])
  }

  /** The characters shlex gives a meaning of their own inside a word: the two quotes and the escape. */
  predicate IsQuoting(c: char) {
    c == '\'' || c == '"' || c == '\\'
  }

  predicate NoQuote(s: string) {
    forall i :: 0 <= i < |s| ==> !IsQuoting(s[i])
  }

  /** The characters shlex splits at: a narrower set, which keeps \v and \f inside a word. */
  predicate IsShlexSpace(c: char) {
    c == ' ' || c == '\t' || c == '\r' || c == '\n'
  }

  predicate NoShlexSpace(s: string) {
    forall i :: 0 <= i < |s| ==> !IsShlexSpace(s[i])
  }

  function TrimLeft(s: string): (r: string)
    ensures |r| <= |s| && r == s[|s| - |r|..]
    ensures AllSpace(s[..|s| - |r|])
    ensures r == [] || !IsSpace(r[0])
  {
    if s != [] && IsSpace(s[0]) then TrimLeft(s[1..]) else s
  }

  function TrimRight(s: string): (r: string)
    ensures |r| <= |s| && r == s[..|r|]
    ensures AllSpace(s[|r|..])
    ensures r == [] || !IsSpace(r[|r| - 1])
  {
    if s != [] && IsSpace(s[|s| - 1]) then TrimRight(s[..|s| - 1]) else s
  }

  /**
   * str.strip(): the line without leading and trailing whitespace. It is empty exactly
   * when the line is all whitespace; otherwise it starts and ends with a non-space.
   */
  function Strip(s: string): (r: string)
    ensures |r| <= |s|
    ensures r == [] <==> AllSpace(s)
    ensures r != [] ==> !IsSpace(r[0]) && !IsSpace(r[|r| - 1])
  {
    var t := TrimLeft(s);
    var r := TrimRight(t);
    assert r == [] ==> AllSpace(s) by {
      if r == [] {
        assert AllSpace(t);
        assert s == s[..|s| - |t|] + t;
      }
    }
    assert AllSpace(s) ==> t == [] by {
      if t != [] { assert t[0] == s[|s| - |t|]; }
    }
    r
  }

  /** Strip removes exactly the leading and the trailing whitespace of the line. */
  lemma StripIsSlice(s: string)
    ensures exists i, j :: 0 <= i <= j <= |s| && Strip(s) == s[i..j] && AllSpace(s[..i]) && AllSpace(s[j..])
  {
    var t := TrimLeft(s);
    var r := TrimRight(t);
    var i := |s| - |t|;
    assert r == s[i..i + |r|] && s[i + |r|..] == t[|r|..];
  }

  /** A string that starts and ends with a non-space is its own strip(). */
  lemma StripUnchanged(s: string)
    requires s != [] && !IsSpace(s[0]) && !IsSpace(s[|s| - 1])
    ensures Strip(s) == s
  {
  }

  /** The longest prefix of `s` without whitespace: the first word str.split() gives. */
  function WordPrefix(s: string): (w: string)
    ensures |w| <= |s| && w == s[..|w|]
    ensures NoSpace(w)
    ensures |w| == |s| || IsSpace(s[|w|])
  {
    if s == [] || IsSpace(s[0]) then [] else [s[0]] + WordPrefix(s[1..])
  }

  /** The longest prefix of `s` without shlex whitespace. */
  function TokenPrefix(s: string): (w: string)
    ensures |w| <= |s| && w == s[..|w|]
    ensures NoShlexSpace(w)
    ensures |w| == |s| || IsShlexSpace(s[|w|])
  {
    if s == [] || IsShlexSpace(s[0]) then [] else [s[0]] + TokenPrefix(s[1..])
  }

  /**
   * shlex.split() of a line without quotes or escapes: the maximal runs of characters other
   * than shlex whitespace, in order.
   */
  function Words(s: string): (ws: seq<string>)
    ensures forall k :: 0 <= k < |ws| ==> ws[k] != [] && NoShlexSpace(ws[k])
    decreases |s|
  {
    if s == [] then []
    else if IsShlexSpace(s[0]) then Words(s[1..])
    else
      var w := TokenPrefix(s);
      [w] + Words(s[|w|..])
  }

  /** sep.join(parts). */
  function Join(parts: seq<string>, sep: char): string {
    if parts == [] then []
    else if |parts| == 1 then parts[0]
    else parts[0] + [sep] + Join(parts[1..], sep)
  }

  /**
   * str.split(sep): the pieces between occurrences of `sep`. There is always at least one
   * piece, no piece holds `sep`, and joining the pieces gives back the string.
   */
  function Split(s: string, sep: char): (parts: seq<string>)
    ensures |parts| >= 1
    ensures forall k :: 0 <= k < |parts| ==> sep !in parts[k]
    ensures Join(parts, sep) == s
  {
    if s == [] then [[]]
    else if s[0] == sep then
      var rest := Split(s[1..], sep);
      assert ([[]] + rest)[1..] == rest;
      assert s == [sep] + s[1..];
      [[]] + rest
    else
      var rest := Split(s[1..], sep);
      var parts := [[s[0]] + rest[0]] + rest[1..];
      assert parts[1..] == rest[1..];
      assert |rest| > 1 ==> Join(rest, sep) == rest[0] + [sep] + Join(rest[1..], sep);
      assert s == [s[0]] + s[1..];
      parts
  }

  lemma {:induction false} SplitNoSeparator(s: string, sep: char)
    requires sep !in s
    ensures Split(s, sep) == [s]
  {
    if s != [] {
      SplitNoSeparator(s[1..], sep);
    }
  }

  lemma {:induction false} SplitAfterPiece(x: string, sep: char, t: string)
    requires sep !in x
    ensures Split(x + [sep] + t, sep) == [x] + Split(t, sep)
  {
    if x != [] {
      assert (x + [sep] + t)[1..] == x[1..] + [sep] + t;
      SplitAfterPiece(x[1..], sep, t);
      assert [x[0]] + x[1..] == x;
    } else {
      assert (x + [sep] + t)[1..] == t;
    }
  }

  /** Splitting undoes joining, for a non-empty list of pieces free of the separator. */
  lemma {:induction false} SplitJoin(parts: seq<string>, sep: char)
    requires |parts| >= 1
    requires forall k :: 0 <= k < |parts| ==> sep !in parts[k]
    ensures Split(Join(parts, sep), sep) == parts
  {
    if |parts| == 1 {
      SplitNoSeparator(parts[0], sep);
    } else {
      SplitJoin(parts[1..], sep);
      SplitAfterPiece(parts[0], sep, Join(parts[1..], sep));
      assert [parts[0]] + parts[1..] == parts;
    }
  }

  lemma {:induction false} JoinAppend(parts: seq<string>, sep: char, x: string)
    requires |parts| >= 1
    ensures Join(parts + [x], sep) == Join(parts, sep) + [sep] + x
  {
    if |parts| == 1 {
      assert (parts + [x])[1..] == [x];
    } else {
      assert (parts + [x])[1..] == parts[1..] + [x];
      JoinAppend(parts[1..], sep, x);
    }
  }

  /** Appending `sep + x` to a string appends the piece `x` to its split. */
  lemma SplitAppend(s: string, sep: char, x: string)
    requires sep !in x
    ensures Split(s + [sep] + x, sep) == Split(s, sep) + [x]
  {
    var parts := Split(s, sep);
    JoinAppend(parts, sep, x);
    SplitJoin(parts + [x], sep);
  }

  lemma {:induction false} WordPrefixOfWord(w: string, rest: string)
    requires NoSpace(w)
    requires rest == [] || IsSpace(rest[0])
    ensures WordPrefix(w + rest) == w
  {
    if w != [] {
      assert (w + rest)[1..] == w[1..] + rest;
      WordPrefixOfWord(w[1..], rest);
    }
  }

  lemma {:induction false} TokenPrefixOfWord(w: string, rest: string)
    requires NoShlexSpace(w)
    requires rest == [] || IsShlexSpace(rest[0])
    ensures TokenPrefix(w + rest) == w
  {
    if w != [] {
      assert (w + rest)[1..] == w[1..] + rest;
      TokenPrefixOfWord(w[1..], rest);
    }
  }

  lemma WordsOfWordThen(w: string, rest: string)
    requires w != [] && NoShlexSpace(w)
    requires rest == [] || IsShlexSpace(rest[0])
    ensures Words(w + rest) == [w] + Words(rest)
  {
    var s := w + rest;
    TokenPrefixOfWord(w, rest);
    assert s[|w|..] == rest;
  }

  lemma WordsLeadingSpace(rest: string)
    ensures Words([' '] + rest) == Words(rest)
  {
    assert ([' '] + rest)[1..] == rest;
  }

  /** Splitting on whitespace undoes joining with single spaces. */
  lemma {:induction false} WordsJoin(ws: seq<string>)
    requires forall k :: 0 <= k < |ws| ==> ws[k] != [] && NoShlexSpace(ws[k])
    ensures Words(Join(ws, ' ')) == ws
  {
    if |ws| == 1 {
      WordsOfWordThen(ws[0], []);
      assert ws[0] + [] == ws[0];
    } else if |ws| > 1 {
      WordsJoin(ws[1..]);
      WordsJoinStep(ws[0], ws[1..]);
      assert [ws[0]] + ws[1..] == ws;
    }
  }

  lemma WordsJoinStep(w: string, tail: seq<string>)
    requires w != [] && NoShlexSpace(w)
    requires tail != [] && tail[0] != [] && NoShlexSpace(tail[0])
    requires Words(Join(tail, ' ')) == tail
    ensures Words(Join([w] + tail, ' ')) == [w] + tail
  {
    var rest := Join(tail, ' ');
    var spaced := [' '] + rest;
    assert ([w] + tail)[1..] == tail;
    assert Join([w] + tail, ' ') == w + spaced;
    assert Join(tail, ' ') != [] && !IsShlexSpace(Join(tail, ' ')[0]);
    WordsOfWordThen(w, spaced);
    WordsLeadingSpace(rest);
  }

  lemma JoinStartsWithWord(ws: seq<string>)
    requires |ws| >= 1 && ws[0] != [] && NoSpace(ws[0])
    ensures Join(ws, ' ') != [] && !IsSpace(Join(ws, ' ')[0])
  {
  }
}
