/**
 * The few operations of Python's `str` that the to-do list relies on:
 * case mapping, `strip()`, `split(sep)`, `readline()` on a text file and
 * the `:<w` format specification.
 *
 * Case mapping is ASCII only: `lower()`, `upper()` and `capitalize()` leave
 * every other character as it is.
 */
module Text {

  /** The characters that `str.strip()` with no argument removes. */
  predicate IsSpace(c: char) {
    || c == ' '
    || ('\t' <= c <= '\r')
    || ('\U{1C}' <= c <= '\U{1F}')
    || c == '\U{85}' || c == '\U{A0}' || c == '\U{1680}'
    || ('\U{2000}' <= c <= '\U{200A}')
    || c == '\U{2028}' || c == '\U{2029}' || c == '\U{202F}'
    || c == '\U{205F}' || c == '\U{3000}'
  }

  predicate IsUpperAscii(c: char) { 'A' <= c <= 'Z' }

  predicate IsLowerAscii(c: char) { 'a' <= c <= 'z' }

  function LowerChar(c: char): char {
    if IsUpperAscii(c) then (c as int + 32) as char else c
  }

  function UpperChar(c: char): char {
    if IsLowerAscii(c) then (c as int - 32) as char else c
  }

  /** `s.lower()`: every character mapped on its own. */
  function Lower(s: string): string {
    seq(|s|, i requires 0 <= i < |s| => LowerChar(s[i]))
  }

  /** `s.capitalize()`: the first character upper-cased, the rest lower-cased. */
  function Capitalize(s: string): string {
    seq(|s|, i requires 0 <= i < |s| => if i == 0 then UpperChar(s[0]) else LowerChar(s[i]))
  }

  /** A capitalized word: an upper-case letter followed by lower-case letters. */
  predicate IsTitleWord(w: string) {
    && |w| > 0
    && IsUpperAscii(w[0])
    && forall i :: 1 <= i < |w| ==> IsLowerAscii(w[i])
  }

  /** Two characters that upper-case to the same capital letter are the ones that lower-case alike. */
  lemma UpperIsLowerFold(c: char, u: char)
    requires IsUpperAscii(u)
    ensures UpperChar(c) == u <==> LowerChar(c) == LowerChar(u)
  {
  }

  /**
   * `s.capitalize()` yields the capitalized word `w` exactly when `s` is `w`
   * in some mixture of cases, that is when `s.lower() == w.lower()`.
   */
  lemma CapitalizeMatches(s: string, w: string)
    requires IsTitleWord(w)
    ensures Capitalize(s) == w <==> Lower(s) == Lower(w)
  {
    if Capitalize(s) == w {
      UpperIsLowerFold(s[0], w[0]);
      assert forall i :: 0 <= i < |s| ==> Lower(s)[i] == Lower(w)[i];
    }
    if Lower(s) == Lower(w) {
      UpperIsLowerFold(s[0], w[0]);
      assert Lower(s)[0] == Lower(w)[0];
      forall i | 0 <= i < |w| ensures Capitalize(s)[i] == w[i] {
        assert Lower(s)[i] == Lower(w)[i];
        if i > 0 {
          assert IsLowerAscii(w[i]);
        }
      }
    }
  }

  /** `s.lstrip()`: drops the leading white space of `s` and nothing else. */
  function TrimLeft(s: string): (r: string)
    ensures |r| <= |s| && r == s[|s| - |r|..]
    ensures forall i :: 0 <= i < |s| - |r| ==> IsSpace(s[i])
    ensures r == [] || !IsSpace(r[0])
    decreases |s|
  {
    if |s| > 0 && IsSpace(s[0]) then TrimLeft(s[1..]) else s
  }

  /** `s.rstrip()`: drops the trailing white space of `s` and nothing else. */
  function TrimRight(s: string): (r: string)
    ensures |r| <= |s| && r == s[..|r|]
    ensures forall i :: |r| <= i < |s| ==> IsSpace(s[i])
    ensures r == [] || !IsSpace(r[|r| - 1])
    decreases |s|
  {
    if |s| > 0 && IsSpace(s[|s| - 1]) then TrimRight(s[..|s| - 1]) else s
  }

  /** `s.strip()`. */
  function Strip(s: string): string {
    TrimLeft(TrimRight(s))
  }

  /** `strip()` leaves alone a string that neither starts nor ends with white space. */
  lemma StripUntrimmed(s: string)
    requires s == [] || (!IsSpace(s[0]) && !IsSpace(s[|s| - 1]))
    ensures Strip(s) == s
  {
  }

  /** A white-space character at the end is removed by `strip()` like any other. */
  lemma StripSpaceSuffix(s: string, c: char)
    requires IsSpace(c)
    ensures Strip(s + [c]) == Strip(s)
  {
    assert (s + [c])[..|s|] == s;
  }

  /** The position of the first `c` in `s`, or `|s|` when there is none. */
  function IndexOf(s: string, c: char): (k: nat)
    ensures k <= |s|
    ensures k < |s| ==> s[k] == c
    ensures forall i :: 0 <= i < k ==> s[i] != c
    decreases |s|
  {
    if s == [] then 0 else if s[0] == c then 0 else 1 + IndexOf(s[1..], c)
  }

  lemma IndexOfAbsent(s: string, c: char)
    requires c !in s
    ensures IndexOf(s, c) == |s|
  {
  }

  lemma IndexOfAfter(a: string, c: char, b: string)
    requires c !in a
    ensures IndexOf(a + [c] + b, c) == |a|
  {
    assert (a + [c] + b)[|a|] == c;
  }

  /** `s.split(sep)` for a one-character separator. */
  function Split(s: string, sep: char): (r: seq<string>)
    ensures |r| >= 1
    ensures forall i :: 0 <= i < |r| ==> sep !in r[i]
    decreases |s|
  {
    var k := IndexOf(s, sep);
    if k == |s| then [s] else [s[..k]] + Split(s[k + 1..], sep)
  }

  /** `sep.join(parts)`. */
  function Join(parts: seq<string>, sep: char): string
    decreases |parts|
  {
    if parts == [] then []
    else if |parts| == 1 then parts[0]
    else parts[0] + [sep] + Join(parts[1..], sep)
  }

  lemma SplitAbsent(s: string, sep: char)
    requires sep !in s
    ensures Split(s, sep) == [s]
  {
    IndexOfAbsent(s, sep);
  }

  lemma SplitAfter(a: string, sep: char, b: string)
    requires sep !in a
    ensures Split(a + [sep] + b, sep) == [a] + Split(b, sep)
  {
    var s := a + [sep] + b;
    IndexOfAfter(a, sep, b);
    assert s[..|a|] == a;
    assert s[|a| + 1..] == b;
  }

  /** Splitting what was joined gives the parts back, when no part holds the separator. */
  lemma {:induction false} SplitJoin(parts: seq<string>, sep: char)
    requires |parts| >= 1
    requires forall i :: 0 <= i < |parts| ==> sep !in parts[i]
    ensures Split(Join(parts, sep), sep) == parts
    decreases |parts|
  {
    if |parts| == 1 {
      SplitAbsent(parts[0], sep);
    } else {
      SplitJoin(parts[1..], sep);
      SplitAfter(parts[0], sep, Join(parts[1..], sep));
    }
  }

  /** Joining the pieces of a split gives the string back. */
  lemma {:induction false} JoinSplit(s: string, sep: char)
    ensures Join(Split(s, sep), sep) == s
    decreases |s|
  {
    var k := IndexOf(s, sep);
    if k < |s| {
      var head, rest := s[..k], s[k + 1..];
      var parts := Split(rest, sep);
      assert Split(s, sep) == [head] + parts;
      JoinSplit(rest, sep);
      JoinCons(head, parts, sep);
      assert s == head + [sep] + rest;
    }
  }

  lemma JoinCons(a: string, parts: seq<string>, sep: char)
    requires |parts| >= 1
    ensures Join([a] + parts, sep) == a + [sep] + Join(parts, sep)
  {
    assert ([a] + parts)[1..] == parts;
  }

  /**
   * `readline()` on a text file whose unread part is `s`: the line up to and
   * including the first newline, or everything that is left; and what
   * remains after it.
   */
  function ReadLine(s: string): (r: (string, string))
    ensures r.0 + r.1 == s
    ensures s != [] ==> r.0 != []
    ensures forall i :: 0 <= i < |r.0| - 1 ==> r.0[i] != '\n'
    ensures r.1 != [] ==> r.0[|r.0| - 1] == '\n'
  {
    var k := IndexOf(s, '\n');
    if k == |s| then (s, []) else (s[..k + 1], s[k + 1..])
  }

  /** A line without a newline of its own, followed by one, is read as one line. */
  lemma ReadLineOf(x: string, rest: string)
    requires '\n' !in x
    ensures ReadLine(x + "\n" + rest) == (x + "\n", rest)
  {
    var s := x + "\n" + rest;
    IndexOfAfter(x, '\n', rest);
    assert s[..|x| + 1] == x + "\n";
    assert s[|x| + 1..] == rest;
  }

  /** The `{s:<width}` format: `s` padded with spaces on the right to `width`, never cut. */
  function LeftJustify(s: string, width: nat): (r: string)
    ensures |r| == if |s| < width then width else |s|
    ensures r[..|s|] == s
    ensures forall i :: |s| <= i < |r| ==> r[i] == ' '
  {
    if |s| < width then s + seq(width - |s|, _ => ' ') else s
  }
}
