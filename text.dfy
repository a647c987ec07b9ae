/** Character classes and the string operations of Python's `str` that the router
    uses: `lower`, `in` (substring), `strip`, `join`, `split()` and `splitlines`. */
module Text {

  /** `str.isspace()` and the regex class `\s`, for the code points they accept. */
  predicate IsSpace(c: char) {
    || c == ' ' || c == '\t' || c == '\n' || c == '\r' || c == '\U{000B}' || c == '\U{000C}'
    || ('\U{001C}' <= c <= '\U{001F}') || c == '\U{0085}' || c == '\U{00A0}' || c == '\U{1680}'
    || ('\U{2000}' <= c <= '\U{200A}') || c == '\U{2028}' || c == '\U{2029}' || c == '\U{202F}'
    || c == '\U{205F}' || c == '\U{3000}'
  }

  predicate NotSpace(c: char) {
    !IsSpace(c)
  }

  predicate IsDigit(c: char) {
    '0' <= c <= '9'
  }

  predicate IsAsciiLetter(c: char) {
    ('a' <= c <= 'z') || ('A' <= c <= 'Z')
  }

  /** The Cyrillic letters U+0400..U+045F (basic alphabet plus Ё and the other
      national letters of the first block). */
  predicate IsCyrillicLetter(c: char) {
    '\U{0400}' <= c <= '\U{045F}'
  }

  predicate IsUpperChar(c: char) {
    ('A' <= c <= 'Z') || ('\U{0400}' <= c <= '\U{042F}')
  }

  predicate IsLowerChar(c: char) {
    ('a' <= c <= 'z') || ('\U{0430}' <= c <= '\U{045F}')
  }

  /** `str.lower()` on one character: Latin and Cyrillic capitals map to their small letters. */
  function LowerChar(c: char): (r: char)
    ensures !IsUpperChar(r)
    ensures IsUpperChar(c) ==> IsLowerChar(r)
    ensures !IsUpperChar(c) ==> r == c
  {
    if 'A' <= c <= 'Z' then (c as int + 32) as char
    else if '\U{0410}' <= c <= '\U{042F}' then (c as int + 32) as char
    else if '\U{0400}' <= c <= '\U{040F}' then (c as int + 80) as char
    else c
  }

  /** `str.lower()` */
  function Lower(s: string): (r: string)
    ensures |r| == |s|
    ensures forall i :: 0 <= i < |s| ==> r[i] == LowerChar(s[i])
  {
    if s == [] then [] else [LowerChar(s[0])] + Lower(s[1..])
  }

  /** No character of `s` changes under `lower()`. */
  predicate IsLowered(s: string) {
    forall i :: 0 <= i < |s| ==> LowerChar(s[i]) == s[i]
  }

  lemma LowerIsLowered(s: string)
    ensures IsLowered(Lower(s))
  {
  }

  /** Lower-casing a lower-case string changes nothing. */
  lemma LoweredFixed(s: string)
    requires IsLowered(s)
    ensures Lower(s) == s
  {
  }

  /** `needle in hay` for strings (the empty string occurs in every string). */
  predicate Contains(hay: string, needle: string)
    decreases |hay|
  {
    needle <= hay || (hay != [] && Contains(hay[1..], needle))
  }

  /** A string that contains a longer word also contains each of its prefixes. */
  lemma {:induction false} ContainsPrefix(hay: string, needle: string, more: string)
    requires Contains(hay, needle + more)
    ensures Contains(hay, needle)
    decreases |hay|
  {
    if needle + more <= hay {
      assert needle <= hay by {
        assert forall i :: 0 <= i < |needle| ==> needle[i] == (needle + more)[i];
      }
    } else {
      ContainsPrefix(hay[1..], needle, more);
    }
  }

  /** `word.lower() in text.lower()`: the case-insensitive substring test of the scorer
      and the triage rules. */
  predicate Occurs(text: string, word: string) {
    Contains(Lower(text), Lower(word))
  }

  /** Leading whitespace removed. */
  function TrimStart(s: string): (r: string)
    ensures |r| <= |s| && r == s[|s| - |r|..]
    ensures r == [] || !IsSpace(r[0])
  {
    if s != [] && IsSpace(s[0]) then TrimStart(s[1..]) else s
  }

  /** Trailing whitespace removed. */
  function TrimEnd(s: string): (r: string)
    ensures r <= s
    ensures r == [] || !IsSpace(r[|r| - 1])
    ensures s != [] && !IsSpace(s[0]) ==> r != []
  {
    if s != [] && IsSpace(s[|s| - 1]) then TrimEnd(s[..|s| - 1]) else s
  }

  /** `str.strip()`: the longest infix without whitespace at either end. */
  function Strip(s: string): (r: string)
    ensures |r| <= |s|
    ensures r == [] || (!IsSpace(r[0]) && !IsSpace(r[|r| - 1]))
  {
    TrimEnd(TrimStart(s))
  }

  /** Only an all-whitespace string strips to the empty string. */
  lemma StripBlank(s: string)
    ensures (forall i :: 0 <= i < |s| ==> IsSpace(s[i])) <==> Strip(s) == []
  {
    TrimStartAllSpace(s);
    var t := TrimStart(s);
    assert t != [] ==> TrimEnd(t) != [];
  }

  lemma {:induction false} TrimStartAllSpace(s: string)
    ensures (forall i :: 0 <= i < |s| ==> IsSpace(s[i])) <==> TrimStart(s) == []
  {
    if s != [] && IsSpace(s[0]) {
      TrimStartAllSpace(s[1..]);
      assert forall i :: 1 <= i < |s| ==> s[i] == s[1..][i - 1];
    }
  }

  /** `strip()` returns a prefix of what `lstrip()` leaves, which is a suffix. */
  lemma StripInfix(s: string)
    ensures TrimStart(s) == s[|s| - |TrimStart(s)|..]
    ensures Strip(s) == TrimStart(s)[..|Strip(s)|]
  {
    assert Strip(s) == TrimEnd(TrimStart(s));
  }

  /** A string's truth value in Python. */
  predicate NonEmpty(s: string) {
    s != ""
  }

  /** `sep.join(parts)` */
  function Join(sep: string, parts: seq<string>): string
  {
    if |parts| == 0 then ""
    else if |parts| == 1 then parts[0]
    else Join(sep, parts[..|parts| - 1]) + sep + parts[|parts| - 1]
  }

  /** Length of the longest prefix of `s` whose characters all satisfy `p`. */
  function RunLength(s: string, p: char -> bool): (n: nat)
    ensures n <= |s|
    ensures forall i :: 0 <= i < n ==> p(s[i])
    ensures n < |s| ==> !p(s[n])
  {
    if s == [] || !p(s[0]) then 0 else 1 + RunLength(s[1..], p)
  }

  /** The maximal runs of characters satisfying `p`, left to right. With `p` = "not
      whitespace" this is `str.split()`. */
  function Runs(s: string, p: char -> bool): (r: seq<string>)
    ensures forall k :: 0 <= k < |r| ==> r[k] != []
    decreases |s|
  {
    if s == [] then []
    else if !p(s[0]) then Runs(s[1..], p)
    else [s[..RunLength(s, p)]] + Runs(s[RunLength(s, p)..], p)
  }

  /** Every character of every run satisfies `p` and comes from `s`. */
  lemma {:induction false} RunsChars(s: string, p: char -> bool)
    ensures forall k, i :: 0 <= k < |Runs(s, p)| && 0 <= i < |Runs(s, p)[k]| ==> p(Runs(s, p)[k][i]) && Runs(s, p)[k][i] in s
    decreases |s|
  {
    if s == [] {
    } else if !p(s[0]) {
      RunsChars(s[1..], p);
      assert forall c :: c in s[1..] ==> c in s;
    } else {
      var n := RunLength(s, p);
      var rest := Runs(s[n..], p);
      RunsChars(s[n..], p);
      assert forall c :: c in s[n..] ==> c in s;
      assert forall c :: c in s[..n] ==> c in s;
      assert Runs(s, p) == [s[..n]] + rest;
      forall k, i | 0 <= k < |Runs(s, p)| && 0 <= i < |Runs(s, p)[k]|
        ensures p(Runs(s, p)[k][i]) && Runs(s, p)[k][i] in s
      {
        if k == 0 {
          assert Runs(s, p)[k][i] == s[i];
        } else {
          assert Runs(s, p)[k] == rest[k - 1];
        }
      }
    }
  }

  /** A character outside the class ends the leading run wherever it follows. */
  lemma {:induction false} RunLengthStops(a: string, c: char, b: string, p: char -> bool)
    requires !p(c)
    ensures RunLength(a + [c] + b, p) == RunLength(a, p)
  {
    if a != [] && p(a[0]) {
      assert (a + [c] + b)[1..] == a[1..] + [c] + b;
      RunLengthStops(a[1..], c, b, p);
    }
  }

  /** Splitting at a character outside the class splits the runs there. */
  lemma {:induction false} RunsSplit(a: string, c: char, b: string, p: char -> bool)
    requires !p(c)
    ensures Runs(a + [c] + b, p) == Runs(a, p) + Runs(b, p)
    decreases |a|
  {
    var s := a + [c] + b;
    if a == [] {
      assert s[1..] == b;
    } else if !p(a[0]) {
      assert s[1..] == a[1..] + [c] + b;
      RunsSplit(a[1..], c, b, p);
    } else {
      var n := RunLength(s, p);
      RunLengthStops(a, c, b, p);
      assert s[..n] == a[..n];
      assert s[n..] == a[n..] + [c] + b;
      RunsSplit(a[n..], c, b, p);
    }
  }

  /** A non-empty string of class characters is a single run. */
  lemma RunsWhole(t: string, p: char -> bool)
    requires t != [] && forall i :: 0 <= i < |t| ==> p(t[i])
    ensures Runs(t, p) == [t]
  {
    assert RunLength(t, p) == |t|;
    assert t[..|t|] == t && t[|t|..] == [];
    assert Runs(t[|t|..], p) == [];
  }

  /** `" ".join(parts).split() == parts` for non-empty parts without whitespace. */
  lemma {:induction false} WordsOfJoin(parts: seq<string>)
    requires forall k :: 0 <= k < |parts| ==> parts[k] != []
    requires forall k, i :: 0 <= k < |parts| && 0 <= i < |parts[k]| ==> NotSpace(parts[k][i])
    ensures Words(Join(" ", parts)) == parts
  {
    if |parts| == 1 {
      RunsWhole(parts[0], NotSpace);
    } else if |parts| > 1 {
      var init := parts[..|parts| - 1];
      var last := parts[|parts| - 1];
      WordsOfJoin(init);
      RunsSplit(Join(" ", init), ' ', last, NotSpace);
      RunsWhole(last, NotSpace);
      assert Join(" ", parts) == Join(" ", init) + [' '] + last;
    }
  }

  /** `str.split()` with no separator: the whitespace-separated words. */
  function Words(s: string): seq<string> {
    Runs(s, NotSpace)
  }

  /** The characters at which `str.splitlines()` breaks a line. */
  predicate IsLineBreak(c: char) {
    || c == '\n' || c == '\r' || c == '\U{000B}' || c == '\U{000C}'
    || ('\U{001C}' <= c <= '\U{001E}') || c == '\U{0085}' || c == '\U{2028}' || c == '\U{2029}'
  }

  predicate NotLineBreak(c: char) {
    !IsLineBreak(c)
  }

  /** `str.splitlines()`: lines without their terminators; "\r\n" is one terminator and
      a final terminator does not open an empty last line. */
  function SplitLines(s: string): (r: seq<string>)
    ensures forall k, i :: 0 <= k < |r| && 0 <= i < |r[k]| ==> !IsLineBreak(r[k][i])
    decreases |s|
  {
    if s == [] then []
    else
      var n := RunLength(s, NotLineBreak);
      if n == |s| then [s]
      else
        var skip := if s[n] == '\r' && n + 1 < |s| && s[n + 1] == '\n' then 2 else 1;
        [s[..n]] + SplitLines(s[n + skip..])
  }
}
