/**
 Character-level helpers shared by the relay: the option type, the
 whitespace class, Python's `str.strip()` and `"\n".join(...)`.
 */
module Wrappers {

  datatype Option<+T> = None | Some(value: T)
}

module Text {

  /** The characters for which Python's `str.isspace()` holds. The regular
      expression class `\s` on `str` patterns uses the same table, so this one
      predicate serves both the directive scan and every `.strip()`. */
  predicate IsSpace(c: char)
  {
    || ('\t' <= c <= '\r')                   // U+0009 .. U+000D
    || ('\U{1C}' <= c <= ' ')                 // U+001C .. U+0020
    || c == '\U{85}' || c == '\U{A0}' || c == '\U{1680}'
    || ('\U{2000}' <= c <= '\U{200A}')
    || c == '\U{2028}' || c == '\U{2029}' || c == '\U{202F}'
    || c == '\U{205F}' || c == '\U{3000}'
  }

  /** Number of leading whitespace characters of `s`. */
  function LeadingSpace(s: seq<char>): (n: nat)
    ensures n <= |s|
    ensures forall i | 0 <= i < n :: IsSpace(s[i])
    ensures n == |s| || !IsSpace(s[n])
  {
    if s == [] || !IsSpace(s[0]) then 0 else 1 + LeadingSpace(s[1..])
  }

  /** Length of `s` without its trailing whitespace. */
  function TrailingStart(s: seq<char>): (n: nat)
    ensures n <= |s|
    ensures forall i | n <= i < |s| :: IsSpace(s[i])
    ensures n == 0 || !IsSpace(s[n - 1])
  {
    if s == [] || !IsSpace(s[|s| - 1]) then |s| else TrailingStart(s[..|s| - 1])
  }

  /** Python's `s.strip()` with no argument: the text between the leading and
      the trailing whitespace, which is empty when `s` is all whitespace. */
  function Strip(s: seq<char>): (r: seq<char>)
    ensures LeadingSpace(s) + |r| <= |s|
    ensures r == s[LeadingSpace(s)..LeadingSpace(s) + |r|]
    ensures forall i | LeadingSpace(s) + |r| <= i < |s| :: IsSpace(s[i])
    ensures r == [] || (!IsSpace(r[0]) && !IsSpace(r[|r| - 1]))
  {
    var lo, hi := LeadingSpace(s), TrailingStart(s);
    if hi <= lo then [] else s[lo..hi]
  }

  /** A string is stripped when it neither starts nor ends with whitespace. */
  predicate IsStripped(s: seq<char>)
  {
    s == [] || (!IsSpace(s[0]) && !IsSpace(s[|s| - 1]))
  }

  /** Stripping removes exactly the outer whitespace: a stripped string is its
      own strip, and so stripping twice is stripping once. */
  lemma StripFixesStripped(s: seq<char>)
    ensures IsStripped(s) <==> Strip(s) == s
  {
    if IsStripped(s) && s != [] {
      assert LeadingSpace(s) == 0;
      assert TrailingStart(s) == |s|;
    }
  }

  lemma StripIdempotent(s: seq<char>)
    ensures Strip(Strip(s)) == Strip(s)
  {
    StripFixesStripped(Strip(s));
  }

  /** Trailing whitespace does not change the stripped text. */
  lemma StripIgnoresTrailingSpace(s: seq<char>, c: char)
    requires IsSpace(c)
    ensures Strip(s + [c]) == Strip(s)
  {
    var t := s + [c];
    assert t[..|t| - 1] == s;
    assert TrailingStart(t) == TrailingStart(s);
    LeadingSpaceAppend(s, c);
  }

  /** Appending a character leaves the leading whitespace alone unless the
      text was all whitespace. */
  lemma LeadingSpaceAppend(s: seq<char>, c: char)
    ensures LeadingSpace(s) < |s| ==> LeadingSpace(s + [c]) == LeadingSpace(s)
    ensures LeadingSpace(s) == |s| ==> LeadingSpace(s + [c]) >= |s|
  {
    var t := s + [c];
    assert forall i | 0 <= i < |s| :: t[i] == s[i];
  }

  /** Python's `sep.join(parts)`. */
  function Join(parts: seq<seq<char>>, sep: seq<char>): (r: seq<char>)
    ensures parts == [] ==> r == []
    ensures |parts| == 1 ==> r == parts[0]
  {
    if parts == [] then []
    else if |parts| == 1 then parts[0]
    else parts[0] + sep + Join(parts[1..], sep)
  }

  /** Python's `s.split("\n")`: the lines between newline characters; always
      at least one (possibly empty) line. */
  function SplitLines(s: seq<char>): (lines: seq<seq<char>>)
    ensures |lines| >= 1
    ensures forall k | 0 <= k < |lines| :: '\n' !in lines[k]
    decreases |s|
  {
    if '\n' !in s then [s]
    else
      var k := IndexOf(s, '\n');
      assert forall j | 0 <= j < k :: s[..k][j] == s[j];
      [s[..k]] + SplitLines(s[k + 1..])
  }

  /** Index of the first occurrence of `c` in `s`. */
  function IndexOf(s: seq<char>, c: char): (k: nat)
    requires c in s
    ensures k < |s| && s[k] == c
    ensures forall j | 0 <= j < k :: s[j] != c
  {
    if s[0] == c then 0 else 1 + IndexOf(s[1..], c)
  }

  /** Joining lines with "\n" and splitting the result on "\n" gives the lines
      back, provided none of them contains a newline. */
  lemma {:induction false} SplitJoin(lines: seq<seq<char>>)
    requires |lines| >= 1
    requires forall k | 0 <= k < |lines| :: '\n' !in lines[k]
    ensures SplitLines(Join(lines, "\n")) == lines
  {
    if |lines| > 1 {
      var rest := Join(lines[1..], "\n");
      assert Join(lines, "\n") == lines[0] + "\n" + rest;
      SplitFirstLine(lines[0], rest);
      SplitJoin(lines[1..]);
      assert [lines[0]] + lines[1..] == lines;
    }
  }

  /** Splitting peels off the text before the first newline as a line. */
  lemma SplitFirstLine(a: seq<char>, b: seq<char>)
    requires '\n' !in a
    ensures SplitLines(a + "\n" + b) == [a] + SplitLines(b)
  {
    var s := a + "\n" + b;
    assert s[|a|] == '\n';
    assert forall j | 0 <= j < |a| :: s[j] == a[j];
    var k := IndexOf(s, '\n');
    assert k == |a|;
    assert s[..k] == a;
    assert s[k + 1..] == b;
  }
}
