/**
 * The string operations the app borrows from Foundation, written out on
 * `seq<char>`: trimming `.whitespacesAndNewlines`, `components(separatedBy:)`,
 * `contains`, and ASCII stand-ins for the case-insensitive comparisons.
 */
module Text {

  /** Unicode White_Space, the set behind `CharacterSet.whitespacesAndNewlines`. */
  const Whitespace: set<char> := {
    '\t', '\n', '\U{000B}', '\U{000C}', '\r', ' ', '\U{0085}', '\U{00A0}', '\U{1680}',
    '\U{2000}', '\U{2001}', '\U{2002}', '\U{2003}', '\U{2004}', '\U{2005}', '\U{2006}',
    '\U{2007}', '\U{2008}', '\U{2009}', '\U{200A}',
    '\U{2028}', '\U{2029}', '\U{202F}', '\U{205F}', '\U{3000}'
  }

  predicate IsWhitespace(c: char) {
    c in Whitespace
  }

  /** How many whitespace characters `s` begins with. */
  function LeadingWhitespace(s: string): (n: nat)
    ensures n <= |s|
    ensures forall i {:trigger IsWhitespace(s[i])} :: 0 <= i < n ==> IsWhitespace(s[i])
    ensures n < |s| ==> !IsWhitespace(s[n])
  {
    if s != [] && IsWhitespace(s[0]) then 1 + LeadingWhitespace(s[1..]) else 0
  }

  /** How many whitespace characters `s` ends with. */
  function TrailingWhitespace(s: string): (n: nat)
    ensures n <= |s|
    ensures forall i {:trigger IsWhitespace(s[i])} :: |s| - n <= i < |s| ==> IsWhitespace(s[i])
    ensures n < |s| ==> !IsWhitespace(s[|s| - 1 - n])
  {
    if s != [] && IsWhitespace(s[|s| - 1]) then 1 + TrailingWhitespace(s[..|s| - 1]) else 0
  }

  /** `s.trimmingCharacters(in: .whitespacesAndNewlines)` */
  function Trim(s: string): string {
    var rest := s[LeadingWhitespace(s)..];
    rest[..|rest| - TrailingWhitespace(rest)]
  }

  /**
   * Trimming only removes whitespace, `LeadingWhitespace(s)` characters of it
   * in front and the rest behind, and leaves none at either end.
   */
  lemma TrimShape(s: string)
    ensures var a, r := LeadingWhitespace(s), Trim(s);
      && a + |r| <= |s| && r == s[a..a + |r|]
      && (forall i {:trigger IsWhitespace(s[i])} :: 0 <= i < a ==> IsWhitespace(s[i]))
      && (forall i {:trigger IsWhitespace(s[i])} :: a + |r| <= i < |s| ==> IsWhitespace(s[i]))
    ensures Trim(s) == [] || (!IsWhitespace(Trim(s)[0]) && !IsWhitespace(Trim(s)[|Trim(s)| - 1]))
  {
    var a := LeadingWhitespace(s);
    var rest := s[a..];
    var b := TrailingWhitespace(rest);
    var r := Trim(s);
    assert r == s[a..|s| - b];
    forall i | a + |r| <= i < |s| ensures IsWhitespace(s[i]) {
      assert s[i] == rest[i - a];
      assert IsWhitespace(rest[i - a]);
    }
    if r != [] {
      assert r[0] == s[a];
      assert r[|r| - 1] == rest[|rest| - 1 - b];
    }
  }

  /** A string with no whitespace at either end trims to itself. */
  lemma TrimUnchanged(s: string)
    requires s == [] || (!IsWhitespace(s[0]) && !IsWhitespace(s[|s| - 1]))
    ensures LeadingWhitespace(s) == 0 && TrailingWhitespace(s) == 0
    ensures Trim(s) == s
  {
    assert LeadingWhitespace(s) == 0;
    assert s[0..] == s;
    assert TrailingWhitespace(s) == 0;
  }

  /** Trimming keeps every occurrence of a character that is not whitespace. */
  lemma TrimKeepsCount(s: string, c: char)
    requires !IsWhitespace(c)
    ensures multiset(Trim(s))[c] == multiset(s)[c]
  {
    TrimShape(s);
    var a, r := LeadingWhitespace(s), Trim(s);
    var front, back := s[..a], s[a + |r|..];
    forall i | 0 <= i < |front| ensures IsWhitespace(front[i]) {
      assert front[i] == s[i];
    }
    forall i | 0 <= i < |back| ensures IsWhitespace(back[i]) {
      assert back[i] == s[a + |r| + i];
    }
    WhitespaceHasNo(front, c);
    WhitespaceHasNo(back, c);
    assert s == front + r + back;
    assert multiset(s) == multiset(front) + multiset(r) + multiset(back);
  }

  lemma WhitespaceHasNo(s: string, c: char)
    requires forall i {:trigger IsWhitespace(s[i])} :: 0 <= i < |s| ==> IsWhitespace(s[i])
    requires !IsWhitespace(c)
    ensures multiset(s)[c] == 0
  {
    assert c !in s;
  }

  /** `s.components(separatedBy: String(sep))`: the pieces between separators, always at least one. */
  function Split(s: string, sep: char): (parts: seq<string>)
    ensures |parts| == multiset(s)[sep] + 1
  {
    if s == [] then [""]
    else
      var rest := Split(s[1..], sep);
      assert s == [s[0]] + s[1..];
      if s[0] == sep then [""] + rest else [[s[0]] + rest[0]] + rest[1..]
  }

  /** The pieces glued back with `sep` between neighbours (no leading or trailing `sep`). */
  function Join(parts: seq<string>, sep: char): string {
    if parts == [] then ""
    else if |parts| == 1 then parts[0]
    else parts[0] + [sep] + Join(parts[1..], sep)
  }

  /** Splitting loses nothing: joining the pieces restores the input. */
  lemma {:induction false} JoinSplit(s: string, sep: char)
    ensures Join(Split(s, sep), sep) == s
  {
    if s != [] {
      var rest := Split(s[1..], sep);
      JoinSplit(s[1..], sep);
      var parts := Split(s, sep);
      assert s == [s[0]] + s[1..];
      if s[0] == sep {
        assert parts == [""] + rest && parts[1..] == rest;
        assert Join(parts, sep) == "" + [sep] + Join(rest, sep);
      } else if |rest| == 1 {
        assert parts == [[s[0]] + rest[0]];
      } else {
        var more := Join(rest[1..], sep);
        assert parts == [[s[0]] + rest[0]] + rest[1..] && parts[1..] == rest[1..];
        assert Join(parts, sep) == [s[0]] + rest[0] + [sep] + more;
        assert Join(rest, sep) == rest[0] + [sep] + more;
        ConcatAssoc([s[0]], rest[0], [sep]);
        ConcatAssoc([s[0]], rest[0] + [sep], more);
      }
    }
  }

  /** The first position of `c` in `s`, or `|s|` when there is none. */
  function IndexOf(s: string, c: char): (k: nat)
    ensures k <= |s|
    ensures k < |s| ==> s[k] == c
    ensures c !in s[..k]
    ensures k == |s| <==> c !in s
  {
    if s == [] then 0
    else if s[0] == c then 0
    else
      var k := 1 + IndexOf(s[1..], c);
      assert s[..k] == [s[0]] + s[1..][..k - 1];
      k
  }

  lemma {:induction false} SplitWithoutSep(s: string, sep: char)
    requires sep !in s
    ensures Split(s, sep) == [s]
  {
    if s != [] {
      assert sep !in s[1..];
      SplitWithoutSep(s[1..], sep);
      assert [s[0]] + s[1..] == s;
    }
  }

  /** A string with exactly one separator splits into the parts before and after it. */
  lemma {:induction false} SplitAtOnlySep(s: string, sep: char)
    requires multiset(s)[sep] == 1
    ensures IndexOf(s, sep) < |s|
    ensures Split(s, sep) == [s[..IndexOf(s, sep)], s[IndexOf(s, sep) + 1..]]
  {
    assert s == [s[0]] + s[1..];
    assert multiset(s) == multiset([s[0]]) + multiset(s[1..]);
    var tail := s[1..];
    if s[0] == sep {
      assert multiset(tail)[sep] == 0;
      SplitWithoutSep(tail, sep);
    } else {
      SplitAtOnlySep(tail, sep);
      var j := IndexOf(tail, sep);
      assert IndexOf(s, sep) == j + 1;
      assert Split(tail, sep) == [tail[..j], tail[j + 1..]];
      assert [s[0]] + tail[..j] == s[..j + 1];
      assert tail[j + 1..] == s[j + 2..];
    }
  }

  /** Concatenation regroups freely; stated once so that proofs need not rediscover it. */
  lemma ConcatAssoc(a: string, b: string, c: string)
    ensures (a + b) + c == a + (b + c)
  {
  }

  /** A non-empty sequence is its front followed by its last element. */
  lemma FrontThenLast<T>(s: seq<T>)
    requires s != []
    ensures s[..|s| - 1] + [s[|s| - 1]] == s
  {
  }

  /** `s` begins with `p`. */
  predicate StartsWith(s: string, p: string) {
    |p| <= |s| && s[..|p|] == p
  }

  /** `s.contains(p)`: `p` occurs in `s` at some position. */
  predicate Contains(s: string, p: string)
    decreases |s|
  {
    StartsWith(s, p) || (s != [] && Contains(s[1..], p))
  }

  /** A string contains whatever its suffix after `a` contains, and whatever `a` begins with. */
  lemma {:induction false} ContainsInConcat(a: string, b: string, p: string)
    ensures Contains(b, p) ==> Contains(a + b, p)
    ensures StartsWith(a, p) ==> Contains(a + b, p)
  {
    if StartsWith(a, p) {
      assert (a + b)[..|p|] == a[..|p|];
    }
    if a != [] {
      ContainsInConcat(a[1..], b, p);
      assert (a + b)[1..] == a[1..] + b;
    } else {
      assert a + b == b;
    }
  }

  /** Past a prefix that lacks the pattern's first character, an occurrence lies in the rest. */
  lemma {:induction false} ContainsPastPrefix(a: string, b: string, p: string)
    requires p != [] && p[0] !in a
    ensures Contains(a + b, p) <==> Contains(b, p)
  {
    ContainsInConcat(a, b, p);
    if a == [] {
      assert a + b == b;
    } else {
      assert (a + b)[0] == a[0] != p[0];
      assert (a + b)[1..] == a[1..] + b;
      assert p[0] !in a[1..];
      ContainsPastPrefix(a[1..], b, p);
    }
  }

  /** ASCII lower-casing of one character; every other character is unchanged. */
  function LowerChar(c: char): char {
    if 'A' <= c <= 'Z' then (c as int + 32) as char else c
  }

  /** ASCII upper-casing of one character; every other character is unchanged. */
  function UpperChar(c: char): char {
    if 'a' <= c <= 'z' then (c as int - 32) as char else c
  }

  /** ASCII stand-in for lower-casing: letters A-Z lowered. */
  function Lower(s: string): string {
    seq(|s|, i requires 0 <= i < |s| => LowerChar(s[i]))
  }

  /** ASCII stand-in for `uppercased()`: same length, letters a-z raised. */
  function Upper(s: string): string {
    seq(|s|, i requires 0 <= i < |s| => UpperChar(s[i]))
  }

  /** Upper-casing introduces no line break and removes none. */
  lemma UpperKeepsNewlines(s: string)
    ensures '\n' in Upper(s) <==> '\n' in s
  {
    if '\n' in s {
      var i :| 0 <= i < |s| && s[i] == '\n';
      assert Upper(s)[i] == '\n';
    }
  }

  /**
   * Lowering is a case fold: it leaves no capital A-Z, lowering twice is
   * lowering once, and upper-casing first makes no difference.
   */
  lemma CaseFold(s: string)
    ensures forall i :: 0 <= i < |Lower(s)| ==> !('A' <= Lower(s)[i] <= 'Z')
    ensures Lower(Lower(s)) == Lower(s)
    ensures Lower(Upper(s)) == Lower(s)
  {
    assert forall i :: 0 <= i < |s| ==> LowerChar(UpperChar(s[i])) == LowerChar(s[i]);
  }

  /** ASCII stand-in for a case-insensitive `contains`. */
  predicate ContainsIgnoringCase(s: string, p: string) {
    Contains(Lower(s), Lower(p))
  }

  /** The case-insensitive test cannot tell a text from its upper-cased form, on either side. */
  lemma IgnoringCaseIgnoresUpper(s: string, p: string)
    ensures ContainsIgnoringCase(Upper(s), p) <==> ContainsIgnoringCase(s, p)
    ensures ContainsIgnoringCase(s, Upper(p)) <==> ContainsIgnoringCase(s, p)
  {
    CaseFold(s);
    CaseFold(p);
  }
}
