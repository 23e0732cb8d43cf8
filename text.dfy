/**
 * String operations of Python's `str` that the task workflow engine relies on:
 * `strip`, `split` (with and without a limit), `join`, `in`, `startswith`,
 * `replace`, and decimal formatting of an integer.
 *
 * Whitespace is what Python's `str.isspace()` accepts, which is also what
 * `str.strip()` removes and what the regular-expression class `\s` matches.
 */
module Text {

  const Whitespace: set<char> := {
    '\t', '\n', '\U{000B}', '\U{000C}', '\r', '\U{001C}', '\U{001D}', '\U{001E}', '\U{001F}',
    ' ', '\U{0085}', '\U{00A0}', '\U{1680}',
    '\U{2000}', '\U{2001}', '\U{2002}', '\U{2003}', '\U{2004}', '\U{2005}', '\U{2006}',
    '\U{2007}', '\U{2008}', '\U{2009}', '\U{200A}',
    '\U{2028}', '\U{2029}', '\U{202F}', '\U{205F}', '\U{3000}'
  }

  predicate IsSpace(c: char) {
    c in Whitespace
  }

  /** A character matched by the regular-expression class `\w` (ASCII part). */
  predicate IsWordChar(c: char) {
    ('a' <= c <= 'z') || ('A' <= c <= 'Z') || ('0' <= c <= '9') || c == '_'
  }

  predicate IsDigit(c: char) {
    '0' <= c <= '9'
  }

  predicate AllIn(s: string, cs: set<char>) {
    forall i :: 0 <= i < |s| ==> s[i] in cs
  }

  // ---------------------------------------------------------------------------
  // strip

  /** `s.lstrip(cs)`: drop the longest prefix made of characters of `cs`. */
  function StripStart(s: string, cs: set<char>): string {
    if |s| > 0 && s[0] in cs then StripStart(s[1..], cs) else s
  }

  /** `s.rstrip(cs)`: drop the longest suffix made of characters of `cs`. */
  function StripEnd(s: string, cs: set<char>): string {
    if |s| > 0 && s[|s| - 1] in cs then StripEnd(s[..|s| - 1], cs) else s
  }

  /** `s.strip(cs)`. */
  function Strip(s: string, cs: set<char>): string {
    StripEnd(StripStart(s, cs), cs)
  }

  /** `s.lstrip()`, `s.rstrip()` and `s.strip()` with no argument. */
  function TrimStart(s: string): string { StripStart(s, Whitespace) }
  function TrimEnd(s: string): string { StripEnd(s, Whitespace) }
  function Trim(s: string): string { Strip(s, Whitespace) }

  lemma {:induction false} StripStartSpec(s: string, cs: set<char>)
    ensures var r := StripStart(s, cs);
      && |r| <= |s| && r == s[|s| - |r|..]
      && AllIn(s[..|s| - |r|], cs)
      && (r == [] || r[0] !in cs)
  {
    if |s| > 0 && s[0] in cs {
      StripStartSpec(s[1..], cs);
      var r := StripStart(s[1..], cs);
      assert s[1..][..|s| - 1 - |r|] == s[1..|s| - |r|];
      assert forall i :: 1 <= i < |s| - |r| ==> s[i] == s[1..][..|s| - 1 - |r|][i - 1];
    }
  }

  lemma {:induction false} StripEndSpec(s: string, cs: set<char>)
    ensures var r := StripEnd(s, cs);
      && |r| <= |s| && r == s[..|r|]
      && AllIn(s[|r|..], cs)
      && (r == [] || r[|r| - 1] !in cs)
  {
    if |s| > 0 && s[|s| - 1] in cs {
      StripEndSpec(s[..|s| - 1], cs);
      var r := StripEnd(s[..|s| - 1], cs);
      assert forall i :: |r| <= i < |s| - 1 ==> s[i] == s[..|s| - 1][|r|..][i - |r|];
    }
  }

  /**
   * `s.strip(cs)` is the middle part of `s` left once a run of characters of
   * `cs` is cut from each end, and it neither starts nor ends with one of them.
   * These two facts determine the result uniquely.
   */
  lemma StripSpec(s: string, cs: set<char>)
    ensures var r := Strip(s, cs);
      && (exists i, j :: 0 <= i <= j <= |s| && r == s[i..j] && AllIn(s[..i], cs) && AllIn(s[j..], cs))
      && (r == [] || (r[0] !in cs && r[|r| - 1] !in cs))
  {
    var m := StripStart(s, cs);
    StripStartSpec(s, cs);
    StripEndSpec(m, cs);
    var r := StripEnd(m, cs);
    var i := |s| - |m|;
    var j := i + |r|;
    assert r == s[i..j];
    assert forall k :: j <= k < |s| ==> s[k] == m[|r|..][k - j];
    assert AllIn(s[j..], cs);
  }

  /** Stripping twice strips nothing more. */
  lemma StripIdempotent(s: string, cs: set<char>)
    ensures Strip(Strip(s, cs), cs) == Strip(s, cs)
  {
    var r := Strip(s, cs);
    StripSpec(s, cs);
    assert StripStart(r, cs) == r;
    assert StripEnd(r, cs) == r;
  }

  lemma {:induction false} StripStartAppend(a: string, b: string, cs: set<char>)
    requires AllIn(a, cs)
    ensures StripStart(a + b, cs) == StripStart(b, cs)
  {
    if a != [] {
      assert (a + b)[0] == a[0];
      assert (a + b)[1..] == a[1..] + b;
      assert forall i :: 0 <= i < |a| - 1 ==> a[1..][i] == a[i + 1];
      StripStartAppend(a[1..], b, cs);
    } else {
      assert a + b == b;
    }
  }

  lemma StripStartNone(s: string, cs: set<char>)
    requires s == [] || s[0] !in cs
    ensures StripStart(s, cs) == s
  {
  }

  /** Stripping the end of `a + b` keeps `a` whole when `b` holds a kept character. */
  lemma {:induction false} StripEndKeepsPrefix(a: string, b: string, cs: set<char>)
    requires exists k :: 0 <= k < |b| && b[k] !in cs
    ensures StripEnd(a + b, cs) == a + StripEnd(b, cs)
  {
    var k :| 0 <= k < |b| && b[k] !in cs;
    assert (a + b)[|a + b| - 1] == b[|b| - 1];
    if b[|b| - 1] in cs {
      assert (a + b)[..|a + b| - 1] == a + b[..|b| - 1];
      assert k < |b| - 1;
      assert b[..|b| - 1][k] == b[k];
      StripEndKeepsPrefix(a, b[..|b| - 1], cs);
    }
  }

  lemma {:induction false} StripEndAll(s: string, cs: set<char>)
    requires AllIn(s, cs)
    ensures StripEnd(s, cs) == []
  {
    if s != [] {
      StripEndAll(s[..|s| - 1], cs);
    }
  }

  // ---------------------------------------------------------------------------
  // searching

  /** `s.find(c)`, with `|s|` standing for "absent". */
  function IndexOf(s: string, c: char): (r: nat)
    ensures r <= |s|
    ensures r < |s| ==> s[r] == c
    ensures forall k :: 0 <= k < r ==> s[k] != c
  {
    if s == [] then 0 else if s[0] == c then 0 else 1 + IndexOf(s[1..], c)
  }

  /** `s.rfind(c)`, with -1 standing for "absent". */
  function LastIndexOf(s: string, c: char): (r: int)
    ensures -1 <= r < |s|
    ensures r >= 0 ==> s[r] == c
    ensures forall k :: r < k < |s| ==> s[k] != c
  {
    if s == [] then -1
    else if s[|s| - 1] == c then |s| - 1
    else LastIndexOf(s[..|s| - 1], c)
  }

  /** Length of the longest prefix of `s` made of `\w` characters. */
  function WordPrefix(s: string): (n: nat)
    ensures n <= |s|
    ensures forall k :: 0 <= k < n ==> IsWordChar(s[k])
    ensures n < |s| ==> !IsWordChar(s[n])
  {
    if s != [] && IsWordChar(s[0]) then 1 + WordPrefix(s[1..]) else 0
  }

  predicate StartsWith(s: string, prefix: string) {
    |prefix| <= |s| && s[..|prefix|] == prefix
  }

  /** A string that starts with `prefix` is `prefix` followed by the rest. */
  lemma StartsWithSplit(s: string, prefix: string)
    requires StartsWith(s, prefix)
    ensures s == prefix + s[|prefix|..]
  {
    assert s == s[..|prefix|] + s[|prefix|..];
  }

  /** The two halves of a concatenation are recovered by slicing. */
  lemma SliceConcat(x: string, y: string)
    ensures (x + y)[..|x|] == x && (x + y)[|x|..] == y
  {
  }

  /** Regrouping a five-way concatenation. */
  lemma Concat5(a: string, b: string, c: string, d: string, e: string, f: string)
    ensures a + (b + (c + (d + (e + f)))) == a + b + c + d + e + f
  {
    calc {
      a + (b + (c + (d + (e + f))));
      a + (b + (c + (d + e + f)));
      a + (b + (c + d + e + f));
      a + (b + c + d + e + f);
      a + b + c + d + e + f;
    }
  }

  /** `s.find(pat)`, with `|s|` standing for "absent". */
  function Find(s: string, pat: string): (r: nat)
    requires pat != []
    ensures r <= |s|
    ensures r < |s| ==> StartsWith(s[r..], pat)
    ensures forall k :: 0 <= k < r ==> !StartsWith(s[k..], pat)
  {
    if |s| < |pat| then |s|
    else if StartsWith(s, pat) then 0
    else
      var r := Find(s[1..], pat);
      assert forall k :: 1 <= k <= |s| ==> s[1..][k - 1..] == s[k..];
      1 + r
  }

  /** Python's `pat in s`: `pat` occurs somewhere in `s`. */
  predicate Contains(s: string, pat: string) {
    exists k :: 0 <= k <= |s| && StartsWith(s[k..], pat)
  }

  /** The scanning search finds an occurrence exactly when there is one. */
  lemma FindContains(s: string, pat: string)
    requires pat != []
    ensures Find(s, pat) < |s| <==> Contains(s, pat)
  {
    var r := Find(s, pat);
    if Contains(s, pat) {
      var k :| 0 <= k <= |s| && StartsWith(s[k..], pat);
      assert k < |s|;
    }
  }

  /** Nothing in `a` can start the pattern, so the search skips `a` whole. */
  lemma {:induction false} FindSkip(a: string, b: string, pat: string)
    requires pat != [] && pat[0] !in a
    ensures Find(a + b, pat) == |a| + Find(b, pat)
  {
    if a != [] {
      assert (a + b)[0] == a[0] != pat[0];
      assert (a + b)[1..] == a[1..] + b;
      assert pat[0] !in a[1..] by {
        assert forall x :: x in a[1..] ==> x in a;
      }
      FindSkip(a[1..], b, pat);
      if |a + b| >= |pat| {
        assert !StartsWith(a + b, pat) by {
          assert (a + b)[..|pat|][0] == a[0];
        }
      }
    } else {
      assert a + b == b;
    }
  }

  lemma FindAtStart(s: string, pat: string)
    requires pat != [] && StartsWith(s, pat)
    ensures Find(s, pat) == 0
  {
  }

  /** The first occurrence of `pat` in `pre + pat + rest`, when `pre` cannot start it. */
  lemma FindAfter(pre: string, pat: string, rest: string)
    requires pat != [] && pat[0] !in pre
    ensures Find(pre + pat + rest, pat) == |pre|
    ensures (pre + pat + rest)[|pre| + |pat|..] == rest
  {
    assert pre + pat + rest == pre + (pat + rest);
    FindSkip(pre, pat + rest, pat);
    assert StartsWith(pat + rest, pat);
    FindAtStart(pat + rest, pat);
  }

  /** Leading whitespace is stripped up to the first kept character. */
  lemma TrimStartBlanks(blanks: string, t: string)
    requires AllIn(blanks, Whitespace)
    requires t == [] || !IsSpace(t[0])
    ensures TrimStart(blanks + t) == t
  {
    StripStartAppend(blanks, t, Whitespace);
    StripStartNone(t, Whitespace);
  }

  /** The first newline of `line + "\n" + rest` ends `line`. */
  lemma IndexOfLine(line: string, rest: string)
    requires '\n' !in line
    ensures IndexOf(line + "\n" + rest, '\n') == |line|
    ensures (line + "\n" + rest)[..|line|] == line
    ensures (line + "\n" + rest)[|line| + 1..] == rest
  {
    assert line + "\n" + rest == line + ("\n" + rest);
    IndexOfSkip(line, "\n" + rest, '\n');
  }

  lemma {:induction false} IndexOfSkip(a: string, b: string, c: char)
    requires c !in a
    ensures IndexOf(a + b, c) == |a| + IndexOf(b, c)
  {
    if a != [] {
      assert (a + b)[0] == a[0];
      assert (a + b)[1..] == a[1..] + b;
      assert c !in a[1..] by {
        assert forall x :: x in a[1..] ==> x in a;
      }
      IndexOfSkip(a[1..], b, c);
    } else {
      assert a + b == b;
    }
  }

  // ---------------------------------------------------------------------------
  // split and join

  /**
   * `s.split(sep, maxsplit)`: cut at the first `maxsplit` occurrences of `sep`
   * (Python's `split(sep)` with no limit is `SplitN(s, sep, |s|)`).
   */
  function SplitN(s: string, sep: char, maxsplit: nat): (parts: seq<string>)
    ensures |parts| >= 1
    decreases |s|
  {
    var i := IndexOf(s, sep);
    if maxsplit == 0 || i == |s| then [s]
    else [s[..i]] + SplitN(s[i + 1..], sep, maxsplit - 1)
  }

  /** `s.split(sep)`: a string holds at most `|s|` separators. */
  function Split(s: string, sep: char): seq<string> {
    SplitN(s, sep, |s|)
  }

  /** `sep.join(parts)`. */
  function Join(parts: seq<string>, sep: string): string {
    if parts == [] then ""
    else if |parts| == 1 then parts[0]
    else parts[0] + sep + Join(parts[1..], sep)
  }

  /** Joining the pieces of a split with the separator gives back the string. */
  lemma {:induction false} JoinSplitN(s: string, sep: char, maxsplit: nat)
    ensures Join(SplitN(s, sep, maxsplit), [sep]) == s
    decreases |s|
  {
    var i := IndexOf(s, sep);
    if maxsplit != 0 && i != |s| {
      var head, rest := s[..i], s[i + 1..];
      var tail := SplitN(rest, sep, maxsplit - 1);
      assert SplitN(s, sep, maxsplit) == [head] + tail;
      calc {
        Join([head] + tail, [sep]);
        { JoinCons(head, tail, [sep]); }
        head + [sep] + Join(tail, [sep]);
        { JoinSplitN(rest, sep, maxsplit - 1); }
        head + [sep] + rest;
        { SliceAround(s, i); }
        s;
      }
    }
  }

  lemma SliceAround(s: string, i: nat)
    requires i < |s|
    ensures s[..i] + [s[i]] + s[i + 1..] == s
  {
  }

  lemma JoinCons(a: string, rest: seq<string>, sep: string)
    requires rest != []
    ensures Join([a] + rest, sep) == a + sep + Join(rest, sep)
  {
    assert ([a] + rest)[1..] == rest;
  }

  /** Only the last piece of a limited split may still hold the separator. */
  lemma {:induction false} SplitNPieces(s: string, sep: char, maxsplit: nat)
    ensures var parts := SplitN(s, sep, maxsplit);
      && |parts| <= maxsplit + 1
      && forall k :: 0 <= k < |parts| - 1 ==> sep !in parts[k]
    decreases |s|
  {
    var i := IndexOf(s, sep);
    if maxsplit != 0 && i != |s| {
      SplitNPieces(s[i + 1..], sep, maxsplit - 1);
      assert sep !in s[..i];
    }
  }

  /** Splitting a join of separator-free pieces gives back the pieces. */
  lemma {:induction false} SplitJoin(parts: seq<string>, sep: char)
    requires parts != []
    requires forall k :: 0 <= k < |parts| ==> sep !in parts[k]
    ensures Split(Join(parts, [sep]), sep) == parts
  {
    JoinLength(parts, [sep]);
    SplitJoinN(parts, sep, |Join(parts, [sep])|);
  }

  lemma {:induction false} JoinLength(parts: seq<string>, sep: string)
    ensures |sep| > 0 && parts != [] ==> |Join(parts, sep)| >= |parts| - 1
  {
    if |parts| > 1 {
      JoinLength(parts[1..], sep);
    }
  }

  lemma {:induction false} SplitJoinN(parts: seq<string>, sep: char, maxsplit: nat)
    requires parts != [] && |parts| <= maxsplit + 1
    requires forall k :: 0 <= k < |parts| ==> sep !in parts[k]
    ensures SplitN(Join(parts, [sep]), sep, maxsplit) == parts
    decreases |parts|
  {
    if |parts| == 1 {
      SplitNNone(parts[0], sep, maxsplit);
    } else {
      var rest := Join(parts[1..], [sep]);
      assert parts == [parts[0]] + parts[1..];
      JoinCons(parts[0], parts[1..], [sep]);
      SplitNCons(parts[0], rest, sep, maxsplit);
      SplitJoinN(parts[1..], sep, maxsplit - 1);
    }
  }

  /** A string without the separator splits into itself. */
  lemma SplitNNone(a: string, sep: char, maxsplit: nat)
    requires sep !in a
    ensures SplitN(a, sep, maxsplit) == [a]
  {
    assert IndexOf(a, sep) == |a|;
  }

  /** A separator-free word then the separator: the word is the first piece. */
  lemma SplitNCons(a: string, b: string, sep: char, maxsplit: nat)
    requires sep !in a && maxsplit > 0
    ensures SplitN(a + [sep] + b, sep, maxsplit) == [a] + SplitN(b, sep, maxsplit - 1)
  {
    var s := a + [sep] + b;
    assert s == a + ([sep] + b);
    IndexOfSkip(a, [sep] + b, sep);
    assert s[..|a|] == a && s[|a| + 1..] == b;
  }

  /** Two separator-free words and a tail, joined by the separator, split back into three. */
  lemma SplitThreeOf(a: string, b: string, c: string, sep: char)
    requires sep !in a && sep !in b
    ensures SplitN(a + [sep] + b + [sep] + c, sep, 2) == [a, b, c]
  {
    assert a + [sep] + b + [sep] + c == a + [sep] + (b + [sep] + c);
    SplitNCons(a, b + [sep] + c, sep, 2);
    SplitNCons(b, c, sep, 1);
  }

  /** A split into at most three pieces that yields three is cut at two separators. */
  lemma SplitThree(s: string, sep: char)
    requires |SplitN(s, sep, 2)| >= 3
    ensures var parts := SplitN(s, sep, 2);
      && |parts| == 3 && sep !in parts[0] && sep !in parts[1]
      && s == parts[0] + [sep] + (parts[1] + [sep] + parts[2])
  {
    var parts := SplitN(s, sep, 2);
    JoinSplitN(s, sep, 2);
    SplitNPieces(s, sep, 2);
    assert |parts| == 3;
    assert sep !in parts[0] && sep !in parts[1];
    assert Join(parts[1..], [sep]) == parts[1] + [sep] + parts[2] by {
      assert parts[1..][1..] == [parts[2]];
    }
    assert s == parts[0] + [sep] + Join(parts[1..], [sep]);
  }

  // ---------------------------------------------------------------------------
  // replace

  /** `s.replace(target, replacement)`: left-to-right, non-overlapping. */
  function Replace(s: string, target: string, replacement: string): string
    requires target != []
    decreases |s|
  {
    if s == [] then ""
    else if StartsWith(s, target) then replacement + Replace(s[|target|..], target, replacement)
    else [s[0]] + Replace(s[1..], target, replacement)
  }

  /** A string in which the target cannot start is left as it is. */
  lemma {:induction false} ReplaceAbsent(s: string, target: string, replacement: string)
    requires target != [] && target[0] !in s
    ensures Replace(s, target, replacement) == s
  {
    if s != [] {
      assert !StartsWith(s, target) by {
        if |s| >= |target| { assert s[..|target|][0] == s[0]; }
      }
      assert target[0] !in s[1..] by {
        assert forall x :: x in s[1..] ==> x in s;
      }
      ReplaceAbsent(s[1..], target, replacement);
    }
  }

  /** A leading target is replaced, and the rest is scanned on its own. */
  lemma ReplaceLeading(target: string, s: string, replacement: string)
    requires target != []
    ensures Replace(target + s, target, replacement) == replacement + Replace(s, target, replacement)
  {
    assert StartsWith(target + s, target) by { assert (target + s)[..|target|] == target; }
    assert (target + s)[|target|..] == s;
  }

  // ---------------------------------------------------------------------------
  // decimal formatting

  function DigitChar(d: nat): char
    requires d < 10
  {
    ['0', '1', '2', '3', '4', '5', '6', '7', '8', '9'][d]
  }

  /** `str(n)` for a non-negative integer. */
  function NatToString(n: nat): (s: string)
    ensures s != [] && forall k :: 0 <= k < |s| ==> IsDigit(s[k])
  {
    if n < 10 then [DigitChar(n)] else NatToString(n / 10) + [DigitChar(n % 10)]
  }

  lemma DigitCharInjective(a: nat, b: nat)
    requires a < 10 && b < 10 && DigitChar(a) == DigitChar(b)
    ensures a == b
  {
  }

  /** Different numbers print differently, so `task1`, `task2`, ... never collide. */
  lemma {:induction false} NatToStringInjective(a: nat, b: nat)
    requires NatToString(a) == NatToString(b)
    ensures a == b
  {
    var sa, sb := NatToString(a), NatToString(b);
    if a < 10 && b < 10 {
      DigitCharInjective(a, b);
    } else if a >= 10 && b >= 10 {
      assert sa[|sa| - 1] == DigitChar(a % 10);
      assert sb[|sb| - 1] == DigitChar(b % 10);
      DigitCharInjective(a % 10, b % 10);
      assert sa[..|sa| - 1] == NatToString(a / 10);
      assert sb[..|sb| - 1] == NatToString(b / 10);
      NatToStringInjective(a / 10, b / 10);
    }
  }
}
