/** The Kotlin string operations the requirement extractor relies on: `isWhitespace`, `trim`,
    `trimEnd`, `replace`, `lines` and `joinToString`, as functions on `seq<char>`. */
module Strings {

  /** Kotlin's `Char.isWhitespace()` on the JVM: `Character.isWhitespace` (tab, line feed, vertical
      tab, form feed, carriage return, the four separator controls U+001C..U+001F and the Unicode
      space, line and paragraph separators other than the no-break ones) or `Character.isSpaceChar`
      (which adds back the no-break spaces U+00A0, U+2007 and U+202F). */
  predicate IsWhitespace(c: char)
  {
    || c == '\t' || c == '\n' || c == '\U{000B}' || c == '\U{000C}' || c == '\r'
    || ('\U{001C}' <= c <= '\U{001F}')
    || c == ' ' || c == '\U{00A0}' || c == '\U{1680}'
    || ('\U{2000}' <= c <= '\U{200A}')
    || c == '\U{2028}' || c == '\U{2029}' || c == '\U{202F}' || c == '\U{205F}' || c == '\U{3000}'
  }

  /** Kotlin's `isBlank()`: empty or whitespace only. */
  predicate IsBlank(s: string)
  {
    forall i :: 0 <= i < |s| ==> IsWhitespace(s[i])
  }

  /** The string does not end in whitespace, as after `trimEnd()`. */
  predicate EndsTrimmed(s: string)
  {
    s == [] || !IsWhitespace(s[|s| - 1])
  }

  /** Kotlin's `trimEnd()`: drop trailing whitespace. */
  function TrimEnd(s: string): (r: string)
    ensures r <= s
    ensures r == [] || !IsWhitespace(r[|r| - 1])
    ensures forall i :: |r| <= i < |s| ==> IsWhitespace(s[i])
  {
    if s != [] && IsWhitespace(s[|s| - 1]) then TrimEnd(s[..|s| - 1]) else s
  }

  /** Drop leading whitespace. */
  function TrimStart(s: string): (r: string)
    ensures |r| <= |s| && r == s[|s| - |r|..]
    ensures r == [] || !IsWhitespace(r[0])
    ensures forall i :: 0 <= i < |s| - |r| ==> IsWhitespace(s[i])
  {
    if s != [] && IsWhitespace(s[0]) then TrimStart(s[1..]) else s
  }

  /** Kotlin's `trim()`: drop whitespace at both ends. */
  function Trim(s: string): string
  {
    TrimStart(TrimEnd(s))
  }

  /** `o` occurs in `s` starting at index `i`. */
  predicate OccursAt(o: string, s: string, i: nat)
  {
    i + |o| <= |s| && s[i..i + |o|] == o
  }

  /** `o` occurs nowhere in `s`. */
  ghost predicate Absent(o: string, s: string)
  {
    forall i: nat :: !OccursAt(o, s, i)
  }

  /** Kotlin's `String.replace(old, new)`: every non-overlapping occurrence of `pat`, scanning left
      to right, is replaced by `rep`. */
  function ReplaceAll(s: string, pat: string, rep: string): string
    requires pat != []
    decreases |s|
  {
    if |s| < |pat| then s
    else if s[..|pat|] == pat then rep + ReplaceAll(s[|pat|..], pat, rep)
    else [s[0]] + ReplaceAll(s[1..], pat, rep)
  }

  /** Kotlin's `lines()`: split at every line terminator, where a terminator is CR LF, LF or a lone
      CR (CR LF counts once); there is always at least one line, possibly empty. */
  function Lines(s: string): (r: seq<string>)
    ensures |r| >= 1
    ensures forall k :: 0 <= k < |r| ==> '\r' !in r[k] && '\n' !in r[k]
    ensures r[0] <= s
  {
    if s == [] then [[]]
    else if |s| >= 2 && s[0] == '\r' && s[1] == '\n' then [[]] + Lines(s[2..])
    else if s[0] == '\r' || s[0] == '\n' then [[]] + Lines(s[1..])
    else
      var t := Lines(s[1..]);
      [[s[0]] + t[0]] + t[1..]
  }

  /** Kotlin's `joinToString(sep)`. */
  function Join(ls: seq<string>, sep: string): string
  {
    if ls == [] then []
    else if |ls| == 1 then ls[0]
    else ls[0] + sep + Join(ls[1..], sep)
  }

  /** `trimEnd()` applied to every line. */
  function TrimEndAll(ls: seq<string>): (r: seq<string>)
    ensures |r| == |ls|
    ensures forall k :: 0 <= k < |r| ==> r[k] == TrimEnd(ls[k])
  {
    if ls == [] then [] else [TrimEnd(ls[0])] + TrimEndAll(ls[1..])
  }

  // ---------------------------------------------------------------------------------------------
  // Characters: which characters can appear in the result of each operation.

  /** `replace` produces only characters of its input and of the replacement. */
  lemma {:induction false} ReplaceAllChars(s: string, pat: string, rep: string)
    requires pat != []
    ensures forall c :: c in ReplaceAll(s, pat, rep) ==> c in s || c in rep
    decreases |s|
  {
    if |s| < |pat| {
    } else if s[..|pat|] == pat {
      ReplaceAllChars(s[|pat|..], pat, rep);
      assert forall c :: c in s[|pat|..] ==> c in s;
    } else {
      ReplaceAllChars(s[1..], pat, rep);
      assert forall c :: c in s[1..] ==> c in s;
    }
  }

  /** Replacing a one-character pattern by a text without that character removes it entirely. */
  lemma {:induction false} ReplaceCharRemoves(s: string, c: char, rep: string)
    requires c !in rep
    ensures c !in ReplaceAll(s, [c], rep)
    decreases |s|
  {
    if |s| >= 1 {
      ReplaceCharRemoves(s[1..], c, rep);
    }
  }

  /** Every line holds only characters of the text it was split from. */
  lemma {:induction false} LinesChars(s: string)
    ensures forall k, c :: 0 <= k < |Lines(s)| && c in Lines(s)[k] ==> c in s
    decreases |s|
  {
    if s == [] {
    } else if |s| >= 2 && s[0] == '\r' && s[1] == '\n' {
      LinesChars(s[2..]);
      assert forall c :: c in s[2..] ==> c in s;
    } else if s[0] == '\r' || s[0] == '\n' {
      LinesChars(s[1..]);
      assert forall c :: c in s[1..] ==> c in s;
    } else {
      LinesChars(s[1..]);
      assert forall c :: c in s[1..] ==> c in s;
      var t := Lines(s[1..]);
      assert Lines(s) == [[s[0]] + t[0]] + t[1..];
      forall k, c | 0 <= k < |Lines(s)| && c in Lines(s)[k]
        ensures c in s
      {
        if k == 0 {
          assert c == s[0] || c in t[0];
        } else {
          assert Lines(s)[k] == t[k];
        }
      }
    }
  }

  /** A joined text holds only characters of its parts and of the separator. */
  lemma {:induction false} JoinChars(ls: seq<string>, sep: string)
    ensures forall c :: c in Join(ls, sep) ==> c in sep || exists k :: 0 <= k < |ls| && c in ls[k]
  {
    if |ls| > 1 {
      JoinChars(ls[1..], sep);
      forall c | c in Join(ls, sep)
        ensures c in sep || exists k :: 0 <= k < |ls| && c in ls[k]
      {
        if c !in ls[0] && c !in sep {
          assert c in Join(ls[1..], sep);
          var k :| 0 <= k < |ls[1..]| && c in ls[1..][k];
          assert c in ls[k + 1];
        }
      }
    }
  }

  // ---------------------------------------------------------------------------------------------
  // Lines and Join are inverse on lines without terminators.

  /** A character other than a terminator is glued to the first line. */
  lemma LinesCons(c: char, u: string)
    requires c != '\r' && c != '\n'
    ensures Lines([c] + u) == [[c] + Lines(u)[0]] + Lines(u)[1..]
  {
    assert ([c] + u)[1..] == u;
  }

  /** One step of `LinesOfPrefix`: a non-terminator in front of the text joins the first line. */
  lemma LinesOfPrefixStep(c: char, rest: string, t: string)
    requires c != '\r' && c != '\n'
    requires Lines(rest + t) == [rest + Lines(t)[0]] + Lines(t)[1..]
    ensures Lines(([c] + rest) + t) == [([c] + rest) + Lines(t)[0]] + Lines(t)[1..]
  {
    assert ([c] + rest) + t == [c] + (rest + t);
    LinesCons(c, rest + t);
    assert [c] + (rest + Lines(t)[0]) == ([c] + rest) + Lines(t)[0];
  }

  /** Splitting a text that starts with a terminator-free line `l`: `l` is glued to the first line
      of the rest. */
  lemma {:induction false} LinesOfPrefix(l: string, t: string)
    requires '\r' !in l && '\n' !in l
    ensures Lines(l + t) == [l + Lines(t)[0]] + Lines(t)[1..]
    decreases |l|
  {
    if l == [] {
      assert l + t == t && l + Lines(t)[0] == Lines(t)[0];
    } else {
      assert l[0] in l;
      LinesOfPrefix(l[1..], t);
      LinesOfPrefixStep(l[0], l[1..], t);
      assert [l[0]] + l[1..] == l;
    }
  }

  /** `lines()` undoes `joinToString("\n")` on a non-empty list of terminator-free lines. */
  lemma {:induction false} LinesOfJoin(ls: seq<string>)
    requires |ls| >= 1
    requires forall k :: 0 <= k < |ls| ==> '\r' !in ls[k] && '\n' !in ls[k]
    ensures Lines(Join(ls, "\n")) == ls
  {
    if |ls| == 1 {
      LinesOfPrefix(ls[0], []);
      assert ls[0] + [] == ls[0];
    } else {
      LinesOfJoin(ls[1..]);
      var rest := Join(ls[1..], "\n");
      assert Join(ls, "\n") == ls[0] + ("\n" + rest);
      LinesOfPrefix(ls[0], "\n" + rest);
      assert ("\n" + rest)[1..] == rest;
      assert Lines("\n" + rest) == [[]] + ls[1..];
      assert ls[0] + [] == ls[0];
    }
  }

  // ---------------------------------------------------------------------------------------------
  // Occurrences of a word: which operations can create one.

  lemma AbsentInPrefix(o: string, s: string, p: string)
    requires p <= s && Absent(o, s)
    ensures Absent(o, p)
  {
    forall i: nat
      ensures !OccursAt(o, p, i)
    {
      if i + |o| <= |p| {
        assert p[i..i + |o|] == s[i..i + |o|];
        assert !OccursAt(o, s, i);
      }
    }
  }

  lemma AbsentInSuffix(o: string, s: string, k: nat)
    requires k <= |s| && Absent(o, s)
    ensures Absent(o, s[k..])
  {
    forall i: nat
      ensures !OccursAt(o, s[k..], i)
    {
      if i + |o| <= |s| - k {
        assert s[k..][i..i + |o|] == s[k + i..k + i + |o|];
        assert !OccursAt(o, s, k + i);
      }
    }
  }

  /** If `replace` produced a text starting with `v`, and `v` holds no character of the replacement,
      the input started with `v` as well. */
  lemma {:induction false} ReplaceAllPrefixFromInput(s: string, pat: string, rep: string, v: string)
    requires pat != [] && rep != []
    requires forall c :: c in rep ==> c !in v
    ensures v <= ReplaceAll(s, pat, rep) ==> v <= s
    decreases |s|
  {
    if v != [] && |s| >= |pat| {
      assert v[0] in v && rep[0] in rep;
      if s[..|pat|] == pat {
        assert ReplaceAll(s, pat, rep)[0] == rep[0];
      } else {
        var r1 := ReplaceAll(s[1..], pat, rep);
        assert ReplaceAll(s, pat, rep) == [s[0]] + r1;
        assert forall c :: c in v[1..] ==> c in v;
        ReplaceAllPrefixFromInput(s[1..], pat, rep, v[1..]);
        assert v == [v[0]] + v[1..];
      }
    }
  }

  /** `replace` with a non-empty replacement that shares no character with `o` creates no
      occurrence of `o`. */
  lemma {:induction false} ReplaceAllKeepsAbsent(s: string, pat: string, rep: string, o: string)
    requires pat != [] && rep != [] && o != []
    requires forall c :: c in rep ==> c !in o
    requires Absent(o, s)
    ensures Absent(o, ReplaceAll(s, pat, rep))
    decreases |s|
  {
    var r := ReplaceAll(s, pat, rep);
    assert o[0] in o;
    if |s| < |pat| {
    } else if s[..|pat|] == pat {
      AbsentInSuffix(o, s, |pat|);
      ReplaceAllKeepsAbsent(s[|pat|..], pat, rep, o);
      var r1 := ReplaceAll(s[|pat|..], pat, rep);
      assert r == rep + r1;
      forall i: nat
        ensures !OccursAt(o, r, i)
      {
        if i + |o| <= |r| {
          if i < |rep| {
            assert r[i..i + |o|][0] == rep[i] && rep[i] in rep;
          } else {
            assert r[i..i + |o|] == r1[i - |rep|..i - |rep| + |o|];
            assert !OccursAt(o, r1, i - |rep|);
          }
        }
      }
    } else {
      AbsentInSuffix(o, s, 1);
      ReplaceAllKeepsAbsent(s[1..], pat, rep, o);
      var r1 := ReplaceAll(s[1..], pat, rep);
      assert r == [s[0]] + r1;
      forall i: nat
        ensures !OccursAt(o, r, i)
      {
        if i == 0 {
          ReplaceAllPrefixFromInput(s, pat, rep, o);
          assert !OccursAt(o, s, 0);
        } else if i + |o| <= |r| {
          assert r[i..i + |o|] == r1[i - 1..i - 1 + |o|];
          assert !OccursAt(o, r1, i - 1);
        }
      }
    }
  }

  /** After `replace(pat, rep)`, where `rep` is non-empty and shares no character with `pat`, `pat`
      occurs nowhere. */
  lemma {:induction false} ReplaceAllRemovesPattern(s: string, pat: string, rep: string)
    requires pat != [] && rep != []
    requires forall c :: c in rep ==> c !in pat
    ensures Absent(pat, ReplaceAll(s, pat, rep))
    decreases |s|
  {
    var r := ReplaceAll(s, pat, rep);
    assert pat[0] in pat;
    if |s| < |pat| {
      forall i: nat
        ensures !OccursAt(pat, r, i)
      {
      }
    } else if s[..|pat|] == pat {
      ReplaceAllRemovesPattern(s[|pat|..], pat, rep);
      var r1 := ReplaceAll(s[|pat|..], pat, rep);
      assert r == rep + r1;
      forall i: nat
        ensures !OccursAt(pat, r, i)
      {
        if i + |pat| <= |r| {
          if i < |rep| {
            assert r[i..i + |pat|][0] == rep[i] && rep[i] in rep;
          } else {
            assert r[i..i + |pat|] == r1[i - |rep|..i - |rep| + |pat|];
            assert !OccursAt(pat, r1, i - |rep|);
          }
        }
      }
    } else {
      ReplaceAllRemovesPattern(s[1..], pat, rep);
      var r1 := ReplaceAll(s[1..], pat, rep);
      assert r == [s[0]] + r1;
      forall i: nat
        ensures !OccursAt(pat, r, i)
      {
        if i == 0 {
          ReplaceAllPrefixFromInput(s, pat, rep, pat);
        } else if i + |pat| <= |r| {
          assert r[i..i + |pat|] == r1[i - 1..i - 1 + |pat|];
          assert !OccursAt(pat, r1, i - 1);
        }
      }
    }
  }

  /** Joining parts with a separator that holds no character of `o` creates no occurrence of `o`. */
  lemma {:induction false} JoinKeepsAbsent(ls: seq<string>, o: string)
    requires o != [] && '\n' !in o
    requires forall k :: 0 <= k < |ls| ==> Absent(o, ls[k])
    ensures Absent(o, Join(ls, "\n"))
  {
    if ls == [] {
      forall i: nat
        ensures !OccursAt(o, Join(ls, "\n"), i)
      {
      }
    } else if |ls| > 1 {
      JoinKeepsAbsent(ls[1..], o);
      var a, b := ls[0], Join(ls[1..], "\n");
      var j := Join(ls, "\n");
      assert j == a + "\n" + b;
      assert Absent(o, a);
      forall i: nat
        ensures !OccursAt(o, j, i)
      {
        if i + |o| <= |j| {
          if i + |o| <= |a| {
            assert j[i..i + |o|] == a[i..i + |o|];
            assert !OccursAt(o, a, i);
          } else if i > |a| {
            assert j[i..i + |o|] == b[i - |a| - 1..i - |a| - 1 + |o|];
            assert !OccursAt(o, b, i - |a| - 1);
          } else {
            assert j[i..i + |o|][|a| - i] == '\n';
            assert o[|a| - i] in o;
          }
        }
      }
    }
  }

  /** Splitting into lines creates no occurrence of a word without terminators. */
  lemma {:induction false} LinesKeepAbsent(s: string, o: string)
    requires Absent(o, s)
    ensures forall k :: 0 <= k < |Lines(s)| ==> Absent(o, Lines(s)[k])
    decreases |s|
  {
    assert !OccursAt(o, s, 0);
    AbsentInPrefix(o, s, []);
    if s == [] {
    } else if |s| >= 2 && s[0] == '\r' && s[1] == '\n' {
      AbsentInSuffix(o, s, 2);
      LinesKeepAbsent(s[2..], o);
    } else if s[0] == '\r' || s[0] == '\n' {
      AbsentInSuffix(o, s, 1);
      LinesKeepAbsent(s[1..], o);
    } else {
      AbsentInSuffix(o, s, 1);
      LinesKeepAbsent(s[1..], o);
      var t := Lines(s[1..]);
      assert [s[0]] + t[0] <= s;
      AbsentInPrefix(o, s, [s[0]] + t[0]);
      assert forall k :: 1 <= k < |Lines(s)| ==> Lines(s)[k] == t[k];
    }
  }

  /** A text that lacks the first character of the pattern is left unchanged by the replacement. */
  lemma {:induction false} ReplaceWithoutLead(s: string, pat: string, rep: string)
    requires pat != [] && pat[0] !in s
    ensures ReplaceAll(s, pat, rep) == s
    decreases |s|
  {
    if |s| >= |pat| {
      assert s[0] in s;
      assert s[..|pat|][0] != pat[0];
      ReplaceWithoutLead(s[1..], pat, rep);
      assert [s[0]] + s[1..] == s;
    }
  }

  /** Replacing a single character distributes over concatenation: an occurrence cannot straddle
      the two parts. */
  lemma {:induction false} ReplaceCharAppend(x: string, y: string, c: char, rep: string)
    ensures ReplaceAll(x + y, [c], rep) == ReplaceAll(x, [c], rep) + ReplaceAll(y, [c], rep)
    decreases |x|
  {
    if x == [] {
      assert x + y == y;
    } else {
      var xy := x + y;
      assert xy[..1] == x[..1] == [x[0]];
      assert xy[1..] == x[1..] + y;
      ReplaceCharAppend(x[1..], y, c, rep);
    }
  }

  /** A text whose first and last characters are not whitespace is its own `trim()`. */
  lemma TrimOfSolidEnds(s: string)
    requires s != [] && !IsWhitespace(s[0]) && !IsWhitespace(s[|s| - 1])
    ensures Trim(s) == s
  {
    assert TrimEnd(s) == s;
  }

  /** `trim()` keeps only characters of its input. */
  lemma TrimChars(s: string)
    ensures forall c :: c in Trim(s) ==> c in s
  {
    var e := TrimEnd(s);
    assert forall c :: c in e ==> c in s;
    assert forall c :: c in TrimStart(e) ==> c in e;
  }

  /** A text without terminators is a single line. */
  lemma LinesOfLine(l: string)
    requires '\r' !in l && '\n' !in l
    ensures Lines(l) == [l]
  {
    LinesOfPrefix(l, []);
    assert l + [] == l;
  }

  // ---------------------------------------------------------------------------------------------
  // Ordering.

  /** `a < b` in the lexicographic order of `String.compareTo`, character by character, a proper
      prefix coming first. */
  predicate StrLess(a: string, b: string)
  {
    if a == [] then b != []
    else if b == [] then false
    else if a[0] != b[0] then a[0] < b[0]
    else StrLess(a[1..], b[1..])
  }

  /** No text comes before itself. */
  lemma {:induction false} StrLessIrreflexive(a: string)
    ensures !StrLess(a, a)
  {
    if a != [] {
      StrLessIrreflexive(a[1..]);
    }
  }

  /** No two texts each come before the other. */
  lemma {:induction false} StrLessAsymmetric(a: string, b: string)
    ensures StrLess(a, b) ==> !StrLess(b, a)
  {
    if a != [] && b != [] && a[0] == b[0] {
      StrLessAsymmetric(a[1..], b[1..]);
    }
  }

  /** What comes before `b` comes before everything that does not come before `b`. */
  lemma {:induction false} StrLessBeforeNotLess(a: string, b: string, c: string)
    ensures StrLess(a, b) && !StrLess(c, b) ==> StrLess(a, c)
  {
    if a != [] && b != [] && c != [] && a[0] == b[0] && b[0] == c[0] {
      StrLessBeforeNotLess(a[1..], b[1..], c[1..]);
    }
  }
}
