/**
 * Python string operations used throughout the program, on `seq<char>`
 * (one `char` per Unicode code point, as in a Python `str`).
 */
module Text {

  /** `str.isspace()` of a single character, which is also what `\s` matches in a `str` pattern. */
  predicate IsSpace(c: char)
  {
    c == ' ' || ('\t' <= c <= '\r') || ('\U{1c}' <= c <= '\U{1f}')
    || c == '\U{85}' || c == '\U{a0}' || c == '\U{1680}'
    || ('\U{2000}' <= c <= '\U{200a}') || c == '\U{2028}' || c == '\U{2029}'
    || c == '\U{202f}' || c == '\U{205f}' || c == '\U{3000}'
  }

  /** The character class `[0-9]`. */
  predicate IsDigit(c: char)
  {
    '0' <= c <= '9'
  }

  predicate AllSpace(s: string)
  {
    forall k :: 0 <= k < |s| ==> IsSpace(s[k])
  }

  predicate NoSpace(s: string)
  {
    forall k :: 0 <= k < |s| ==> !IsSpace(s[k])
  }

  predicate AllDigits(s: string)
  {
    forall k :: 0 <= k < |s| ==> IsDigit(s[k])
  }

  predicate NoChar(s: string, c: char)
  {
    forall k :: 0 <= k < |s| ==> s[k] != c
  }

  lemma NoCharConcat(a: string, b: string, c: char)
    requires NoChar(a, c) && NoChar(b, c)
    ensures NoChar(a + b, c)
  {
    forall k | 0 <= k < |a + b|
      ensures (a + b)[k] != c
    {
      if k < |a| {
        assert (a + b)[k] == a[k];
      } else {
        assert (a + b)[k] == b[k - |a|];
      }
    }
  }

  /** `str.lstrip()`: drops the leading whitespace. */
  function LStrip(s: string): string
  {
    if s != [] && IsSpace(s[0]) then LStrip(s[1..]) else s
  }

  /** `str.rstrip()`: drops the trailing whitespace. */
  function RStrip(s: string): string
  {
    if s != [] && IsSpace(s[|s| - 1]) then RStrip(s[..|s| - 1]) else s
  }

  /** `lstrip` cuts a whitespace-only prefix and leaves a string that does not start with whitespace. */
  lemma {:induction false} LStripShape(s: string)
    ensures var r := LStrip(s);
            |r| <= |s| && r == s[|s| - |r|..] && AllSpace(s[..|s| - |r|])
            && (r == [] || !IsSpace(r[0]))
  {
    if s != [] && IsSpace(s[0]) {
      LStripShape(s[1..]);
      var r := LStrip(s);
      assert s[..|s| - |r|] == [s[0]] + s[1..][..|s| - 1 - |r|];
    }
  }

  /** `rstrip` cuts a whitespace-only suffix and leaves a string that does not end with whitespace. */
  lemma {:induction false} RStripShape(s: string)
    ensures var r := RStrip(s);
            |r| <= |s| && r == s[..|r|] && AllSpace(s[|r|..])
            && (r == [] || !IsSpace(r[|r| - 1]))
  {
    if s != [] && IsSpace(s[|s| - 1]) {
      RStripShape(s[..|s| - 1]);
      var r := RStrip(s);
      assert s[|r|..] == s[..|s| - 1][|r|..] + [s[|s| - 1]];
    }
  }

  /** `str.strip()`. */
  function Strip(s: string): string
  {
    RStrip(LStrip(s))
  }

  /** The stripped string is a slice of `s` that neither starts nor ends with whitespace, with only whitespace cut away. */
  lemma StripShape(s: string)
    ensures var r := Strip(s);
            exists i :: 0 <= i <= |s| - |r| && r == s[i..i + |r|]
                        && AllSpace(s[..i]) && AllSpace(s[i + |r|..])
    ensures Strip(s) == [] || (!IsSpace(Strip(s)[0]) && !IsSpace(Strip(s)[|Strip(s)| - 1]))
  {
    var l := LStrip(s);
    LStripShape(s);
    var r := RStrip(l);
    RStripShape(l);
    var i := |s| - |l|;
    InnerSlice(s, l, r, i);
    assert r != [] ==> r[0] == l[0];
  }

  /** A prefix `r` of the suffix `l` of `s` from `i` on is the slice of `s` from `i`, and what follows it in `l` follows it in `s`. */
  lemma InnerSlice(s: string, l: string, r: string, i: nat)
    requires i <= |s| && l == s[i..] && |r| <= |l| && r == l[..|r|] && AllSpace(l[|r|..])
    ensures i + |r| <= |s| && r == s[i..i + |r|] && AllSpace(s[i + |r|..])
  {
    assert s[i + |r|..] == l[|r|..];
  }

  /** `str.strip()` leaves a string without surrounding whitespace unchanged, so it is idempotent. */
  lemma StripUnchanged(s: string)
    requires s == [] || (!IsSpace(s[0]) && !IsSpace(s[|s| - 1]))
    ensures Strip(s) == s
  {
  }

  /** ASCII case folding of one character. */
  function LowerChar(c: char): char
  {
    if 'A' <= c <= 'Z' then (c as int - 'A' as int + 'a' as int) as char else c
  }

  /** `str.lower()` restricted to the ASCII letters. */
  function Lower(s: string): (r: string)
    ensures |r| == |s|
  {
    if s == [] then [] else [LowerChar(s[0])] + Lower(s[1..])
  }

  /** `str.startswith(p)`. */
  predicate StartsWith(s: string, p: string)
  {
    |p| <= |s| && s[..|p|] == p
  }

  /** `str.endswith(p)`. */
  predicate EndsWith(s: string, p: string)
  {
    |p| <= |s| && s[|s| - |p|..] == p
  }

  predicate OccursAt(s: string, p: string, i: int)
  {
    0 <= i && i + |p| <= |s| && s[i..i + |p|] == p
  }

  /** `p in s` for strings. */
  predicate Contains(s: string, p: string)
  {
    exists i :: 0 <= i <= |s| - |p| && OccursAt(s, p, i)
  }

  /** A stripped text starting with `p` means `p` occurs in the text. */
  lemma StripStartContains(s: string, p: string)
    requires StartsWith(Strip(s), p)
    ensures Contains(s, p)
  {
    StripShape(s);
    var r := Strip(s);
    var i :| 0 <= i <= |s| - |r| && r == s[i..i + |r|] && AllSpace(s[..i]) && AllSpace(s[i + |r|..]);
    assert s[i..i + |p|] == r[..|p|];
    ContainsAt(s, p, i);
  }

  lemma ContainsAt(s: string, p: string, i: int)
    requires OccursAt(s, p, i)
    ensures Contains(s, p)
  {
  }

  lemma {:induction false} ContainsPrepend(a: string, s: string, p: string)
    requires Contains(s, p)
    ensures Contains(a + s, p)
  {
    var i :| 0 <= i <= |s| - |p| && OccursAt(s, p, i);
    assert (a + s)[|a| + i..|a| + i + |p|] == s[i..i + |p|];
    ContainsAt(a + s, p, |a| + i);
  }

  lemma {:induction false} ContainsAppend(s: string, a: string, p: string)
    requires Contains(s, p)
    ensures Contains(s + a, p)
  {
    var i :| 0 <= i <= |s| - |p| && OccursAt(s, p, i);
    assert (s + a)[i..i + |p|] == s[i..i + |p|];
    ContainsAt(s + a, p, i);
  }

  lemma ContainsTail(s: string, p: string)
    requires s != []
    ensures Contains(s[1..], p) ==> Contains(s, p)
  {
    if Contains(s[1..], p) {
      ContainsPrepend([s[0]], s[1..], p);
      assert [s[0]] + s[1..] == s;
    }
  }

  /** A single character occurs in `s` exactly when some position holds it. */
  lemma ContainsChar(s: string, c: char)
    ensures Contains(s, [c]) <==> !NoChar(s, c)
  {
    if !NoChar(s, c) {
      var k :| 0 <= k < |s| && s[k] == c;
      ContainsAt(s, [c], k);
    }
    if Contains(s, [c]) {
      var i :| 0 <= i <= |s| - 1 && OccursAt(s, [c], i);
      assert s[i..i + 1][0] == s[i];
    }
  }

  /** Python's ordering of `str` values: lexicographic by code point. */
  predicate LexLe(a: string, b: string)
  {
    |a| == 0 || (|b| > 0 && (a[0] < b[0] || (a[0] == b[0] && LexLe(a[1..], b[1..]))))
  }

  lemma LexRefl(a: string)
    ensures LexLe(a, a)
  {
  }

  lemma {:induction false} LexTotal(a: string, b: string)
    ensures LexLe(a, b) || LexLe(b, a)
  {
    if |a| > 0 && |b| > 0 && a[0] == b[0] {
      LexTotal(a[1..], b[1..]);
    }
  }

  lemma {:induction false} LexAntisym(a: string, b: string)
    requires LexLe(a, b) && LexLe(b, a)
    ensures a == b
  {
    if |a| > 0 && |b| > 0 && a[0] == b[0] {
      LexAntisym(a[1..], b[1..]);
    }
  }

  lemma {:induction false} LexTrans(a: string, b: string, c: string)
    requires LexLe(a, b) && LexLe(b, c)
    ensures LexLe(a, c)
  {
    if |a| > 0 && |b| > 0 && |c| > 0 && a[0] == b[0] && b[0] == c[0] {
      LexTrans(a[1..], b[1..], c[1..]);
    }
  }

  /** `m` is the least element of `T` in Python's string order. */
  predicate IsLeast(m: string, T: set<string>)
  {
    m in T && forall y :: y in T ==> LexLe(m, y)
  }

  /** Every non-empty finite set of strings has a least element. */
  lemma {:induction false} LeastExists(T: set<string>)
    requires T != {}
    ensures exists m :: IsLeast(m, T)
    decreases T
  {
    var x :| x in T;
    if T == {x} {
      LexRefl(x);
      assert IsLeast(x, T);
    } else {
      LeastExists(T - {x});
      var m :| IsLeast(m, T - {x});
      LexTotal(m, x);
      if LexLe(m, x) {
        LexRefl(m);
        assert IsLeast(m, T);
      } else {
        forall y | y in T
          ensures LexLe(x, y)
        {
          if y != x { LexTrans(x, m, y); } else { LexRefl(x); }
        }
        assert IsLeast(x, T);
      }
    }
  }

  /** The least element is unique. */
  lemma LeastUnique(T: set<string>)
    ensures forall m, n :: IsLeast(m, T) && IsLeast(n, T) ==> m == n
  {
    forall m, n | IsLeast(m, T) && IsLeast(n, T)
      ensures m == n
    {
      LexAntisym(m, n);
    }
  }

  /** `min(T)` of a non-empty set of strings. */
  function Least(T: set<string>): (m: string)
    requires T != {}
    ensures IsLeast(m, T)
  {
    LeastExists(T);
    LeastUnique(T);
    var m :| IsLeast(m, T);
    m
  }

  /** A sequence of strings in strictly increasing Python order. */
  predicate StrictlySorted(s: seq<string>)
  {
    forall i, j :: 0 <= i < j < |s| ==> LexLe(s[i], s[j]) && s[i] != s[j]
  }

  /** `sorted(T)` of a set of strings: its elements, each once, in increasing order. */
  function SortSet(T: set<string>): (r: seq<string>)
    ensures |r| == |T|
    ensures forall x :: x in r <==> x in T
    ensures StrictlySorted(r)
    decreases T
  {
    if T == {} then []
    else
      var m := Least(T);
      var rest := SortSet(T - {m});
      ConsSorted(m, rest);
      [m] + rest
  }

  /** A string below every element of a strictly sorted sequence keeps it strictly sorted in front. */
  lemma ConsSorted(m: string, rest: seq<string>)
    requires StrictlySorted(rest)
    requires forall x :: x in rest ==> LexLe(m, x) && m != x
    ensures StrictlySorted([m] + rest)
  {
    var s := [m] + rest;
    forall i, j | 0 <= i < j < |s|
      ensures LexLe(s[i], s[j]) && s[i] != s[j]
    {
      assert s[j] == rest[j - 1];
      if i > 0 {
        assert s[i] == rest[i - 1];
      }
    }
  }

  /** `"".join(parts)`. */
  function Join(parts: seq<string>): (r: string)
  {
    if parts == [] then [] else parts[0] + Join(parts[1..])
  }

  lemma {:induction false} JoinAppend(a: seq<string>, b: seq<string>)
    ensures Join(a + b) == Join(a) + Join(b)
  {
    if a == [] {
      assert a + b == b;
    } else {
      assert (a + b)[0] == a[0];
      assert (a + b)[1..] == a[1..] + b;
      JoinAppend(a[1..], b);
    }
  }

  /** `sep.join(parts)`. */
  function JoinWith(sep: string, parts: seq<string>): (r: string)
  {
    if parts == [] then []
    else if |parts| == 1 then parts[0]
    else parts[0] + sep + JoinWith(sep, parts[1..])
  }

  /** The index of the first `c` in `s`, or `|s|` when there is none. */
  function IndexOf(s: string, c: char): (k: nat)
    ensures k <= |s| && NoChar(s[..k], c)
    ensures k < |s| ==> s[k] == c
  {
    if s == [] then 0 else if s[0] == c then 0 else 1 + IndexOf(s[1..], c)
  }

  /** A line as `readlines()` yields it: non-empty, with `\n` at most as its final character. */
  predicate LineShaped(l: string)
  {
    l != [] && NoChar(l[..|l| - 1], '\n')
  }

  /** `readlines()` on text `s` (already newline-translated): the pieces ending at each `\n`. */
  function SplitLines(s: string): (r: seq<string>)
    ensures Join(r) == s
    ensures forall k :: 0 <= k < |r| ==> LineShaped(r[k])
    ensures forall k :: 0 <= k < |r| - 1 ==> EndsWith(r[k], "\n")
    decreases |s|
  {
    if s == [] then []
    else
      var k := IndexOf(s, '\n');
      if k == |s| then [s]
      else
        var rest := SplitLines(s[k + 1..]);
        LineBefore(s, k, rest);
        [s[..k + 1]] + rest
  }

  /** The line up to the first newline, put before the lines of what follows it, gives the lines of the whole text. */
  lemma LineBefore(s: string, k: nat, rest: seq<string>)
    requires k < |s| && s[k] == '\n' && NoChar(s[..k], '\n')
    requires Join(rest) == s[k + 1..]
    requires forall j :: 0 <= j < |rest| ==> LineShaped(rest[j])
    requires forall j :: 0 <= j < |rest| - 1 ==> EndsWith(rest[j], "\n")
    ensures var r := [s[..k + 1]] + rest;
            Join(r) == s
            && (forall j :: 0 <= j < |r| ==> LineShaped(r[j]))
            && (forall j :: 0 <= j < |r| - 1 ==> EndsWith(r[j], "\n"))
  {
    var line := s[..k + 1];
    var r := [line] + rest;
    assert line + s[k + 1..] == s;
    assert line[..k] == s[..k];
    assert r[1..] == rest;
    assert forall j :: 1 <= j < |r| ==> r[j] == rest[j - 1];
  }

  /** Lines that each end with their only `\n` are read back unchanged by `readlines()` after joining. */
  lemma {:induction false} SplitJoinLines(lines: seq<string>)
    requires forall k :: 0 <= k < |lines| ==> LineShaped(lines[k]) && EndsWith(lines[k], "\n")
    ensures SplitLines(Join(lines)) == lines
  {
    if lines != [] {
      var l := lines[0];
      var s := Join(lines);
      assert s == l + Join(lines[1..]);
      assert s[..|l|] == l;
      IndexOfPrefix(l, Join(lines[1..]));
      assert s[|l|..] == Join(lines[1..]);
      SplitJoinLines(lines[1..]);
    }
  }

  lemma IndexOfPrefix(l: string, t: string)
    requires LineShaped(l) && EndsWith(l, "\n")
    ensures IndexOf(l + t, '\n') == |l| - 1
    decreases |l|
  {
    if |l| > 1 {
      assert l[0] == l[..|l| - 1][0];
      assert (l + t)[1..] == l[1..] + t;
      assert l[1..][..|l| - 2] == l[..|l| - 1][1..];
      IndexOfPrefix(l[1..], t);
    }
  }

  /** `s.split(sep)` for a one-character separator: never empty, no piece contains `sep`. */
  function Split(s: string, sep: char): (r: seq<string>)
    ensures |r| >= 1
    ensures forall k :: 0 <= k < |r| ==> NoChar(r[k], sep)
    ensures JoinWith([sep], r) == s
    decreases |s|
  {
    var k := IndexOf(s, sep);
    if k == |s| then [s]
    else
      var rest := Split(s[k + 1..], sep);
      assert s == s[..k] + [sep] + s[k + 1..];
      [s[..k]] + rest
  }

  /** `s.replace(pat, rep)` with a non-empty `pat`: the leftmost occurrences, without overlap. */
  function ReplaceNonEmpty(s: string, pat: string, rep: string): (r: string)
    requires pat != []
    ensures |pat| <= |rep| ==> |s| <= |r|
    ensures NoChar(s, pat[0]) ==> r == s
    decreases |s|
  {
    if s == [] then []
    else if StartsWith(s, pat) then rep + ReplaceNonEmpty(s[|pat|..], pat, rep)
    else [s[0]] + ReplaceNonEmpty(s[1..], pat, rep)
  }

  /** `s.replace("", rep)`: `rep` before every character and at the end. */
  function ReplaceEmpty(s: string, rep: string): (r: string)
  {
    if s == [] then rep else rep + [s[0]] + ReplaceEmpty(s[1..], rep)
  }

  /** `s.replace(pat, rep)`. */
  function Replace(s: string, pat: string, rep: string): (r: string)
    ensures pat != [] && |pat| <= |rep| ==> |s| <= |r|
    ensures pat != [] && NoChar(s, pat[0]) ==> r == s
  {
    if pat == [] then ReplaceEmpty(s, rep) else ReplaceNonEmpty(s, pat, rep)
  }

  /** Replacing a string that does not occur changes nothing. */
  lemma {:induction false} ReplaceAbsent(s: string, pat: string, rep: string)
    requires pat != [] && !Contains(s, pat)
    ensures Replace(s, pat, rep) == s
    decreases |s|
  {
    if s != [] {
      if StartsWith(s, pat) {
        ContainsAt(s, pat, 0);
      } else {
        ContainsTail(s, pat);
        ReplaceAbsent(s[1..], pat, rep);
      }
    }
  }

  /** Replacing one character by another rewrites exactly the positions holding it. */
  lemma {:induction false} ReplaceChar(s: string, c: char, d: char)
    ensures |Replace(s, [c], [d])| == |s|
    ensures forall k :: 0 <= k < |s| ==> Replace(s, [c], [d])[k] == if s[k] == c then d else s[k]
    decreases |s|
  {
    if s != [] {
      ReplaceChar(s[1..], c, d);
      var r := Replace(s, [c], [d]);
      var t := Replace(s[1..], [c], [d]);
      assert r == (if s[0] == c then [d] else [s[0]]) + t;
      forall k | 0 <= k < |s|
        ensures r[k] == if s[k] == c then d else s[k]
      {
        if k > 0 { assert r[k] == t[k - 1]; }
      }
    }
  }

  /** `s.find(p)`, with `|s|` standing for "not found": the leftmost occurrence of `p`. */
  function Find(s: string, p: string): (k: nat)
    ensures k <= |s|
    ensures k < |s| ==> OccursAt(s, p, k)
    ensures forall j :: 0 <= j < k ==> !OccursAt(s, p, j)
    ensures k == |s| ==> p == [] || !Contains(s, p)
    decreases |s|
  {
    if s == [] then 0
    else if StartsWith(s, p) then 0
    else
      var k := Find(s[1..], p);
      forall j | 1 <= j < 1 + k
        ensures !OccursAt(s, p, j)
      {
        OccursShift(s, p, j);
      }
      if k < |s| - 1 then
        OccursShift(s, p, 1 + k);
        1 + k
      else
        |s|
  }

  /** An occurrence at `j >= 1` is one at `j - 1` of the tail. */
  lemma OccursShift(s: string, p: string, j: nat)
    requires 1 <= j && s != []
    ensures OccursAt(s, p, j) <==> OccursAt(s[1..], p, j - 1)
  {
    if j + |p| <= |s| {
      SliceOfTail(s, j, j + |p|);
    }
  }

  lemma SliceOfTail<T>(s: seq<T>, a: nat, b: nat)
    requires 1 <= a <= b <= |s|
    ensures s[1..][a - 1..b - 1] == s[a..b]
  {
    var t := s[1..][a - 1..b - 1];
    assert forall i :: 0 <= i < |t| ==> t[i] == s[a..b][i];
  }

  /** The index of the last `c` in `s`, if any. */
  function RFind(s: string, c: char): (k: int)
    ensures -1 <= k < |s|
    ensures k >= 0 ==> s[k] == c
    ensures forall j :: k < j < |s| ==> s[j] != c
  {
    if s == [] then -1
    else if s[|s| - 1] == c then |s| - 1
    else RFind(s[..|s| - 1], c)
  }
}
