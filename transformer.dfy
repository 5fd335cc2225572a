/**
 * The note rewriter (note_transformer.py): one pass over a note's scanned
 * lines that normalises headings and the tags line, re-annotates every
 * link token with its target's title and relative path, and replaces the
 * backlinks section by a freshly generated one.
 */
module Transformer {
  import opened Wrappers
  import opened Text
  import opened Ids
  import opened Paths
  import opened Markdown
  import opened Notes
  import opened Kasten

  /** `"#" + tag` for each tag, in order. */
  function Hashed(ts: seq<string>): seq<string>
  {
    seq(|ts|, i requires 0 <= i < |ts| => "#" + ts[i])
  }

  /** `_format_tags`: `Tags: `, then the sorted tags each after a `#` and separated by single spaces, then a newline. */
  function FormatTags(tags: set<string>): (r: string)
    ensures StartsWith(r, "Tags: ") && |r| > 6 && r[|r| - 1] == '\n'
  {
    "Tags: " + JoinWith(" ", Hashed(SortSet(tags))) + "\n"
  }

  /** Where a word ends does not depend on what precedes it. */
  lemma {:induction false} WordEndShift(a: string, b: string, p: nat)
    requires p <= |b|
    ensures WordEnd(a + b, |a| + p) == |a| + WordEnd(b, p)
    decreases |b| - p
  {
    if p < |b| {
      assert (a + b)[|a| + p] == b[p];
      if !IsSpace(b[p]) {
        WordEndShift(a, b, p + 1);
      }
    }
  }

  /** Nor do the tags found from a position on. */
  lemma {:induction false} TagWordsShift(a: string, b: string, p: nat)
    requires p <= |b|
    ensures TagWordsFrom(a + b, |a| + p) == TagWordsFrom(b, p)
    decreases |b| - p
  {
    if p < |b| {
      assert (a + b)[|a| + p] == b[p];
      if b[p] == '#' {
        WordEndShift(a, b, p + 1);
        var e := WordEnd(b, p + 1);
        TagAfterShift(a, b, p, e);
        TagWordsShift(a, b, e);
        assert TagWordsFrom(b, p) == [b[p + 1..e]] + TagWordsFrom(b, e);
      } else {
        TagWordsShift(a, b, p + 1);
        assert TagWordsFrom(a + b, |a| + p) == TagWordsFrom(a + b, |a| + p + 1);
      }
    }
  }

  /** A tag read at `|a| + p` of `a + b` is the one read at `p` of `b`. */
  lemma TagAfterShift(a: string, b: string, p: nat, e: nat)
    requires p < |b| && b[p] == '#' && e == WordEnd(b, p + 1) && WordEnd(a + b, |a| + p + 1) == |a| + e
    ensures TagWordsFrom(a + b, |a| + p) == [b[p + 1..e]] + TagWordsFrom(a + b, |a| + e)
  {
    assert (a + b)[|a| + p] == '#';
    assert (a + b)[|a| + p + 1..|a| + e] == b[p + 1..e];
  }

  /** Text without `#` opens no tag. */
  lemma {:induction false} NoHashPrefix(a: string, b: string, p: nat)
    requires p <= |a| && forall i :: p <= i < |a| ==> a[i] != '#'
    ensures TagWordsFrom(a + b, p) == TagWordsFrom(a + b, |a|)
    decreases |a| - p
  {
    if p < |a| {
      assert (a + b)[p] == a[p];
      NoHashPrefix(a, b, p + 1);
    }
  }

  /** A `#`, a word with no whitespace and a whitespace character read as that word, then whatever follows. */
  lemma OneTag(t: string, c: char, rest: string)
    requires NoSpace(t) && IsSpace(c)
    ensures TagWordsFrom("#" + t + [c] + rest, 0) == [t] + TagWordsFrom(rest, 0)
  {
    var s := "#" + t + [c] + rest;
    var e := WordEnd(s, 1);
    assert s[1..1 + |t|] == t;
    assert s[1 + |t|] == c;
    assert e == 1 + |t|;
    assert s == ("#" + t + [c]) + rest;
    TagWordsShift("#" + t + [c], rest, 0);
    assert TagWordsFrom(s, e) == TagWordsFrom(s, e + 1);
  }

  /** The hashed words, space-separated and followed by a newline, read back as the words. */
  lemma {:induction false} HashedWords(ts: seq<string>)
    requires forall i :: 0 <= i < |ts| ==> NoSpace(ts[i])
    ensures TagWordsFrom(JoinWith(" ", Hashed(ts)) + "\n", 0) == ts
  {
    var s := JoinWith(" ", Hashed(ts)) + "\n";
    if ts == [] {
      assert s == "\n";
      assert TagWordsFrom(s, 1) == [];
    } else {
      var H := Hashed(ts);
      assert H[0] == "#" + ts[0];
      if |ts| == 1 {
        assert s == "#" + ts[0] + "\n" + "";
        OneTag(ts[0], '\n', "");
      } else {
        assert H[1..] == Hashed(ts[1..]);
        var rest := JoinWith(" ", Hashed(ts[1..])) + "\n";
        assert s == "#" + ts[0] + " " + rest;
        OneTag(ts[0], ' ', rest);
        HashedWords(ts[1..]);
      }
    }
  }

  /** The tags line reads back as the sorted tags. */
  lemma FormatTagsWords(tags: set<string>)
    requires forall t :: t in tags ==> NoSpace(t)
    ensures TagWordsFrom(FormatTags(tags), 0) == SortSet(tags)
  {
    var ts := SortSet(tags);
    var body := JoinWith(" ", Hashed(ts)) + "\n";
    var head := "Tags: ";
    assert FormatTags(tags) == head + body;
    assert forall i :: 0 <= i < |head| ==> head[i] != '#';
    HashedWords(ts);
    TagWordsShift(head, body, 0);
    NoHashPrefix(head, body, 0);
  }

  /** Formatting tags without whitespace and reading the line back with `_read_tags` gives the same tags. */
  lemma FormatTagsRoundTrip(tags: set<string>)
    requires forall t :: t in tags ==> NoSpace(t)
    ensures ReadTags(FormatTags(tags)) == tags
  {
    var W := TagWordsFrom(FormatTags(tags), 0);
    FormatTagsWords(tags);
    forall t | t in tags
      ensures t in ReadTags(FormatTags(tags))
    {
      var k :| 0 <= k < |W| && W[k] == t;
    }
  }

  // ---------------------------------------------------------------------
  // Link annotations

  /** Which link rewrite a pass applies: lines 102-112 as written, or the corrected rewrite of `Rewrite`. */
  datatype LinkRule = AsWritten | Corrected

  /**
   * What the rewriter knows besides the note's lines: the collection, the
   * note, the tag transformer, `os.path.relpath` from the note's directory,
   * and which link rewrite the pass applies.
   */
  datatype Context = Context(st: KState, note: Note, tagger: set<string> -> set<string>, relPath: FilePath -> string, rule: LinkRule)

  /** The annotation `_format_link` puts after a token: ` [title](path "autogen")`. */
  function Annotation(title: string, path: string): string
  {
    " [" + title + "](" + path + " \"autogen\")"
  }

  /** `_format_link`: the token, then the target's annotation when the id is stored; never fails. */
  function FormatLink(c: Context, zid: string): (r: string)
    ensures StartsWith(r, "[[" + zid + "]]")
    ensures zid in c.st.notes <==> |r| > |zid| + 4
  {
    if zid in c.st.notes then
      var x := c.st.notes[zid];
      "[[" + zid + "]]" + Annotation(x.title, c.relPath(x.path))
    else "[[" + zid + "]]"
  }

  /** The characters the path part of the autogen pattern may not contain: `)` and `"` as written. */
  const WrittenStops: set<char> := {')', '"'}

  /** The same with `[` added, so that a path cannot run into a link token. */
  const GuardedStops: set<char> := {')', '"', '['}

  /** The first position from `i` on that does not hold a blank (`' '` only), or `|s|`. */
  function BlankEnd(s: string, i: nat): (k: nat)
    requires i <= |s|
    ensures i <= k <= |s| && (forall j :: i <= j < k ==> s[j] == ' ') && (k < |s| ==> s[k] != ' ')
    decreases |s| - i
  {
    if i == |s| || s[i] != ' ' then i else BlankEnd(s, i + 1)
  }

  /** The first position from `i` on that holds a character from `stops`, or `|s|`. */
  function StopFrom(s: string, i: nat, stops: set<char>): (k: nat)
    requires i <= |s|
    ensures i <= k <= |s| && (forall j :: i <= j < k ==> s[j] !in stops) && (k < |s| ==> s[k] in stops)
    decreases |s| - i
  {
    if i == |s| || s[i] in stops then i else StopFrom(s, i + 1, stops)
  }

  /**
   * The length of the match of the autogen pattern
   * `` *\[[^\]]*\]\([^S]* "autogen"\)`` at the start of `s`, where `S` is
   * `stops`: blanks, `[`, a title up to the first `]`, `(`, a path up to
   * the first stop character, which must be the `"` of ` "autogen")`.
   * Backtracking cannot find another match: each repetition ends where its
   * class does.
   */
  function FragmentLen(s: string, stops: set<char>): (r: Option<nat>)
    requires '"' in stops
    ensures r.Some? ==> 0 < r.value <= |s|
  {
    var a := BlankEnd(s, 0);
    if a < |s| && s[a] == '[' then AfterOpen(s, a, stops) else None
  }

  /** The rest of the match after the `[` at `a`: the title runs to the first `]`, which `(` must follow. */
  function AfterOpen(s: string, a: nat, stops: set<char>): (r: Option<nat>)
    requires a < |s| && '"' in stops
    ensures r.Some? ==> a < r.value <= |s|
  {
    var b := StopFrom(s, a + 1, {']'});
    if b + 1 < |s| && s[b + 1] == '(' then AfterTitle(s, b, stops) else None
  }

  /** ` "autogen")` without its blank starts at `q`. */
  predicate TailAt(s: string, q: nat)
  {
    q < |s| && s[q] == '"' && StartsWith(s[q..], "\"autogen\")")
  }

  /** The rest of the match after the `](` at `b`: the path runs to the first stop, which must open ` "autogen")` after a blank. */
  function AfterTitle(s: string, b: nat, stops: set<char>): (r: Option<nat>)
    requires b + 1 < |s| && '"' in stops
    ensures r.Some? ==> b < r.value <= |s|
  {
    var q := StopFrom(s, b + 2, stops);
    if b + 2 < q && s[q - 1] == ' ' && TailAt(s, q) then Some(q + 10) else None
  }

  /** `autogen_link_regex.sub("", s)`: the scan removes each leftmost match and resumes after it. */
  function StripFragments(s: string, stops: set<char>): (r: string)
    requires '"' in stops
    ensures |r| <= |s|
    ensures NoChar(s, '"') ==> r == s
    decreases |s|
  {
    if s == [] then []
    else match FragmentLen(s, stops)
      case Some(n) => StripFragments(s[n..], stops)
      case None => [s[0]] + StripFragments(s[1..], stops)
  }

  lemma {:induction false} StopFromIs(s: string, i: nat, stops: set<char>, k: nat)
    requires i <= k < |s| && s[k] in stops && forall j :: i <= j < k ==> s[j] !in stops
    ensures StopFrom(s, i, stops) == k
    decreases k - i
  {
    if i < k {
      StopFromIs(s, i + 1, stops, k);
    }
  }

  lemma {:induction false} BlankEndIs(s: string, a: nat)
    requires a < |s| && s[a] != ' ' && forall j :: 0 <= j < a ==> s[j] == ' '
    ensures BlankEnd(s, 0) == a
  {
  }

  /** The pattern matches when its parts are found at these positions. */
  lemma FragmentLenIs(s: string, stops: set<char>, a: nat, b: nat, q: nat)
    requires '"' in stops
    requires a < |s| && s[a] == '[' && forall j :: 0 <= j < a ==> s[j] == ' '
    requires a < b && b + 1 < |s| && s[b] == ']' && s[b + 1] == '(' && forall j :: a < j < b ==> s[j] != ']'
    requires TailAt(s, q) && b + 2 < q && s[q - 1] == ' '
    requires forall j :: b + 2 <= j < q ==> s[j] !in stops
    ensures FragmentLen(s, stops) == Some(q + 10)
  {
    BlankEndIs(s, a);
    StopFromIs(s, a + 1, {']'}, b);
    StopFromIs(s, b + 2, stops, q);
  }

  /** Where the parts of an annotation sit: the title from 2, `](` at `b`, the path from `b + 2`, and ` "autogen")` from `q - 1`. */
  lemma AnnotationLayout(title: string, path: string, rest: string)
    ensures var s := Annotation(title, path) + rest;
            var b := 2 + |title|;
            var q := b + 3 + |path|;
            q + 10 == |Annotation(title, path)| && q + 10 <= |s|
            && s[0] == ' ' && s[1] == '['
            && (forall j :: 2 <= j < b ==> s[j] == title[j - 2])
            && s[b] == ']' && s[b + 1] == '('
            && (forall j :: b + 2 <= j < q - 1 ==> s[j] == path[j - b - 2])
            && s[q - 1] == ' ' && TailAt(s, q)
  {
    var tail := " \"autogen\")";
    var s := Annotation(title, path) + rest;
    assert s == " [" + title + "](" + path + tail + rest;
    var b := 2 + |title|;
    var q := b + 3 + |path|;
    assert forall j :: 2 <= j < b ==> s[j] == title[j - 2];
    assert forall j :: b + 2 <= j < q - 1 ==> s[j] == path[j - b - 2];
    assert s[q..][..10] == tail[1..];
  }

  /** An annotation whose title has no `]` and whose path has no stop character is matched exactly. */
  lemma AnnotationMatched(title: string, path: string, rest: string, stops: set<char>)
    requires stops == WrittenStops || stops == GuardedStops
    requires NoChar(title, ']') && forall j :: 0 <= j < |path| ==> path[j] !in stops
    ensures FragmentLen(Annotation(title, path) + rest, stops) == Some(|Annotation(title, path)|)
  {
    var s := Annotation(title, path) + rest;
    var b := 2 + |title|;
    var q := b + 3 + |path|;
    AnnotationLayout(title, path, rest);
    assert forall j :: 1 < j < b ==> s[j] != ']' by {
      forall j | 1 < j < b
        ensures s[j] != ']'
      {
        assert s[j] == title[j - 2];
      }
    }
    assert forall j :: b + 2 <= j < q ==> s[j] !in stops by {
      forall j | b + 2 <= j < q
        ensures s[j] !in stops
      {
        if j < q - 1 {
          assert s[j] == path[j - b - 2];
        }
      }
    }
    FragmentLenIs(s, stops, 1, b, q);
  }

  /** `s` begins with a link token. */
  predicate TokenStart(s: string)
  {
    TokenAt(s, 0)
  }

  /** The corrected annotation step: every link token, left to right, is replaced once by `_format_link` of its id. */
  function Annotate(c: Context, s: string): (r: string)
    ensures |s| <= |r|
    ensures NoChar(s, '[') ==> r == s
    decreases |s|
  {
    if s == [] then []
    else if TokenStart(s) then FormatLink(c, s[2..16]) + Annotate(c, s[TokenLength..])
    else [s[0]] + Annotate(c, s[1..])
  }

  /** The corrected link rewrite: strip with the guarded pattern, then annotate each token once. */
  function Rewrite(c: Context, s: string): (r: string)
    ensures NoChar(s, '[') && NoChar(s, '"') ==> r == s
  {
    Annotate(c, StripFragments(s, GuardedStops))
  }

  /** `s` and `s'` agree on their first `m` characters. */
  predicate Agree(s: string, s': string, m: nat)
  {
    m <= |s| && m <= |s'| && forall j :: 0 <= j < m ==> s[j] == s'[j]
  }

  lemma AgreeOfPrefix(s: string, s': string, m: nat)
    requires m <= |s| && m <= |s'| && s[..m] == s'[..m]
    ensures Agree(s, s', m)
  {
    forall j | 0 <= j < m
      ensures s[j] == s'[j]
    {
      assert s[..m][j] == s'[..m][j];
    }
  }

  /** Where a scan for a stop ends before `m` does not depend on what follows `m`. */
  lemma {:induction false} StopFromAgree(s: string, s': string, i: nat, stops: set<char>, m: nat)
    requires Agree(s, s', m) && i <= m && StopFrom(s, i, stops) < m
    ensures StopFrom(s', i, stops) == StopFrom(s, i, stops)
  {
    StopFromIs(s', i, stops, StopFrom(s, i, stops));
  }

  /** ` "autogen")` holds no `[`, so it cannot reach a `[` at `p`, and both strings agree on it. */
  lemma {:induction false} TailBeforeBracket(s: string, s': string, q: nat, p: nat)
    requires q <= p < |s| && s[p] == '[' && Agree(s, s', p + 1)
    ensures TailAt(s, q) <==> TailAt(s', q)
    ensures TailAt(s, q) ==> q + 10 <= p
  {
    if TailAt(s, q) || TailAt(s', q) {
      assert forall j :: 0 <= j < 10 ==> s[q..][j] == s[q + j] == s'[q + j] == s'[q..][j];
      assert s[q..][..10] == s'[q..][..10];
    }
  }

  /** The path part stops at a `[` at the latest, so it sees only text both strings share. */
  lemma {:induction false} AfterTitleBeforeBracket(s: string, s': string, b: nat, p: nat)
    requires b + 1 < p < |s| && s[p] == '[' && Agree(s, s', p + 1)
    ensures AfterTitle(s, b, GuardedStops) == AfterTitle(s', b, GuardedStops)
    ensures AfterTitle(s, b, GuardedStops).Some? ==> AfterTitle(s, b, GuardedStops).value <= p
  {
    var q := StopFrom(s, b + 2, GuardedStops);
    StopFromAgree(s, s', b + 2, GuardedStops, p + 1);
    TailBeforeBracket(s, s', q, p);
  }

  /** A token's only `]` are its last two characters, and it opens with `[`. */
  lemma TokenBrackets(s: string, p: nat)
    requires TokenAt(s, p)
    ensures s[p] == '[' && s[p + 16] == ']' && s[p + 17] == ']'
    ensures forall j :: p <= j < p + 16 ==> s[j] != ']'
  {
    assert forall j :: p + 2 <= j < p + 16 ==> s[j] == s[p + 2..p + 16][j - p - 2];
  }

  /** The title part stops at the token's first `]` at the latest, where `(` does not follow. */
  lemma {:induction false} AfterOpenBeforeToken(s: string, s': string, a: nat, p: nat)
    requires p + TokenLength <= |s| && s[p] == '[' && s[p + 16] == ']' && s[p + 17] == ']'
    requires (forall j :: p <= j < p + 16 ==> s[j] != ']') && Agree(s, s', p + TokenLength) && a <= p
    ensures AfterOpen(s, a, GuardedStops) == AfterOpen(s', a, GuardedStops)
    ensures AfterOpen(s, a, GuardedStops).Some? ==> AfterOpen(s, a, GuardedStops).value <= p
  {
    var b := StopFrom(s, a + 1, {']'});
    TitleStopBeforeToken(s, a, p);
    StopFromAgree(s, s', a + 1, {']'}, p + TokenLength);
    AfterOpenAt(s, a, b);
    AfterOpenAt(s', a, b);
    assert s'[b + 1] == s[b + 1];
    if b < p && s[b + 1] == '(' {
      AfterTitleBeforeBracket(s, s', b, p);
    }
  }

  /** The title part ends before a token's `[` or at the token's first `]`. */
  lemma TitleStopBeforeToken(s: string, a: nat, p: nat)
    requires p + TokenLength <= |s| && s[p + 16] == ']' && a <= p
    requires forall j :: p <= j < p + 16 ==> s[j] != ']'
    ensures var b := StopFrom(s, a + 1, {']'}); b < p || b == p + 16
  {
    var b := StopFrom(s, a + 1, {']'});
    assert b <= p + 16;
  }

  /** What `AfterOpen` does once the title's end `b` is known. */
  lemma AfterOpenAt(s: string, a: nat, b: nat)
    requires a < |s| && b == StopFrom(s, a + 1, {']'})
    ensures AfterOpen(s, a, GuardedStops) == if b + 1 < |s| && s[b + 1] == '(' then AfterTitle(s, b, GuardedStops) else None
  {
  }

  /**
   * A match of the guarded pattern cannot start before a link token and
   * reach into it, so what the pattern does there depends only on the text
   * up to the token.
   */
  lemma {:induction false} FragmentBeforeToken(s: string, s': string, p: nat)
    requires TokenAt(s, p) && p + TokenLength <= |s'| && s[..p + TokenLength] == s'[..p + TokenLength]
    ensures FragmentLen(s, GuardedStops) == FragmentLen(s', GuardedStops)
    ensures FragmentLen(s, GuardedStops).Some? ==> FragmentLen(s, GuardedStops).value <= p
  {
    AgreeOfPrefix(s, s', p + TokenLength);
    var a := BlankEnd(s, 0);
    BlankEndIs(s', a);
    if s[a] == '[' {
      TokenBrackets(s, p);
      AfterOpenBeforeToken(s, s', a, p);
    }
  }

  /** No position of `t` starts a match of the guarded pattern. */
  predicate NoFragment(t: string)
  {
    forall i :: 0 <= i < |t| ==> FragmentLen(t[i..], GuardedStops) == None
  }

  lemma NoFragmentSuffix(t: string, k: nat)
    requires NoFragment(t) && k <= |t|
    ensures NoFragment(t[k..])
  {
    forall i | 0 <= i < |t| - k
      ensures FragmentLen(t[k..][i..], GuardedStops) == None
    {
      assert t[k..][i..] == t[k + i..];
    }
  }

  /** Stripping text without any match changes nothing. */
  lemma {:induction false} StripNone(t: string)
    requires NoFragment(t)
    ensures StripFragments(t, GuardedStops) == t
    decreases |t|
  {
    if t != [] {
      assert t[0..] == t;
      NoFragmentSuffix(t, 1);
      StripNone(t[1..]);
    }
  }

  /** Every annotation the collection can produce has a title without `]` and a path without `)`, `"` or `[`. */
  predicate LinksClean(c: Context)
  {
    forall k :: k in c.st.notes ==>
      NoChar(c.st.notes[k].title, ']')
      && forall j :: 0 <= j < |c.relPath(c.st.notes[k].path)| ==> c.relPath(c.st.notes[k].path)[j] !in GuardedStops
  }

  /** The position of the first link token, or `|t|`. */
  function FirstToken(t: string): (p: nat)
    ensures p <= |t|
  {
    if t == [] || TokenStart(t) then 0 else 1 + FirstToken(t[1..])
  }

  lemma TokenAtSuffix(t: string, p: nat)
    requires p <= |t|
    ensures TokenStart(t[p..]) <==> TokenAt(t, p)
  {
    if p + TokenLength <= |t| {
      assert t[p..][2..16] == t[p + 2..p + 16];
    }
  }

  /** Annotation leaves the text before the first token alone. */
  lemma {:induction false} AnnotateSplit(c: Context, t: string)
    ensures Annotate(c, t) == t[..FirstToken(t)] + Annotate(c, t[FirstToken(t)..])
    decreases |t|
  {
    var p := FirstToken(t);
    if t == [] {
    } else if TokenStart(t) {
      assert t[..0] == [] && t[0..] == t;
    } else {
      var u := t[1..];
      var q := FirstToken(u);
      assert p == 1 + q;
      AnnotateSplit(c, u);
      AnnotateAtPlain(c, t);
      assert u[..q] == t[1..p] && u[q..] == t[p..];
      Assoc([t[0]], t[1..p], Annotate(c, t[p..]));
      assert [t[0]] + t[1..p] == t[..p];
    }
  }

  lemma AnnotateAtPlain(c: Context, t: string)
    requires t != [] && !TokenStart(t)
    ensures Annotate(c, t) == [t[0]] + Annotate(c, t[1..])
  {
  }

  /** `FirstToken` finds a token when it stops before the end. */
  lemma {:induction false} FirstTokenStarts(t: string)
    ensures FirstToken(t) < |t| ==> TokenStart(t[FirstToken(t)..])
    decreases |t|
  {
    if t != [] && !TokenStart(t) {
      FirstTokenStarts(t[1..]);
      assert t[1..][FirstToken(t) - 1..] == t[FirstToken(t)..];
    }
  }

  /** A token is kept as it is. */
  lemma AnnotateKeepsToken(c: Context, u: string)
    requires TokenStart(u)
    ensures |Annotate(c, u)| >= TokenLength && Annotate(c, u)[..TokenLength] == u[..TokenLength]
  {
    TokenBrackets(u, 0);
    var link := FormatLink(c, u[2..16]);
    assert link[..TokenLength] == "[[" + u[2..16] + "]]";
    assert u[..TokenLength] == "[[" + u[2..16] + "]]";
  }

  /** Annotation leaves the text up to the end of the first token alone. */
  lemma AnnotateHead(c: Context, t: string)
    requires FirstToken(t) < |t|
    ensures var p := FirstToken(t);
            TokenAt(t, p) && |Annotate(c, t)| >= p + TokenLength
            && Annotate(c, t)[..p + TokenLength] == t[..p + TokenLength]
  {
    var p := FirstToken(t);
    var u := t[p..];
    AnnotateSplit(c, t);
    FirstTokenStarts(t);
    TokenAtSuffix(t, p);
    AnnotateKeepsToken(c, u);
    SamePrefixAfter(Annotate(c, t), Annotate(c, u), t, p, TokenLength);
  }

  /** A sequence made of `t`'s first `p` elements and then one agreeing with `t[p..]` on `n` elements agrees with `t` on `p + n`. */
  lemma SamePrefixAfter<T>(A: seq<T>, m: seq<T>, t: seq<T>, p: nat, n: nat)
    requires p + n <= |t| && A == t[..p] + m && |m| >= n && m[..n] == t[p..][..n]
    ensures |A| >= p + n && A[..p + n] == t[..p + n]
  {
    assert A[..p + n] == t[..p] + m[..n];
    assert t[..p + n] == t[..p] + t[p..][..n];
  }

  /** Annotating cannot create or remove a match at the start: annotations start after a token, which a match cannot reach into. */
  lemma {:induction false} FragmentAnnotate(c: Context, t: string)
    ensures FragmentLen(Annotate(c, t), GuardedStops) == FragmentLen(t, GuardedStops)
  {
    var p := FirstToken(t);
    if p < |t| {
      AnnotateHead(c, t);
      FragmentBeforeToken(t, Annotate(c, t), p);
    } else {
      AnnotateSplit(c, t);
      assert t[..p] == t && t[p..] == [];
      assert Annotate(c, t[p..]) == [];
      assert Annotate(c, t) == t;
    }
  }

  /** No match starts inside a link token. */
  lemma {:induction false} TokenInterior(s: string, i: nat)
    requires TokenStart(s) && i < TokenLength
    ensures FragmentLen(s[i..], GuardedStops) == None
  {
    TokenBrackets(s, 0);
    var u := s[i..];
    assert u[0] == s[i];
    if i == 0 {
      StopFromIs(s, 1, {']'}, 16);
    } else if i == 1 {
      assert forall j :: 1 <= j < 15 ==> u[j] == s[j + 1];
      StopFromIs(u, 1, {']'}, 15);
      assert u[16] == s[17];
    } else {
      assert s[i] != '[' && s[i] != ' ' by {
        if i < 16 {
          assert s[i] == s[2..16][i - 2];
        }
      }
    }
  }

  lemma TokenStartPrefix(t: string, w: string)
    requires TokenStart(t) && |w| >= TokenLength && w[..TokenLength] == t[..TokenLength]
    ensures TokenStart(w)
  {
    assert w[2..16] == w[..TokenLength][2..16] == t[..TokenLength][2..16] == t[2..16];
    assert w[0] == w[..TokenLength][0] && w[1] == w[..TokenLength][1];
    assert w[16] == w[..TokenLength][16] && w[17] == w[..TokenLength][17];
  }

  /** Whether a match of the guarded pattern starts at position `i` of `w`. */
  predicate MatchAt(w: string, i: nat)
    requires i <= |w|
  {
    FragmentLen(w[i..], GuardedStops).Some?
  }

  lemma Assoc(x: string, y: string, z: string)
    ensures (x + y) + z == x + (y + z) && x + [] == x
  {
  }

  lemma ConsShift<T>(a: seq<T>, x: T, z: seq<T>)
    ensures a + ([x] + z) == (a + [x]) + z
  {
  }

  /** A position that starts no match is kept by stripping. */
  lemma StripKeepStep(w: string, n: nat)
    requires 0 < n <= |w| && !MatchAt(w, n - 1)
    ensures StripFragments(w[n - 1..], GuardedStops) == [w[n - 1]] + StripFragments(w[n..], GuardedStops)
  {
    var u := w[n - 1..];
    assert u[1..] == w[n..];
  }

  /** A map on sequences that passes the first `n` elements through one at a time keeps them as a prefix. */
  lemma {:induction false} KeepPrefix<T>(f: seq<T> -> seq<T>, w: seq<T>, n: nat)
    requires n <= |w|
    requires forall i :: 0 <= i < n ==> f(w[i..]) == [w[i]] + f(w[i + 1..])
    ensures f(w) == w[..n] + f(w[n..])
    decreases n
  {
    if n == 0 {
      assert w[..0] == [] && w[0..] == w;
    } else {
      KeepPrefix(f, w, n - 1);
      assert f(w[n - 1..]) == [w[n - 1]] + f(w[n..]);
      ConsShift(w[..n - 1], w[n - 1], f(w[n..]));
      assert w[..n - 1] + [w[n - 1]] == w[..n];
    }
  }

  /** The first `n` characters of `w`, none of which starts a match, survive stripping unchanged. */
  lemma StripKeep(w: string, n: nat)
    requires n <= |w|
    requires forall i :: 0 <= i < n ==> !MatchAt(w, i)
    ensures StripFragments(w, GuardedStops) == w[..n] + StripFragments(w[n..], GuardedStops)
  {
    var f := (s: string) => StripFragments(s, GuardedStops);
    forall i | 0 <= i < n
      ensures f(w[i..]) == [w[i]] + f(w[i + 1..])
    {
      StripKeepStep(w, i + 1);
    }
    KeepPrefix(f, w, n);
  }

  /** Stripping keeps a leading link token. */
  lemma StripKeepsToken(w: string)
    requires TokenStart(w)
    ensures StripFragments(w, GuardedStops) == w[..TokenLength] + StripFragments(w[TokenLength..], GuardedStops)
  {
    forall i | 0 <= i < TokenLength
      ensures !MatchAt(w, i)
    {
      TokenInterior(w, i);
    }
    StripKeep(w, TokenLength);
  }

  /** An annotation with a clean title and path is removed whole, whatever follows it. */
  lemma SkipAnnotation(title: string, path: string, x: string)
    requires NoChar(title, ']') && forall j :: 0 <= j < |path| ==> path[j] !in GuardedStops
    ensures StripFragments(Annotation(title, path) + x, GuardedStops) == StripFragments(x, GuardedStops)
  {
    var a := Annotation(title, path);
    AnnotationMatched(title, path, x, GuardedStops);
    assert (a + x)[|a|..] == x;
  }

  /** What `_format_link` writes after the token is removed whole by stripping. */
  lemma LinkTailStripped(c: Context, zid: string, x: string)
    requires LinksClean(c) && |zid| == IdLength
    ensures StripFragments(FormatLink(c, zid)[TokenLength..] + x, GuardedStops) == StripFragments(x, GuardedStops)
  {
    var a := FormatLink(c, zid)[TokenLength..];
    if zid in c.st.notes {
      var n := c.st.notes[zid];
      assert a == Annotation(n.title, c.relPath(n.path));
      SkipAnnotation(n.title, c.relPath(n.path), x);
    } else {
      assert a + x == x;
    }
  }

  /** Annotating text that starts with a token writes the token, what `_format_link` adds, then the rest annotated. */
  lemma AnnotateTokenShape(c: Context, t: string)
    requires TokenStart(t)
    ensures Annotate(c, t) == t[..TokenLength] + (FormatLink(c, t[2..16])[TokenLength..] + Annotate(c, t[TokenLength..]))
  {
    var f := FormatLink(c, t[2..16]);
    AnnotateAtToken(c, t);
    TokenHead(t);
    SplitHead(f, Annotate(c, t[TokenLength..]), t[..TokenLength]);
  }

  lemma AnnotateAtToken(c: Context, t: string)
    requires TokenStart(t)
    ensures Annotate(c, t) == FormatLink(c, t[2..16]) + Annotate(c, t[TokenLength..])
  {
  }

  lemma SplitHead<T>(f: seq<T>, x: seq<T>, h: seq<T>)
    requires |h| <= |f| && f[..|h|] == h
    ensures f + x == h + (f[|h|..] + x)
  {
    assert f == h + f[|h|..];
  }

  /** A token at the start of `t` is `[[`, its id, `]]`. */
  lemma TokenHead(t: string)
    requires TokenStart(t)
    ensures t[..TokenLength] == "[[" + t[2..16] + "]]"
  {
    var h := "[[" + t[2..16] + "]]";
    forall j | 0 <= j < TokenLength
      ensures t[j] == h[j]
    {
      if 2 <= j < 16 {
        assert h[j] == t[2..16][j - 2];
      }
    }
  }


  /** Stripping an annotated token keeps the token and drops its annotation. */
  lemma {:induction false} TokenStep(c: Context, t: string)
    requires LinksClean(c) && TokenStart(t)
    ensures StripFragments(Annotate(c, t), GuardedStops)
            == t[..TokenLength] + StripFragments(Annotate(c, t[TokenLength..]), GuardedStops)
  {
    var tk, x := t[..TokenLength], Annotate(c, t[TokenLength..]);
    var a := FormatLink(c, t[2..16])[TokenLength..];
    var w := Annotate(c, t);
    AnnotateTokenShape(c, t);
    assert w[..TokenLength] == tk && w[TokenLength..] == a + x;
    TokenStartPrefix(t, w);
    StripKeepsToken(w);
    LinkTailStripped(c, t[2..16], x);
  }

  /** Stripping keeps a character that neither starts a token nor a match. */
  lemma PlainStep(c: Context, t: string)
    requires t != [] && !TokenStart(t) && FragmentLen(t, GuardedStops) == None
    ensures StripFragments(Annotate(c, t), GuardedStops) == [t[0]] + StripFragments(Annotate(c, t[1..]), GuardedStops)
  {
    FragmentAnnotate(c, t);
    assert Annotate(c, t)[1..] == Annotate(c, t[1..]);
  }

  /**
   * Stripping undoes annotating: on text without matches, when every title
   * and path is clean, the guarded pattern removes exactly the annotations
   * just added.
   */
  lemma {:induction false} StripAnnotate(c: Context, t: string)
    requires LinksClean(c) && NoFragment(t)
    ensures StripFragments(Annotate(c, t), GuardedStops) == t
    decreases |t|
  {
    if t == [] {
    } else if TokenStart(t) {
      NoFragmentSuffix(t, TokenLength);
      StripAnnotate(c, t[TokenLength..]);
      TokenStep(c, t);
      assert t[..TokenLength] + t[TokenLength..] == t;
    } else {
      assert t[0..] == t;
      NoFragmentSuffix(t, 1);
      StripAnnotate(c, t[1..]);
      PlainStep(c, t);
      assert [t[0]] + t[1..] == t;
    }
  }

  /**
   * The corrected rewrite is idempotent: once stripping leaves a line
   * without matches, a second rewrite gives the same line, provided titles
   * have no `]` and paths no `)`, `"` or `[`.
   */
  lemma RewriteIdempotent(c: Context, s: string)
    requires LinksClean(c) && NoFragment(StripFragments(s, GuardedStops))
    ensures Rewrite(c, Rewrite(c, s)) == Rewrite(c, s)
  {
    StripAnnotate(c, StripFragments(s, GuardedStops));
  }

  /** In particular every line without a match is rewritten idempotently, and stripping leaves it as it is. */
  lemma RewriteFresh(c: Context, s: string)
    requires LinksClean(c) && NoFragment(s)
    ensures StripFragments(s, GuardedStops) == s
    ensures Rewrite(c, Rewrite(c, s)) == Rewrite(c, s)
  {
    StripNone(s);
    RewriteIdempotent(c, s);
  }

  // The rewrite as written: stripping lets a path run into a link token,
  // and each token found is replaced everywhere, once per occurrence.

  /** `md_line.text.replace(link, _format_link(zid))` for each link found, in order, repeats included. */
  function ReplaceTokens(c: Context, t: string, links: seq<string>): (r: string)
    requires forall k :: 0 <= k < |links| ==> IsToken(links[k])
    ensures |t| <= |r|
    ensures NoChar(t, '[') ==> r == t
    decreases |links|
  {
    if links == [] then t
    else
      assert IsToken(links[0]);
      ReplaceTokens(c, Replace(t, links[0], FormatLink(c, links[0][2..16])), links[1..])
  }

  /** Lines 102-112 as written: strip with the unguarded pattern, then replace every token found. */
  function RewriteAsWritten(c: Context, s: string): (r: string)
    ensures NoChar(s, '[') && NoChar(s, '"') ==> r == s
  {
    var t := StripFragments(s, WrittenStops);
    ReplaceTokens(c, t, LinkTokens(t))
  }

  /** The link rewrite of one line in a pass, as the context's rule chooses. */
  function LineRewrite(c: Context, s: string): (r: string)
    ensures c.rule == AsWritten ==> r == RewriteAsWritten(c, s)
    ensures c.rule == Corrected ==> r == Rewrite(c, s)
    ensures NoChar(s, '[') && NoChar(s, '"') ==> r == s
  {
    match c.rule
    case AsWritten => RewriteAsWritten(c, s)
    case Corrected => Rewrite(c, s)
  }

  /** Without a `"` nothing matches, under either pattern. */
  lemma {:induction false} StripNoQuote(s: string, stops: set<char>)
    requires '"' in stops && NoChar(s, '"')
    ensures StripFragments(s, stops) == s
    decreases |s|
  {
    if s != [] {
      assert FragmentLen(s, stops) == None;
      StripNoQuote(s[1..], stops);
    }
  }

  /** Replacing a `[[`-pattern skips a prefix that holds no `[[` and does not end in `[`. */
  lemma ReplaceSkip(x: string, y: string, pat: string, rep: string)
    requires |pat| >= 2 && pat[0] == '[' && pat[1] == '['
    requires forall i :: 0 <= i < |x| - 1 ==> !(x[i] == '[' && x[i + 1] == '[')
    requires x == [] || x[|x| - 1] != '['
    ensures ReplaceNonEmpty(x + y, pat, rep) == x + ReplaceNonEmpty(y, pat, rep)
  {
    var w := x + y;
    var f := (s: string) => ReplaceNonEmpty(s, pat, rep);
    forall i | 0 <= i < |x|
      ensures f(w[i..]) == [w[i]] + f(w[i + 1..])
    {
      var u := w[i..];
      assert u[0] == x[i];
      if i + 1 < |x| {
        assert u[1] == x[i + 1];
      }
      assert !StartsWith(u, pat);
      assert u[1..] == w[i + 1..];
    }
    KeepPrefix(f, w, |x|);
    assert w[..|x|] == x && w[|x|..] == y;
  }

  /** Likewise annotating passes over such a prefix unchanged. */
  lemma AnnotateSkip(c: Context, x: string, y: string)
    requires forall i :: 0 <= i < |x| - 1 ==> !(x[i] == '[' && x[i + 1] == '[')
    requires x == [] || x[|x| - 1] != '['
    ensures Annotate(c, x + y) == x + Annotate(c, y)
  {
    var w := x + y;
    var f := (s: string) => Annotate(c, s);
    forall i | 0 <= i < |x|
      ensures f(w[i..]) == [w[i]] + f(w[i + 1..])
    {
      var u := w[i..];
      assert u[0] == x[i];
      if i + 1 < |x| {
        assert u[1] == x[i + 1];
      }
      assert !TokenStart(u);
      assert u[1..] == w[i + 1..];
    }
    KeepPrefix(f, w, |x|);
    assert w[..|x|] == x && w[|x|..] == y;
  }

  /** A match needs a `"`. */
  lemma NoQuoteNoFragment(s: string)
    requires NoChar(s, '"')
    ensures NoFragment(s)
  {
    forall i | 0 <= i < |s|
      ensures FragmentLen(s[i..], GuardedStops) == None
    {
      assert NoChar(s[i..], '"');
    }
  }

  /** An annotation holds no `[[` when its title and path hold no `[`, and it ends in `)`. */
  lemma AnnotationNoToken(title: string, path: string)
    requires NoChar(title, '[') && NoChar(path, '[')
    ensures var a := Annotation(title, path);
            (forall i :: 0 <= i < |a| - 1 ==> !(a[i] == '[' && a[i + 1] == '['))
            && a[|a| - 1] == ')'
  {
    var a := Annotation(title, path);
    var b := 2 + |title|;
    assert a[0] == ' ' && a[1] == '[' && a[b] == ']' && a[b + 1] == '(';
    assert a[2] == ']' || a[2] == title[0];
    assert forall i :: 2 <= i < b ==> a[i] == title[i - 2];
    assert forall i :: b + 2 <= i < b + 2 + |path| ==> a[i] == path[i - b - 2];
    assert a[b + 2 + |path|..] == " \"autogen\")";
  }

  /** A link target whose title and relative path can hold neither `[`, `)` nor `"`. */
  predicate PlainTarget(c: Context, zid: string)
  {
    |zid| == IdLength && AllDigits(zid) && zid in c.st.notes
    && var n := c.st.notes[zid];
       NoChar(n.title, '[') && NoChar(n.title, ']') && NoChar(n.title, ')') && NoChar(n.title, '"')
       && forall j :: 0 <= j < |c.relPath(n.path)| ==> c.relPath(n.path)[j] !in GuardedStops
  }

  /** The annotation `_format_link` appends for such a target. */
  function TargetAnnotation(c: Context, zid: string): (a: string)
    requires PlainTarget(c, zid)
    ensures FormatLink(c, zid) == "[[" + zid + "]]" + a
  {
    var n := c.st.notes[zid];
    Annotation(n.title, c.relPath(n.path))
  }

  lemma TokenOf(zid: string)
    requires |zid| == IdLength && AllDigits(zid)
    ensures var tk := "[[" + zid + "]]";
            IsToken(tk) && TokenStart(tk) && tk[2..16] == zid && NoChar(tk, '"') && NoChar(tk, ')')
  {
    var tk := "[[" + zid + "]]";
    assert tk[2..16] == zid;
    forall j | 0 <= j < |tk|
      ensures tk[j] != '"' && tk[j] != ')'
    {
      if 2 <= j < 16 {
        assert tk[j] == zid[j - 2];
      }
    }
  }

  /** ` [a](` holds no `[[` and does not end in `[`. */
  lemma OpenerNoToken()
    ensures var x := " [a](";
            (forall i :: 0 <= i < |x| - 1 ==> !(x[i] == '[' && x[i + 1] == '[')) && x[|x| - 1] != '['
  {
  }

  /** The only token of ` [a](` followed by a token is that token. */
  lemma OpenedTokens(zid: string)
    requires |zid| == IdLength && AllDigits(zid)
    ensures LinkTokens(" [a](" + ("[[" + zid + "]]")) == ["[[" + zid + "]]"]
  {
    var tk := "[[" + zid + "]]";
    var s := " [a](" + tk;
    TokenOf(zid);
    assert s[5..] == tk && s[7..21] == zid && s[5..23] == tk;
    assert TokenAt(s, 5);
    assert LinkTokensFrom(s, 23) == [];
    assert LinkTokensFrom(s, 5) == [tk];
    assert LinkTokensFrom(s, 4) == [tk];
    assert LinkTokensFrom(s, 3) == [tk];
    assert LinkTokensFrom(s, 2) == [tk];
    assert LinkTokensFrom(s, 1) == [tk];
  }

  /** The first rewrite, as written, annotates the token. */
  lemma OpenedOnce(c: Context, zid: string)
    requires PlainTarget(c, zid)
    ensures RewriteAsWritten(c, " [a](" + ("[[" + zid + "]]")) == " [a](" + FormatLink(c, zid)
  {
    var tk, l := "[[" + zid + "]]", FormatLink(c, zid);
    var s := " [a](" + tk;
    TokenOf(zid);
    assert NoChar(s, '"');
    StripNoQuote(s, WrittenStops);
    OpenedTokens(zid);
    assert ReplaceTokens(c, s, [tk]) == Replace(s, tk, l);
    ReplaceAfterOpener(tk, l);
    assert RewriteAsWritten(c, s) == ReplaceTokens(c, s, LinkTokens(s));
  }

  /** Replacing a `[[`-string that follows ` [a](` replaces just that string. */
  lemma ReplaceAfterOpener(tk: string, l: string)
    requires |tk| >= 2 && tk[0] == '[' && tk[1] == '['
    ensures Replace(" [a](" + tk, tk, l) == " [a](" + l
  {
    OpenerNoToken();
    ReplaceSkip(" [a](", tk, tk, l);
    assert StartsWith(tk, tk) && tk[|tk|..] == [];
    assert ReplaceNonEmpty(tk, tk, l) == l + ReplaceNonEmpty([], tk, l);
  }

  /** The second rewrite, as written, strips the whole line: the path part of the pattern runs through the token. */
  lemma OpenedTwice(c: Context, zid: string)
    requires PlainTarget(c, zid)
    ensures StripFragments(" [a](" + FormatLink(c, zid), WrittenStops) == []
  {
    var tk := "[[" + zid + "]]";
    var n := c.st.notes[zid];
    var p := c.relPath(n.path);
    var path := tk + " [" + n.title + "](" + p;
    TokenOf(zid);
    forall j | 0 <= j < |path|
      ensures path[j] !in WrittenStops
    {
      if j < 18 {
        assert path[j] == tk[j];
      } else if 20 <= j < 20 + |n.title| {
        assert path[j] == n.title[j - 20];
      } else if j >= 22 + |n.title| {
        assert path[j] == p[j - 22 - |n.title|];
      }
    }
    assert " [a](" + FormatLink(c, zid) == Annotation("a", path) + [];
    AnnotationMatched("a", path, [], WrittenStops);
    assert (Annotation("a", path) + [])[|Annotation("a", path)|..] == [];
  }

  /**
   * As written, a second rewrite deletes a line that ends in ` [a](` and a
   * link token: the unguarded path part runs through the token up to the
   * annotation's `"autogen")`.
   */
  lemma AsWrittenSwallowsLink(c: Context, zid: string)
    requires PlainTarget(c, zid)
    ensures var once := RewriteAsWritten(c, " [a](" + ("[[" + zid + "]]"));
            once == " [a](" + FormatLink(c, zid) && RewriteAsWritten(c, once) == ""
  {
    OpenedOnce(c, zid);
    OpenedTwice(c, zid);
    assert LinkTokens([]) == [];
  }

  /** The corrected rewrite leaves that line alone on the second pass. */
  lemma GuardedKeepsLink(c: Context, zid: string)
    requires LinksClean(c) && PlainTarget(c, zid)
    ensures var once := Rewrite(c, " [a](" + ("[[" + zid + "]]"));
            once == " [a](" + FormatLink(c, zid) && Rewrite(c, once) == once
  {
    var tk := "[[" + zid + "]]";
    var s := " [a](" + tk;
    TokenOf(zid);
    assert NoChar(s, '"');
    StripNoQuote(s, GuardedStops);
    assert tk[TokenLength..] == [];
    assert Annotate(c, tk) == FormatLink(c, zid);
    OpenerNoToken();
    AnnotateSkip(c, " [a](", tk);
    NoQuoteNoFragment(s);
    RewriteFresh(c, s);
  }

  /** Replacing at the head of the text. */
  lemma ReplaceHead(t: string, y: string, rep: string)
    requires t != []
    ensures ReplaceNonEmpty(t + y, t, rep) == rep + ReplaceNonEmpty(y, t, rep)
  {
    assert (t + y)[..|t|] == t && (t + y)[|t|..] == y;
  }

  /** A token written twice is found twice. */
  lemma RepeatedTokens(zid: string)
    requires |zid| == IdLength && AllDigits(zid)
    ensures var tk := "[[" + zid + "]]";
            LinkTokens(tk + tk) == [tk, tk]
  {
    var tk := "[[" + zid + "]]";
    var s := tk + tk;
    TokenOf(zid);
    TokenStartPrefix(tk, s);
    TokenStartPrefix(tk, s[18..]);
    assert s[..18] == tk && s[18..] == tk && s[18..36] == tk;
    assert TokenAt(s, 18) by {
      assert s[20..34] == tk[2..16];
    }
    assert LinkTokensFrom(s, 36) == [];
    assert LinkTokensFrom(s, 18) == [tk];
  }

  /** Replacing a token by itself plus `a`, twice over, on the token written twice. */
  lemma ReplaceTwice(tk: string, a: string)
    requires |tk| >= 2 && tk[0] == '[' && tk[1] == '['
    requires forall i :: 0 <= i < |a| - 1 ==> !(a[i] == '[' && a[i + 1] == '[')
    requires a == [] || a[|a| - 1] != '['
    ensures var l := tk + a;
            ReplaceNonEmpty(ReplaceNonEmpty(tk + tk, tk, l), tk, l) == l + a + (l + a)
  {
    var l := tk + a;
    ReplaceHead(tk, tk, l);
    ReplaceHead(tk, [], l);
    Assoc(tk, [], []);
    var r1 := ReplaceNonEmpty(tk + tk, tk, l);
    assert r1 == l + l;
    var y := a + (tk + a);
    Assoc(tk, a, tk + a);
    ReplaceHead(tk, y, l);
    ReplaceSkip(a, tk + a, tk, l);
    ReplaceHead(tk, a, l);
    ReplaceSkip(a, [], tk, l);
    Assoc(a, [], []);
    Assoc(l, a, l + a);
  }

  /**
   * As written, a line holding the same link twice gets two annotations
   * after each copy: the token is found twice, and each `replace` rewrites
   * every copy.
   */
  lemma AsWrittenDoublesRepeat(c: Context, zid: string)
    requires PlainTarget(c, zid)
    ensures var tk, l, a := "[[" + zid + "]]", FormatLink(c, zid), TargetAnnotation(c, zid);
            RewriteAsWritten(c, tk + tk) == l + a + (l + a)
  {
    var tk, l, a := "[[" + zid + "]]", FormatLink(c, zid), TargetAnnotation(c, zid);
    var n := c.st.notes[zid];
    TokenOf(zid);
    assert NoChar(tk + tk, '"');
    StripNoQuote(tk + tk, WrittenStops);
    RepeatedTokens(zid);
    var r1 := Replace(tk + tk, tk, l);
    assert [tk, tk][1..] == [tk];
    assert ReplaceTokens(c, tk + tk, [tk, tk]) == ReplaceTokens(c, r1, [tk]);
    assert ReplaceTokens(c, r1, [tk]) == ReplaceTokens(c, Replace(r1, tk, l), []);
    AnnotationNoToken(n.title, c.relPath(n.path));
    ReplaceTwice(tk, a);
  }

  /** The corrected rewrite annotates each copy once. */
  lemma GuardedAnnotatesRepeatOnce(c: Context, zid: string)
    requires PlainTarget(c, zid)
    ensures var tk, l := "[[" + zid + "]]", FormatLink(c, zid);
            Rewrite(c, tk + tk) == l + l
  {
    var tk, l := "[[" + zid + "]]", FormatLink(c, zid);
    TokenOf(zid);
    assert NoChar(tk + tk, '"');
    StripNoQuote(tk + tk, GuardedStops);
    AnnotateTokenTwice(c, tk);
  }

  /** A token written twice is annotated once after each copy. */
  lemma AnnotateTokenTwice(c: Context, t: string)
    requires TokenStart(t) && |t| == TokenLength
    ensures Annotate(c, t + t) == FormatLink(c, t[2..16]) + FormatLink(c, t[2..16])
  {
    TokenStartPrefix(t, t + t);
    assert (t + t)[TokenLength..] == t && t[TokenLength..] == [] && (t + t)[2..16] == t[2..16];
    AnnotateAtToken(c, t);
    AnnotateAtToken(c, t + t);
  }
}
