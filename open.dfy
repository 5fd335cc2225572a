/**
 * The `zk_open` command: the file-name pattern it hands to `find`, the
 * splitting of `find`'s output into paths, and the shell command built
 * from the `--action` template. Running `find` and the shell is left to
 * the caller: the output of `find` is a parameter.
 */
module OpenCommand {
  import opened Text

  /**
   * `find -name`'s matching of a whole file name against a pattern, where
   * `*` matches any run of characters and every other character matches
   * itself.
   */
  predicate GlobMatch(pat: string, name: string)
    ensures GlobMatch(pat, name) && NoChar(pat, '*') ==> name == pat
    decreases |pat| + |name|
  {
    if pat == [] then name == []
    else if pat[0] == '*' then GlobMatch(pat[1..], name) || (name != [] && GlobMatch(pat, name[1..]))
    else name != [] && name[0] == pat[0] && GlobMatch(pat[1..], name[1..])
  }

  /** A pattern without `*` matches exactly itself. */
  lemma {:induction false} LiteralMatch(t: string, name: string)
    requires NoChar(t, '*')
    ensures GlobMatch(t, name) <==> name == t
  {
    if t != [] && name != [] {
      LiteralMatch(t[1..], name[1..]);
      if name[0] == t[0] && name[1..] == t[1..] {
        assert name == [name[0]] + name[1..];
        assert t == [t[0]] + t[1..];
      }
    }
  }

  /** A literal prefix of the pattern must begin the name. */
  lemma {:induction false} LiteralPrefix(t: string, q: string, name: string)
    requires NoChar(t, '*')
    ensures GlobMatch(t + q, name) <==> StartsWith(name, t) && GlobMatch(q, name[|t|..])
  {
    if t != [] {
      assert (t + q)[0] == t[0] && (t + q)[1..] == t[1..] + q;
      if name != [] {
        LiteralPrefix(t[1..], q, name[1..]);
        if |name| >= |t| {
          assert name[..|t|] == [name[0]] + name[1..][..|t| - 1];
          assert name[1..][|t| - 1..] == name[|t|..];
        }
      }
    } else {
      assert t + q == q;
    }
  }

  /** A leading `*` lets the rest of the pattern match any suffix of the name. */
  lemma {:induction false} StarMatch(q: string, name: string)
    ensures GlobMatch("*" + q, name) <==> exists i :: 0 <= i <= |name| && GlobMatch(q, name[i..])
    decreases |name|
  {
    assert ("*" + q)[0] == '*' && ("*" + q)[1..] == q;
    assert name[0..] == name;
    if name != [] {
      StarMatch(q, name[1..]);
      if exists i :: 0 <= i <= |name| && GlobMatch(q, name[i..]) {
        var i :| 0 <= i <= |name| && GlobMatch(q, name[i..]);
        if i > 0 {
          assert name[1..][i - 1..] == name[i..];
        }
      }
      if exists i :: 0 <= i <= |name| - 1 && GlobMatch(q, name[1..][i..]) {
        var i :| 0 <= i <= |name| - 1 && GlobMatch(q, name[1..][i..]);
        assert name[1..][i..] == name[i + 1..];
      }
    } else {
      if exists i :: 0 <= i <= |name| && GlobMatch(q, name[i..]) {
        var i :| 0 <= i <= |name| && GlobMatch(q, name[i..]);
        assert name[i..] == name;
      }
    }
  }

  /** `*` followed by a literal matches the names that end with it. */
  lemma StarSuffix(t: string, name: string)
    requires NoChar(t, '*')
    ensures GlobMatch("*" + t, name) <==> EndsWith(name, t)
  {
    StarMatch(t, name);
    if EndsWith(name, t) {
      LiteralMatch(t, name[|name| - |t|..]);
    }
    if exists i :: 0 <= i <= |name| && GlobMatch(t, name[i..]) {
      var i :| 0 <= i <= |name| && GlobMatch(t, name[i..]);
      LiteralMatch(t, name[i..]);
    }
  }

  /** The pattern as `get_search_results` builds it. */
  function SearchPatternAsWritten(term: string): (pat: string)
    ensures NoChar(term, '*') || EndsWith(term, "*") ==> EndsWith(pat, ".md")
    ensures !NoChar(term, '*') && !EndsWith(term, "*") ==> pat == term
    ensures NoChar(term, '*') && EndsWith(term, ".md") ==> !GlobMatch(pat, term)
  {
    if NoChar(term, '*') then
      if !EndsWith(term, ".md") then "*" + term + "*.md"
      else
        assert "*" + term + ".md" == "*" + (term + ".md");
        assert NoChar(term + ".md", '*');
        StarSuffix(term + ".md", term);
        "*" + term + ".md"
    else if EndsWith(term, "*") then term + ".md"
    else term
  }

  /**
   * A term without `*` that already ends in `.md` gets a second `.md`: the
   * pattern then misses the file whose name is the term itself, and finds
   * only names ending in the term followed by `.md`.
   */
  lemma AsWrittenDoublesSuffix(term: string, name: string)
    requires NoChar(term, '*') && EndsWith(term, ".md")
    ensures SearchPatternAsWritten(term) == "*" + (term + ".md")
    ensures GlobMatch(SearchPatternAsWritten(term), name) <==> EndsWith(name, term + ".md")
    ensures !GlobMatch(SearchPatternAsWritten(term), term)
  {
    assert "*" + term + ".md" == "*" + (term + ".md");
    assert NoChar(term + ".md", '*');
    StarSuffix(term + ".md", name);
    StarSuffix(term + ".md", term);
  }

  /**
   * The pattern for a search term: a term without `*` matches the names
   * holding it and ending in `.md`, where a term that already ends in
   * `.md` must end the name; a term with `*` is used as given, with `.md`
   * added when it ends in `*`.
   */
  function SearchPattern(term: string): (pat: string)
    ensures NoChar(term, '*') || EndsWith(term, "*") ==> EndsWith(pat, ".md")
    ensures !NoChar(term, '*') && !EndsWith(term, "*") ==> pat == term
    ensures NoChar(term, '*') && EndsWith(term, ".md") ==> GlobMatch(pat, term)
  {
    if NoChar(term, '*') then
      if !EndsWith(term, ".md") then "*" + term + "*.md"
      else
        StarSuffix(term, term);
        "*" + term
    else if EndsWith(term, "*") then term + ".md"
    else term
  }

  /** A term without `*` ending in `.md` finds exactly the names ending in it, the file named by the term among them. */
  lemma SearchPatternSuffix(term: string, name: string)
    requires NoChar(term, '*') && EndsWith(term, ".md")
    ensures GlobMatch(SearchPattern(term), name) <==> EndsWith(name, term)
    ensures GlobMatch(SearchPattern(term), term)
  {
    StarSuffix(term, name);
    StarSuffix(term, term);
  }

  /** The name holds `term` at `i` and ends in `.md` after it. */
  predicate HoldsAt(name: string, term: string, i: int)
  {
    0 <= i <= |name| - |term| && OccursAt(name, term, i) && EndsWith(name[i + |term|..], ".md")
  }

  /** The part of the pattern after its leading `*` matches from `i` on exactly when the name holds the term there. */
  lemma HoldsAtMatch(term: string, name: string, i: int)
    requires NoChar(term, '*') && 0 <= i <= |name|
    ensures GlobMatch(term + ("*" + ".md"), name[i..]) <==> HoldsAt(name, term, i)
  {
    var q := "*" + ".md";
    assert NoChar(".md", '*');
    LiteralPrefix(term, q, name[i..]);
    if StartsWith(name[i..], term) {
      assert name[i..][|term|..] == name[i + |term|..];
      StarSuffix(".md", name[i + |term|..]);
      assert name[i..i + |term|] == name[i..][..|term|];
    }
    if OccursAt(name, term, i) {
      assert name[i..][..|term|] == name[i..i + |term|];
    }
  }

  /**
   * Any other term without `*` finds exactly the names that hold the term
   * and end in `.md` after it.
   */
  lemma SearchPatternContains(term: string, name: string)
    requires NoChar(term, '*') && !EndsWith(term, ".md")
    ensures GlobMatch(SearchPattern(term), name) <==> exists i :: HoldsAt(name, term, i)
  {
    var q := "*" + ".md";
    assert SearchPattern(term) == "*" + (term + q);
    StarMatch(term + q, name);
    if GlobMatch(SearchPattern(term), name) {
      var i :| 0 <= i <= |name| && GlobMatch(term + q, name[i..]);
      HoldsAtMatch(term, name, i);
    }
    if exists i :: HoldsAt(name, term, i) {
      var i :| HoldsAt(name, term, i);
      HoldsAtMatch(term, name, i);
    }
  }

  /** A pattern ending in a literal only matches names ending in that literal. */
  lemma {:induction false} LiteralSuffix(p: string, t: string, name: string)
    requires NoChar(t, '*') && GlobMatch(p + t, name)
    ensures EndsWith(name, t)
    decreases |p| + |name|
  {
    if p == [] {
      assert p + t == t;
      LiteralMatch(t, name);
    } else {
      assert (p + t)[0] == p[0] && (p + t)[1..] == p[1..] + t;
      if p[0] == '*' && GlobMatch(p[1..] + t, name) {
        LiteralSuffix(p[1..], t, name);
      } else if p[0] == '*' {
        LiteralSuffix(p, t, name[1..]);
        assert name[1..][|name| - 1 - |t|..] == name[|name| - |t|..];
      } else {
        LiteralSuffix(p[1..], t, name[1..]);
        assert name[1..][|name| - 1 - |t|..] == name[|name| - |t|..];
      }
    }
  }

  /**
   * Every term without `*`, and every term ending in `*`, gives a pattern
   * that only finds `.md` files; any other term with `*` is handed to
   * `find` as it is.
   */
  lemma SearchPatternFindsMarkdown(term: string, name: string)
    ensures (NoChar(term, '*') || EndsWith(term, "*")) && GlobMatch(SearchPattern(term), name) ==> EndsWith(name, ".md")
    ensures !NoChar(term, '*') && !EndsWith(term, "*") ==> SearchPattern(term) == term
  {
    if NoChar(term, '*') && !EndsWith(term, ".md") && GlobMatch(SearchPattern(term), name) {
      assert SearchPattern(term) == ("*" + term + "*") + ".md";
      LiteralSuffix("*" + term + "*", ".md", name);
    } else if NoChar(term, '*') && GlobMatch(SearchPattern(term), name) {
      SearchPatternSuffix(term, name);
      assert name[|name| - 3..] == name[|name| - |term|..][|term| - 3..];
    } else if EndsWith(term, "*") && GlobMatch(SearchPattern(term), name) {
      LiteralSuffix(term, ".md", name);
    }
  }

  /**
   * The paths `find` printed: there are none exactly when its output is
   * blank; otherwise the paths, joined by newlines, give back the stripped
   * output, and no path holds a newline.
   */
  function SearchResults(output: string): (paths: seq<string>)
    ensures paths == [] <==> AllSpace(output)
    ensures paths != [] ==>
              JoinWith("\n", paths) == Strip(output)
              && forall k :: 0 <= k < |paths| ==> NoChar(paths[k], '\n')
  {
    var opt := Strip(output);
    StripBlank(output);
    DropNewlinesEmpty(opt);
    assert opt != [] ==> !IsSpace(opt[0]);
    if Replace(opt, "\n", "") == [] then [] else Split(opt, '\n')
  }

  /** Deleting every newline leaves nothing exactly when the text is all newlines. */
  lemma {:induction false} DropNewlinesEmpty(s: string)
    ensures Replace(s, "\n", "") == [] <==> forall k :: 0 <= k < |s| ==> s[k] == '\n'
    decreases |s|
  {
    if s != [] {
      DropNewlinesEmpty(s[1..]);
      if s[0] == '\n' {
        assert StartsWith(s, "\n");
        assert Replace(s, "\n", "") == Replace(s[1..], "\n", "");
      } else {
        assert !StartsWith(s, "\n");
      }
      assert forall k :: 1 <= k < |s| ==> s[k] == s[1..][k - 1];
    }
  }

  /** Stripping leaves nothing exactly when the text is all white space. */
  lemma StripBlank(s: string)
    ensures Strip(s) == [] <==> AllSpace(s)
    ensures Strip(s) == [] || (!IsSpace(Strip(s)[0]) && !IsSpace(Strip(s)[|Strip(s)| - 1]))
  {
    var r := Strip(s);
    StripShape(s);
    var i :| 0 <= i <= |s| - |r| && r == s[i..i + |r|]
             && AllSpace(s[..i]) && AllSpace(s[i + |r|..]);
    if r == [] {
      forall k | 0 <= k < |s|
        ensures IsSpace(s[k])
      {
        if k < i {
          assert s[k] == s[..i][k];
        } else {
          assert s[k] == s[i..][k - i];
        }
      }
    } else {
      assert s[i] == r[0];
    }
  }

  /**
   * The shell command for a found path: `{file}` in the action is replaced
   * by the path, after ` {file}` is appended when the action lacks it. The
   * command always mentions the path, and an action without `{file}` runs
   * with the path appended after a blank.
   */
  function ActionCommand(action: string, path: string): (cmd: string)
    ensures Contains(cmd, path)
    ensures !Contains(action, "{file}") ==> cmd == action + " " + path
  {
    if Contains(action, "{file}") then
      ReplaceShowsRep(action, "{file}", path);
      Replace(action, "{file}", path)
    else
      var a := action + " {file}";
      assert a[|action| + 1..|action| + 7] == "{file}";
      ContainsAt(a, "{file}", |action| + 1);
      ReplaceShowsRep(a, "{file}", path);
      ReplaceAppendedField(action, path);
      Replace(a, "{file}", path)
  }

  /** Replacing a pattern that occurs puts the replacement into the result. */
  lemma {:induction false} ReplaceShowsRep(s: string, pat: string, rep: string)
    requires pat != [] && Contains(s, pat)
    ensures Contains(Replace(s, pat, rep), rep)
    decreases |s|
  {
    if StartsWith(s, pat) {
      var rest := Replace(s[|pat|..], pat, rep);
      assert Replace(s, pat, rep) == rep + rest;
      assert (rep + rest)[..|rep|] == rep;
      ContainsAt(rep + rest, rep, 0);
    } else {
      var i :| 0 <= i <= |s| - |pat| && OccursAt(s, pat, i);
      assert i > 0;
      assert s[1..][i - 1..i - 1 + |pat|] == s[i..i + |pat|];
      ContainsAt(s[1..], pat, i - 1);
      ReplaceShowsRep(s[1..], pat, rep);
      ContainsPrepend([s[0]], Replace(s[1..], pat, rep), rep);
    }
  }

  /** A text without `{file}` followed by ` {file}` has its only field at the end. */
  lemma {:induction false} ReplaceAppendedField(x: string, path: string)
    requires !Contains(x, "{file}")
    ensures Replace(x + " {file}", "{file}", path) == x + " " + path
    decreases |x|
  {
    var s := x + " {file}";
    if x == [] {
      assert s == " {file}";
      assert !StartsWith(s, "{file}");
      assert s[1..] == "{file}";
      assert StartsWith(s[1..], "{file}");
      assert s[1..][6..] == [];
      assert Replace(s[1..], "{file}", path) == path + Replace([], "{file}", path);
      assert Replace(s, "{file}", path) == [' '] + (path + []);
      assert x + " " + path == " " + path;
    } else {
      if |x| >= 6 {
        if StartsWith(s, "{file}") {
          assert x[..6] == s[..6];
          ContainsAt(x, "{file}", 0);
        }
      } else {
        assert s[|x|] == ' ';
        assert !StartsWith(s, "{file}");
      }
      assert s[1..] == x[1..] + " {file}";
      ContainsTail(x, "{file}");
      ReplaceAppendedField(x[1..], path);
      assert [x[0]] + (x[1..] + " " + path) == x + " " + path;
    }
  }
}
