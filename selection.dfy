/**
 * Choosing one note among search results (`get_path_selection`): the
 * results are shown with the names starting with the search term first,
 * each group sorted by name; then the user's answer picks one. The
 * terminal listing and the prompt are left out: the answer is a
 * parameter, with `None` standing for an interrupted prompt.
 */
module Selection {
  import opened Wrappers
  import opened Text
  import opened Paths
  import opened Lists

  /** The paths are in order of their names. */
  predicate NameSorted(s: seq<FilePath>)
  {
    forall i, j :: 0 <= i < j < |s| ==> LexLe(s[i].name, s[j].name)
  }

  /** A sorted list stays sorted when a path with a name not smaller than every name in it is appended. */
  lemma AppendSorted(s: seq<FilePath>, x: FilePath)
    requires NameSorted(s) && forall i :: 0 <= i < |s| ==> LexLe(s[i].name, x.name)
    ensures NameSorted(s + [x])
  {
    var r := s + [x];
    forall i, j | 0 <= i < j < |r|
      ensures LexLe(r[i].name, r[j].name)
    {
      if j < |s| {
        assert r[i] == s[i] && r[j] == s[j];
      } else {
        assert r[i] == s[i] && r[j] == x;
      }
    }
  }

  /** `x` placed after every path whose name is not greater, where a stable sort puts a path that comes later. */
  function InsertByName(s: seq<FilePath>, x: FilePath): (r: seq<FilePath>)
    requires NameSorted(s)
    ensures NameSorted(r) && multiset(r) == multiset(s) + multiset{x}
  {
    if s == [] then [x]
    else
      var init, last := s[..|s| - 1], s[|s| - 1];
      assert s == init + [last];
      if LexLe(last.name, x.name) then
        AllBelow(s, x);
        AppendSorted(s, x);
        s + [x]
      else
        var r := InsertByName(init, x);
        LexTotal(last.name, x.name);
        BelowLast(init, last, x, r);
        AppendSorted(r, last);
        r + [last]
  }

  /** When the last name of a sorted list is not greater than `x`'s, no name in it is. */
  lemma AllBelow(s: seq<FilePath>, x: FilePath)
    requires NameSorted(s) && s != [] && LexLe(s[|s| - 1].name, x.name)
    ensures forall i :: 0 <= i < |s| ==> LexLe(s[i].name, x.name)
  {
    forall i | 0 <= i < |s|
      ensures LexLe(s[i].name, x.name)
    {
      if i < |s| - 1 {
        LexTrans(s[i].name, s[|s| - 1].name, x.name);
      }
    }
  }

  /** The paths of a sorted list, and `x`, all have names not greater than the name of the path after the list. */
  lemma BelowLast(init: seq<FilePath>, last: FilePath, x: FilePath, r: seq<FilePath>)
    requires NameSorted(init + [last]) && LexLe(x.name, last.name)
    requires multiset(r) == multiset(init) + multiset{x}
    ensures forall i :: 0 <= i < |r| ==> LexLe(r[i].name, last.name)
  {
    var s := init + [last];
    forall i | 0 <= i < |r|
      ensures LexLe(r[i].name, last.name)
    {
      assert r[i] in multiset(r);
      if r[i] != x {
        assert r[i] in multiset(init);
        var j :| 0 <= j < |init| && init[j] == r[i];
        assert s[j] == r[i] && s[|init|] == last;
      }
    }
  }

  /** Python's `sorted(..., key=lambda p: p.name)`: the same paths, in order of their names. */
  function SortByName(s: seq<FilePath>): (r: seq<FilePath>)
    ensures NameSorted(r) && multiset(r) == multiset(s)
  {
    if s == [] then []
    else
      assert s == s[..|s| - 1] + [s[|s| - 1]];
      InsertByName(SortByName(s[..|s| - 1]), s[|s| - 1])
  }

  /** The results whose name starts with `search`, in their order. */
  function WithPrefix(rs: seq<FilePath>, search: string): (r: seq<FilePath>)
    ensures forall p :: p in multiset(r) ==> StartsWith(p.name, search)
  {
    if rs == [] then []
    else (if StartsWith(rs[0].name, search) then [rs[0]] else []) + WithPrefix(rs[1..], search)
  }

  /** The results whose name does not start with `search`, in their order. */
  function WithoutPrefix(rs: seq<FilePath>, search: string): (r: seq<FilePath>)
    ensures forall p :: p in multiset(r) ==> !StartsWith(p.name, search)
  {
    if rs == [] then []
    else (if StartsWith(rs[0].name, search) then [] else [rs[0]]) + WithoutPrefix(rs[1..], search)
  }

  /** The two groups together hold every result once. */
  lemma {:induction false} PrefixPartition(rs: seq<FilePath>, search: string)
    ensures multiset(WithPrefix(rs, search)) + multiset(WithoutPrefix(rs, search)) == multiset(rs)
  {
    if rs != [] {
      PrefixPartition(rs[1..], search);
      assert rs == [rs[0]] + rs[1..];
    }
  }

  /** Every path of a sorted group keeps the property its group was chosen by. */
  lemma GroupMembers(g: seq<FilePath>, h: seq<FilePath>, search: string, starts: bool)
    requires multiset(g) == multiset(h)
    requires forall p :: p in multiset(h) ==> StartsWith(p.name, search) == starts
    ensures forall i :: 0 <= i < |g| ==> StartsWith(g[i].name, search) == starts
  {
    forall i | 0 <= i < |g|
      ensures StartsWith(g[i].name, search) == starts
    {
      assert g[i] in multiset(g);
    }
  }

  /** Two sorted groups, the first of names starting with `search` and the second of the others, placed one after the other. */
  lemma GroupsInOrder(a: seq<FilePath>, b: seq<FilePath>, search: string)
    requires NameSorted(a) && NameSorted(b)
    requires forall i :: 0 <= i < |a| ==> StartsWith(a[i].name, search)
    requires forall i :: 0 <= i < |b| ==> !StartsWith(b[i].name, search)
    ensures var r := a + b;
            (forall i, j :: 0 <= i < j < |r| && StartsWith(r[j].name, search) ==> StartsWith(r[i].name, search))
            && forall i, j :: 0 <= i < j < |r| && StartsWith(r[i].name, search) == StartsWith(r[j].name, search) ==>
                 LexLe(r[i].name, r[j].name)
  {
    var r := a + b;
    forall i, j | 0 <= i < j < |r|
      ensures StartsWith(r[j].name, search) ==> StartsWith(r[i].name, search)
      ensures StartsWith(r[i].name, search) == StartsWith(r[j].name, search) ==> LexLe(r[i].name, r[j].name)
    {
      if j < |a| {
        assert r[i] == a[i] && r[j] == a[j];
      } else if i >= |a| {
        assert r[i] == b[i - |a|] && r[j] == b[j - |a|];
      } else {
        assert r[i] == a[i] && r[j] == b[j - |a|];
      }
    }
  }

  /**
   * The reordering of `get_path_selection`: a permutation of the results
   * where every name starting with `search` comes before every other name,
   * and each of the two groups is in order of names.
   */
  function Reorder(results: seq<FilePath>, search: string): (r: seq<FilePath>)
    ensures multiset(r) == multiset(results)
    ensures forall i, j :: 0 <= i < j < |r| && StartsWith(r[j].name, search) ==> StartsWith(r[i].name, search)
    ensures forall i, j :: 0 <= i < j < |r| && StartsWith(r[i].name, search) == StartsWith(r[j].name, search) ==>
              LexLe(r[i].name, r[j].name)
  {
    var a := SortByName(WithPrefix(results, search));
    var b := SortByName(WithoutPrefix(results, search));
    PrefixPartition(results, search);
    GroupMembers(a, WithPrefix(results, search), search, true);
    GroupMembers(b, WithoutPrefix(results, search), search, false);
    GroupsInOrder(a, b, search);
    a + b
  }

  /** The first result after reordering has the least name among those starting with `search`, or among all when none does. */
  lemma ReorderFirst(results: seq<FilePath>, search: string)
    requires results != []
    ensures var first := Reorder(results, search)[0];
            first in results
            && ((exists p :: p in results && StartsWith(p.name, search)) ==> StartsWith(first.name, search))
            && forall p :: p in results && StartsWith(p.name, search) == StartsWith(first.name, search) ==>
                 LexLe(first.name, p.name)
  {
    var r := Reorder(results, search);
    assert r[0] in multiset(r);
    forall p | p in results
      ensures StartsWith(p.name, search) ==> StartsWith(r[0].name, search)
      ensures StartsWith(p.name, search) == StartsWith(r[0].name, search) ==> LexLe(r[0].name, p.name)
    {
      var j := Position(r, results, p);
      if j == 0 {
        LexRefl(p.name);
      }
    }
  }

  /** Where a result sits in a permutation of the results. */
  lemma Position(r: seq<FilePath>, results: seq<FilePath>, p: FilePath) returns (j: nat)
    requires multiset(r) == multiset(results) && p in results
    ensures j < |r| && r[j] == p
  {
    assert p in multiset(results);
    assert p in r;
    j :| j < |r| && r[j] == p;
  }

  /** `str.isnumeric()` on ASCII text: not empty, and all digits. */
  predicate IsNumeric(s: string)
  {
    s != [] && AllDigits(s)
  }

  /** `int(s)` for a string of ASCII digits. */
  function DigitsValue(s: string): nat
    requires AllDigits(s)
  {
    if s == [] then 0 else DigitsValue(s[..|s| - 1]) * 10 + (s[|s| - 1] as int - '0' as int)
  }

  /** Python's `rs[i]`, where a negative index counts from the end. */
  function Item(rs: seq<FilePath>, i: int): (r: Result<FilePath>)
    ensures r.Ok? <==> -|rs| <= i < |rs|
    ensures r.Ok? ==> r.value in rs
    ensures r.Err? ==> r.error == IndexError(i)
  {
    if 0 <= i < |rs| then Ok(rs[i])
    else if -|rs| <= i < 0 then Ok(rs[|rs| + i])
    else Err(IndexError(i))
  }

  /** The results whose name holds `selection`, in their order. */
  function Holding(rs: seq<FilePath>, selection: string): (r: seq<FilePath>)
    ensures forall k :: 0 <= k < |r| ==> r[k] in rs && Contains(r[k].name, selection)
    ensures forall p :: p in rs && Contains(p.name, selection) ==> p in r
  {
    if rs == [] then []
    else
      assert forall p :: p in rs[1..] ==> p in rs;
      (if Contains(rs[0].name, selection) then [rs[0]] else []) + Holding(rs[1..], selection)
  }

  /**
   * The answer to the prompt: a number (optionally negative) indexes the
   * shown list, an empty answer takes the first entry, any other text
   * must be held by exactly one name. Otherwise the function asks again by
   * calling itself without the search term, whose reordering then fails
   * on `str.startswith(None)`.
   */
  function Answer(rs: seq<FilePath>, selection: string): (r: Result<FilePath>)
    requires rs != []
    ensures r.Ok? ==> r.value in rs
    ensures r.Err? ==> r.error.IndexError? || r.error == TypeError
  {
    if IsNumeric(selection) then Item(rs, DigitsValue(selection))
    else if StartsWith(selection, "-") && IsNumeric(selection[1..]) then Item(rs, -(DigitsValue(selection[1..]) as int))
    else if selection == "" then Ok(rs[0])
    else
      var res := Holding(rs, selection);
      if |res| != 1 then Err(TypeError) else Ok(res[0])
  }

  /** A number picks that entry of the shown list, and fails past its end. */
  lemma AnswerNumber(rs: seq<FilePath>, selection: string)
    requires rs != [] && IsNumeric(selection)
    ensures var n := DigitsValue(selection);
            (n < |rs| ==> Answer(rs, selection) == Ok(rs[n]))
            && (n >= |rs| ==> Answer(rs, selection) == Err(IndexError(n)))
  {
  }

  /** `-n` picks the n-th entry from the end (`-0` the first) and fails past the start. */
  lemma AnswerNegative(rs: seq<FilePath>, selection: string)
    requires rs != [] && StartsWith(selection, "-") && IsNumeric(selection[1..])
    ensures var n := DigitsValue(selection[1..]);
            (n == 0 ==> Answer(rs, selection) == Ok(rs[0]))
            && (0 < n <= |rs| ==> Answer(rs, selection) == Ok(rs[|rs| - n]))
            && (n > |rs| ==> Answer(rs, selection) == Err(IndexError(-(n as int))))
  {
    assert !IsNumeric(selection) by {
      assert !IsDigit(selection[0]);
    }
  }

  /**
   * Text held by exactly one name picks that path; text held by none or by
   * several makes the re-prompt fail.
   */
  lemma AnswerText(rs: seq<FilePath>, selection: string)
    requires rs != [] && selection != [] && !IsNumeric(selection)
    requires !(StartsWith(selection, "-") && IsNumeric(selection[1..]))
    ensures var hits := Holding(rs, selection);
            (|hits| == 1 ==> Answer(rs, selection) == Ok(hits[0])
                             && Contains(hits[0].name, selection)
                             && forall p :: p in rs && Contains(p.name, selection) ==> p == hits[0])
            && (|hits| != 1 ==> Answer(rs, selection) == Err(TypeError))
  {
  }

  /**
   * `get_path_selection`: nothing for no results; the first reordered
   * result when there is one or `lucky` is set; nothing when the prompt is
   * interrupted; otherwise the answer's pick. Reordering without a search
   * term fails as soon as there is a result to compare.
   */
  function PathSelection(results: seq<FilePath>, search: Option<string>, lucky: bool, selection: Option<string>)
    : (r: Result<Option<FilePath>>)
    ensures results == [] ==> r == Ok(None)
    ensures results != [] && search.None? ==> r == Err(TypeError)
    ensures r.Ok? && r.value.Some? ==> r.value.value in results
    ensures results != [] && search.Some? && (|results| == 1 || lucky) ==>
              r == Ok(Some(Reorder(results, search.value)[0]))
    ensures r.Ok? && r.value.None? ==> results == [] || selection.None?
  {
    if results == [] then Ok(None)
    else if search.None? then Err(TypeError)
    else
      var rs := Reorder(results, search.value);
      assert |rs| == |results| by {
        assert |multiset(rs)| == |multiset(results)|;
      }
      assert forall p :: p in rs ==> p in results by {
        forall p | p in rs
          ensures p in results
        {
          assert p in multiset(rs);
        }
      }
      if |rs| == 1 || lucky then Ok(Some(rs[0]))
      else if selection.None? then Ok(None)
      else
        match Answer(rs, selection.value)
        case Ok(p) => Ok(Some(p))
        case Err(e) => Err(e)
  }

  /** A result's file name. */
  function NameOf(p: FilePath): string
  {
    p.name
  }

  /** The names offered for completion: those holding `text`, in the order of the results. */
  function Options(results: seq<FilePath>, text: string): (r: seq<string>)
    ensures |r| <= |results|
    ensures forall k :: 0 <= k < |r| ==> Contains(r[k], text) && exists p :: p in results && p.name == r[k]
    ensures forall p :: p in results && Contains(p.name, text) ==> p.name in r
  {
    if results == [] then []
    else
      assert forall p :: p in results[1..] ==> p in results;
      (if Contains(results[0].name, text) then [results[0].name] else []) + Options(results[1..], text)
  }

  /** The offers are the names of the results holding `text`, in the order of the results. */
  lemma {:induction false} OptionsInOrder(results: seq<FilePath>, text: string)
    ensures Options(results, text) == MapSeq(NameOf, Holding(results, text))
  {
    if results != [] {
      var head := if Contains(results[0].name, text) then [results[0]] else [];
      var names := if Contains(results[0].name, text) then [results[0].name] else [];
      assert Holding(results, text) == head + Holding(results[1..], text);
      assert Options(results, text) == names + Options(results[1..], text);
      assert MapSeq(NameOf, head) == names;
      MapSeqAppend(NameOf, head, Holding(results[1..], text));
      OptionsInOrder(results[1..], text);
    }
  }

  /** `completer(text, state)`: the `state`-th offered name, or nothing past the end. */
  function Completer(results: seq<FilePath>, text: string, state: nat): (r: Option<string>)
    ensures r.None? <==> state >= |Holding(results, text)|
    ensures r.Some? ==> r.value == Holding(results, text)[state].name && Contains(r.value, text)
  {
    OptionsInOrder(results, text);
    var o := Options(results, text);
    if state < |o| then Some(o[state]) else None
  }

  /**
   * Asking with `state` = 0, 1, 2, ... yields exactly the names of the
   * results that hold `text`, and nothing once `state` reaches the number
   * of results.
   */
  lemma CompleterEnumerates(results: seq<FilePath>, text: string, name: string)
    ensures (exists state: nat :: Completer(results, text, state) == Some(name)) <==>
              Contains(name, text) && exists p :: p in results && p.name == name
    ensures forall state: nat :: state >= |results| ==> Completer(results, text, state) == None
  {
    var o := Options(results, text);
    if Contains(name, text) && exists p :: p in results && p.name == name {
      var k :| 0 <= k < |o| && o[k] == name;
      assert Completer(results, text, k) == Some(name);
    }
  }
}
