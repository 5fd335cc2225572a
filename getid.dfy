/**
 * The `zk_get_id` and `zk_add_id` commands: classifying a string by the
 * standalone note ids it holds, and giving a file without id a fresh one.
 * The fresh id (`generate_zid`, read from the clock) is a parameter; the
 * file move is left to the caller.
 */
module IdCommands {
  import opened Wrappers
  import opened Text
  import opened Ids
  import opened Paths
  import opened Lists

  /**
   * `get_id`: `"none"` when the string holds no standalone fourteen-digit
   * run, the run itself when it holds exactly one, `"many"` otherwise.
   */
  function GetId(s: string): (r: string)
    ensures r == "none" <==> forall p :: !StandaloneIdAt(s, p)
    ensures r == "many" <==> exists p, q :: p < q && StandaloneIdAt(s, p) && StandaloneIdAt(s, q)
    ensures r != "none" && r != "many" ==>
              exists p :: StandaloneIdAt(s, p) && r == s[p..p + IdLength]
                          && forall q :: StandaloneIdAt(s, q) ==> q == p
  {
    var res := IdRuns(s);
    IdRunsExact(s);
    if |res| == 0 then "none"
    else if |res| == 1 then
      OnlyId(s);
      res[0]
    else
      TwoIds(s);
      "many"
  }

  /** With one reported position, that position is the only standalone id. */
  lemma OnlyId(s: string)
    requires |IdPositions(s)| == 1
    ensures StandaloneIdAt(s, IdPositions(s)[0])
    ensures forall q :: StandaloneIdAt(s, q) ==> q == IdPositions(s)[0]
  {
    var P := IdPositions(s);
    assert P[0] in P;
    forall q | StandaloneIdAt(s, q)
      ensures q == P[0]
    {
      assert q in P;
    }
  }

  /** With two reported positions, two standalone ids exist. */
  lemma TwoIds(s: string)
    requires |IdPositions(s)| >= 2
    ensures exists p, q :: p < q && StandaloneIdAt(s, p) && StandaloneIdAt(s, q)
  {
    var P := IdPositions(s);
    assert P[0] in P && P[1] in P;
  }

  /** `get_ids`: `get_id` applied to each string, in order. */
  function GetIds(strings: seq<string>): (r: seq<string>)
    ensures |r| == |strings|
    ensures forall k :: 0 <= k < |strings| ==> r[k] == GetId(strings[k])
  {
    MapSeq(GetId, strings)
  }

  /** Classifying a list is classifying its parts: `get_ids` distributes over concatenation. */
  lemma GetIdsAppend(a: seq<string>, b: seq<string>)
    ensures GetIds(a + b) == GetIds(a) + GetIds(b)
  {
    MapSeqAppend(GetId, a, b);
  }

  /** A run of digits longer or shorter than fourteen is no id. */
  lemma LongRunIsNone(s: string)
    requires AllDigits(s) && |s| != IdLength
    ensures GetId(s) == "none"
  {
    NoIdInLongRun(s);
    IdRunsExact(s);
  }

  /** The name `add_id` keeps of a file: its name without a final `.md`. */
  function BaseName(name: string): (b: string)
    ensures StartsWith(name, b)
    ensures EndsWith(name, ".md") ==> b + ".md" == name
    ensures !EndsWith(name, ".md") ==> b == name
  {
    if EndsWith(name, ".md") then name[..|name| - 3] else name
  }

  /**
   * `add_id`: a file whose name holds no id is renamed, in the same
   * directory, to its base name followed by `zid` and `.md`; a name with
   * several ids is returned unchanged; a name with exactly one id yields
   * nothing (the function ends without a return).
   */
  function AddId(path: FilePath, zid: string): (r: Option<FilePath>)
    ensures r.None? <==> GetId(path.name) != "none" && GetId(path.name) != "many"
    ensures GetId(path.name) == "many" ==> r == Some(path)
    ensures GetId(path.name) == "none" ==>
              r.Some? && r.value.dir == path.dir
              && r.value.name == BaseName(path.name) + zid + ".md"
  {
    var id := GetId(path.name);
    if id == "none" then Some(Sibling(path, BaseName(path.name) + zid + ".md"))
    else if id == "many" then Some(path)
    else None
  }

  /** Where a standalone id may sit in `b + zid + ".md"` when `b` is the start of a name without ids. */
  lemma AppendedIdAt(name: string, b: string, zid: string, p: int)
    requires StartsWith(name, b) && forall q :: !StandaloneIdAt(name, q)
    requires |zid| == IdLength && AllDigits(zid)
    ensures StandaloneIdAt(b + zid + ".md", p) <==> p == |b| && (b == [] || !IsDigit(b[|b| - 1]))
  {
    var n := b + zid + ".md";
    assert |n| == |b| + IdLength + 3;
    assert n[..|b|] == b;
    assert forall k :: 0 <= k < IdLength ==> n[|b| + k] == zid[k];
    assert n[|b| + IdLength] == '.';
    if 0 <= p && p + IdLength < |b| {
      assert n[p..p + IdLength] == name[p..p + IdLength];
      assert n[p + IdLength] == name[p + IdLength];
      assert p > 0 ==> n[p - 1] == name[p - 1];
      assert StandaloneIdAt(n, p) <==> StandaloneIdAt(name, p);
    } else if p == |b| && b != [] {
      assert n[p - 1] == b[|b| - 1];
    }
    if p == |b| && (b == [] || !IsDigit(b[|b| - 1])) {
      assert n[p..p + IdLength] == zid;
      assert b != [] ==> n[p - 1] == b[|b| - 1];
    }
  }

  /**
   * The renamed file is found again by `get_id`, with the new id, exactly
   * when its base name is empty or does not end in a digit; after a digit
   * the id merges into a longer run and the new name still holds no id.
   */
  lemma AddIdFindsNewId(path: FilePath, zid: string)
    requires GetId(path.name) == "none" && |zid| == IdLength && AllDigits(zid)
    ensures var b := BaseName(path.name);
            var id := GetId(AddId(path, zid).value.name);
            (b == [] || !IsDigit(b[|b| - 1]) ==> id == zid)
            && (b != [] && IsDigit(b[|b| - 1]) ==> id == "none")
  {
    var b := BaseName(path.name);
    var n := b + zid + ".md";
    forall p
      ensures StandaloneIdAt(n, p) <==> p == |b| && (b == [] || !IsDigit(b[|b| - 1]))
    {
      AppendedIdAt(path.name, b, zid, p);
    }
    if b == [] || !IsDigit(b[|b| - 1]) {
      assert StandaloneIdAt(n, |b|);
      assert n[|b|..|b| + IdLength] == zid;
      assert GetId(n) != "none";
      assert GetId(n) != "many";
    }
  }
}
