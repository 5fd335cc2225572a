/**
 * The note-identity patterns of the program: a note id is a run of fourteen
 * ASCII digits. Each `findall` below scans left to right and resumes after
 * a match, as Python's `re.findall` does.
 */
module Ids {
  import opened Text

  const IdLength: nat := 14
  /** Length of a link token `[[` + id + `]]`. */
  const TokenLength: nat := 18

  /** `(?<![0-9])[0-9]{14}(?![0-9])` matches at `p`: fourteen digits with no digit on either side. */
  predicate StandaloneIdAt(s: string, p: int)
  {
    0 <= p && p + IdLength <= |s| && AllDigits(s[p..p + IdLength])
    && (p == 0 || !IsDigit(s[p - 1]))
    && (p + IdLength == |s| || !IsDigit(s[p + IdLength]))
  }

  /** The start positions `findall` reports for the standalone-id pattern, from position `p` on. */
  function IdPositionsFrom(s: string, p: nat): (r: seq<nat>)
    requires p <= |s|
    ensures forall q :: q in r <==> p <= q && StandaloneIdAt(s, q)
    ensures forall i, j :: 0 <= i < j < |r| ==> r[i] < r[j]
    ensures forall i :: 0 <= i < |r| ==> r[i] + IdLength <= |s|
    ensures r != [] <==> exists q :: p <= q && StandaloneIdAt(s, q)
    decreases |s| - p
  {
    if p == |s| then []
    else if StandaloneIdAt(s, p) then
      var rest := IdPositionsFrom(s, p + IdLength);
      assert forall q :: p < q < p + IdLength ==> !StandaloneIdAt(s, q) by {
        forall q | p < q < p + IdLength
          ensures !StandaloneIdAt(s, q)
        {
          assert s[p..p + IdLength][q - 1 - p] == s[q - 1];
        }
      }
      forall i | 0 <= i < |rest|
        ensures p < rest[i]
      {
        assert rest[i] in rest;
      }
      [p] + rest
    else IdPositionsFrom(s, p + 1)
  }

  function IdPositions(s: string): (r: seq<nat>)
    ensures forall q :: q in r <==> StandaloneIdAt(s, q)
    ensures forall i, j :: 0 <= i < j < |r| ==> r[i] < r[j]
    ensures forall i :: 0 <= i < |r| ==> r[i] + IdLength <= |s|
    ensures r != [] <==> exists q :: StandaloneIdAt(s, q)
  {
    IdPositionsFrom(s, 0)
  }

  /** `id_regex.findall(s)` with the standalone-id pattern. */
  function IdRuns(s: string): (r: seq<string>)
  {
    var P := IdPositions(s);
    seq(|P|, k requires 0 <= k < |P| => s[P[k]..P[k] + IdLength])
  }

  /** Every reported run is a standalone run of fourteen digits, and every standalone run is reported, in order. */
  lemma IdRunsExact(s: string)
    ensures |IdRuns(s)| == |IdPositions(s)|
    ensures forall k :: 0 <= k < |IdRuns(s)| ==>
              StandaloneIdAt(s, IdPositions(s)[k]) && IdRuns(s)[k] == s[IdPositions(s)[k]..IdPositions(s)[k] + IdLength]
    ensures forall p :: StandaloneIdAt(s, p) ==> s[p..p + IdLength] in IdRuns(s)
  {
    var P := IdPositions(s);
    forall p | StandaloneIdAt(s, p)
      ensures s[p..p + IdLength] in IdRuns(s)
    {
      var k :| 0 <= k < |P| && P[k] == p;
      assert IdRuns(s)[k] == s[p..p + IdLength];
    }
  }

  /** A digit run of any length other than fourteen holds no id: no standalone match inside an all-digit string of another length. */
  lemma {:induction false} NoIdInLongRun(s: string)
    requires AllDigits(s) && |s| != IdLength
    ensures IdRuns(s) == []
  {
    forall p | 0 <= p
      ensures !StandaloneIdAt(s, p)
    {
      if 0 < p < |s| {
        assert IsDigit(s[p - 1]);
      } else if p + IdLength < |s| {
        assert IsDigit(s[p + IdLength]);
      }
    }
  }

  /** `[0-9]{14}` (no guard) matches at `p`. */
  predicate PlainIdAt(s: string, p: int)
  {
    0 <= p && p + IdLength <= |s| && AllDigits(s[p..p + IdLength])
  }

  /** `findall` of `[0-9]{14}` from position `p`: non-overlapping, leftmost first. */
  function PlainIdsFrom(s: string, p: nat): (r: seq<string>)
    requires p <= |s|
    ensures forall k :: 0 <= k < |r| ==> |r[k]| == IdLength && AllDigits(r[k])
    ensures r != [] <==> exists q :: p <= q && PlainIdAt(s, q)
    decreases |s| - p
  {
    if p == |s| then []
    else if PlainIdAt(s, p) then [s[p..p + IdLength]] + PlainIdsFrom(s, p + IdLength)
    else
      var rest := PlainIdsFrom(s, p + 1);
      assert forall q :: p <= q && PlainIdAt(s, q) ==> p + 1 <= q;
      rest
  }

  /** `findall` of the plain 14-digit pattern on `s`. */
  function PlainIds(s: string): (r: seq<string>)
  {
    PlainIdsFrom(s, 0)
  }

  /** The first plain match is the leftmost position where fourteen digits start. */
  lemma {:induction false} FirstPlainId(s: string, p: nat, q: nat)
    requires p <= q && PlainIdAt(s, q)
    requires forall j :: p <= j < q ==> !PlainIdAt(s, j)
    ensures PlainIdsFrom(s, p) != [] && PlainIdsFrom(s, p)[0] == s[q..q + IdLength]
    decreases q - p
  {
    if p < q {
      FirstPlainId(s, p + 1, q);
    }
  }

  /** A fourteen-digit run with no digit right before it is always reported, whatever follows it. */
  lemma {:induction false} PlainIdFound(s: string, p: nat, q: nat)
    requires p <= q && PlainIdAt(s, q) && (q == 0 || !IsDigit(s[q - 1]))
    ensures s[q..q + IdLength] in PlainIdsFrom(s, p)
    decreases q - p
  {
    if p < q {
      if PlainIdAt(s, p) {
        forall k | p <= k < p + IdLength
          ensures IsDigit(s[k])
        {
          assert s[p..p + IdLength][k - p] == s[k];
        }
        PlainIdFound(s, p + IdLength, q);
      } else {
        PlainIdFound(s, p + 1, q);
      }
    }
  }

  /** Non-overlap: a run of `n` digits yields exactly `n / 14` plain matches. */
  lemma {:induction false} PlainIdsOfDigits(s: string, p: nat)
    requires p <= |s| && AllDigits(s)
    ensures |PlainIdsFrom(s, p)| == (|s| - p) / IdLength
    decreases |s| - p
  {
    if p < |s| {
      if PlainIdAt(s, p) {
        PlainIdsOfDigits(s, p + IdLength);
      } else {
        assert p + IdLength > |s|;
        PlainIdsOfDigits(s, p + 1);
      }
    }
  }

  /** `\[\[[0-9]{14}\]\]` matches at `p`. */
  predicate TokenAt(s: string, p: int)
  {
    0 <= p && p + TokenLength <= |s|
    && s[p] == '[' && s[p + 1] == '['
    && AllDigits(s[p + 2..p + 16])
    && s[p + 16] == ']' && s[p + 17] == ']'
  }

  /** A whole link token: `[[`, fourteen digits, `]]`. */
  predicate IsToken(t: string)
  {
    |t| == TokenLength && TokenAt(t, 0)
  }

  /** Two link tokens never overlap. */
  lemma TokensApart(s: string, p: int, q: int)
    requires TokenAt(s, p) && TokenAt(s, q) && p < q
    ensures p + TokenLength <= q
  {
  }

  /** Every link token at or after `p` is reported. */
  lemma {:induction false} TokenFound(s: string, p: nat, q: nat)
    requires p <= q && TokenAt(s, q)
    ensures s[q..q + TokenLength] in LinkTokensFrom(s, p)
    ensures s[q + 2..q + 16] in LinkIdsFrom(s, p)
    decreases q - p
  {
    if p < q {
      if TokenAt(s, p) {
        TokensApart(s, p, q);
        if p + TokenLength < q {
          TokenFound(s, p + TokenLength, q);
        } else {
          TokenFound(s, p + TokenLength, q);
        }
      } else {
        TokenFound(s, p + 1, q);
      }
    }
  }

  lemma TokenMiddle(s: string, p: nat)
    requires p + TokenLength <= |s|
    ensures s[p..p + TokenLength][2..16] == s[p + 2..p + 16]
  {
    var a := s[p..p + TokenLength][2..16];
    assert forall k :: 0 <= k < IdLength ==> a[k] == s[p + 2 + k];
  }

  /** `id_link_regex_no_group.findall` from position `p`: the whole link tokens, in order, repeats included. */
  function LinkTokensFrom(s: string, p: nat): (r: seq<string>)
    requires p <= |s|
    ensures forall k :: 0 <= k < |r| ==> IsToken(r[k])
    decreases |s| - p
  {
    if p == |s| then []
    else if TokenAt(s, p) then
      assert TokenAt(s[p..p + TokenLength], 0) by {
        TokenMiddle(s, p);
      }
      [s[p..p + TokenLength]] + LinkTokensFrom(s, p + TokenLength)
    else LinkTokensFrom(s, p + 1)
  }

  /** `id_link_regex.findall` from position `p`: the id inside each link token. */
  function LinkIdsFrom(s: string, p: nat): (r: seq<string>)
    requires p <= |s|
    ensures forall k :: 0 <= k < |r| ==> |r[k]| == IdLength && AllDigits(r[k])
    decreases |s| - p
  {
    if p == |s| then []
    else if TokenAt(s, p) then [s[p + 2..p + 16]] + LinkIdsFrom(s, p + TokenLength)
    else LinkIdsFrom(s, p + 1)
  }

  function LinkTokens(s: string): seq<string>
  {
    LinkTokensFrom(s, 0)
  }

  function LinkIds(s: string): seq<string>
  {
    LinkIdsFrom(s, 0)
  }

  /** The grouped and the group-less link patterns find the same matches: each id is the middle of its token. */
  lemma {:induction false} LinkIdsOfTokens(s: string, p: nat)
    requires p <= |s|
    ensures |LinkIdsFrom(s, p)| == |LinkTokensFrom(s, p)|
    ensures forall k :: 0 <= k < |LinkTokensFrom(s, p)| ==> LinkIdsFrom(s, p)[k] == LinkTokensFrom(s, p)[k][2..16]
    decreases |s| - p
  {
    if p < |s| {
      if TokenAt(s, p) {
        LinkIdsOfTokens(s, p + TokenLength);
        TokenMiddle(s, p);
      } else {
        LinkIdsOfTokens(s, p + 1);
      }
    }
  }

  /** A string with no `[[` has no link token. */
  lemma {:induction false} NoTokensWithoutBrackets(s: string, p: nat)
    requires p <= |s|
    requires forall q :: p <= q < |s| - 1 ==> !(s[q] == '[' && s[q + 1] == '[')
    ensures LinkTokensFrom(s, p) == [] && LinkIdsFrom(s, p) == []
    decreases |s| - p
  {
    if p < |s| {
      NoTokensWithoutBrackets(s, p + 1);
    }
  }

  /** `id_regex.sub("", s)`: every standalone id cut out of `s`, from position `p` on. */
  function RemoveIdsFrom(s: string, p: nat): (r: string)
    requires p <= |s|
    ensures |r| == |s| - p - IdLength * |IdPositionsFrom(s, p)|
    decreases |s| - p
  {
    if p == |s| then []
    else if StandaloneIdAt(s, p) then RemoveIdsFrom(s, p + IdLength)
    else [s[p]] + RemoveIdsFrom(s, p + 1)
  }

  /** `id_regex.sub("", s)`. */
  function RemoveIds(s: string): (r: string)
  {
    RemoveIdsFrom(s, 0)
  }

  /** Removing ids from a string that holds none is the identity. */
  lemma {:induction false} RemoveIdsNone(s: string, p: nat)
    requires p <= |s| && forall q :: p <= q ==> !StandaloneIdAt(s, q)
    ensures RemoveIdsFrom(s, p) == s[p..]
    decreases |s| - p
  {
    if p < |s| {
      RemoveIdsNone(s, p + 1);
      assert s[p..] == [s[p]] + s[p + 1..];
    }
  }
}
