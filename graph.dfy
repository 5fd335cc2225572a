/**
 * The directed note graph as a node set and an edge set, and the
 * breadth-first distance the program obtains from its graph library
 * (an unweighted shortest path counts edges).
 */
module Graph {
  import opened Wrappers

  type Edge = (string, string)

  /** Every edge joins two nodes of `N`. */
  predicate Closed(E: set<Edge>, N: set<string>)
  {
    forall e :: e in E ==> e.0 in N && e.1 in N
  }

  /** The predecessors of `n`. */
  function Preds(E: set<Edge>, n: string): (r: set<string>)
    ensures forall m :: m in r <==> (m, n) in E
  {
    set e | e in E && e.1 == n :: e.0
  }

  /** The edges leaving `S`. */
  function Out(E: set<Edge>, S: set<string>): set<Edge>
  {
    set e | e in E && e.0 in S
  }

  /** The targets of the edges `F`. */
  function Heads(F: set<Edge>): set<string>
  {
    set e | e in F :: e.1
  }

  /** The nodes one edge away from `S`. */
  function Post(E: set<Edge>, S: set<string>): set<string>
  {
    Heads(Out(E, S))
  }

  /** `m` is one edge away from `S` exactly when some edge leads from `S` to `m`. */
  lemma PostIff(E: set<Edge>, S: set<string>, m: string)
    ensures m in Post(E, S) <==> exists s :: s in S && (s, m) in E
  {
    if exists s :: s in S && (s, m) in E {
      var s :| s in S && (s, m) in E;
      assert (s, m) in Out(E, S);
    }
  }

  /**
   * The nodes reachable from `r` in at most `k` edges, breadth-first layer
   * `k`: the root, and the nodes one edge away from layer `k - 1`.
   */
  function Within(E: set<Edge>, r: string, k: nat): set<string>
  {
    if k == 0 then {r} else {r} + Post(E, Within(E, r, k - 1))
  }

  /** `w` is a walk: every two consecutive nodes are joined by an edge. */
  predicate IsWalk(E: set<Edge>, w: seq<string>)
  {
    |w| >= 1 && forall i :: 0 <= i < |w| - 1 ==> (w[i], w[i + 1]) in E
  }

  /** A walk from `r` to `n` with at most `k` edges. */
  predicate WalkWithin(E: set<Edge>, r: string, n: string, k: nat, w: seq<string>)
  {
    IsWalk(E, w) && w[0] == r && w[|w| - 1] == n && |w| <= k + 1
  }

  /** Layer `k` holds exactly the nodes at the end of a walk from `r` of at most `k` edges. */
  lemma {:induction false} WithinWalk(E: set<Edge>, r: string, k: nat, n: string)
    ensures n in Within(E, r, k) <==> exists w :: WalkWithin(E, r, n, k, w)
  {
    if n in Within(E, r, k) {
      if n == r {
        assert WalkWithin(E, r, n, k, [r]);
      } else {
        PostIff(E, Within(E, r, k - 1), n);
        var m :| m in Within(E, r, k - 1) && (m, n) in E;
        WithinWalk(E, r, k - 1, m);
        var w :| WalkWithin(E, r, m, k - 1, w);
        assert WalkWithin(E, r, n, k, w + [n]);
      }
    }
    if exists w :: WalkWithin(E, r, n, k, w) {
      var w :| WalkWithin(E, r, n, k, w);
      WalkInWithin(E, r, k, n, w);
    }
  }

  lemma {:induction false} WalkInWithin(E: set<Edge>, r: string, k: nat, n: string, w: seq<string>)
    requires WalkWithin(E, r, n, k, w)
    ensures n in Within(E, r, k)
    decreases k
  {
    if |w| == 1 {
      assert n == r;
    } else {
      var v := w[..|w| - 1];
      assert WalkWithin(E, r, v[|v| - 1], k - 1, v);
      WalkInWithin(E, r, k - 1, v[|v| - 1], v);
      assert (v[|v| - 1], n) in E;
      PostIff(E, Within(E, r, k - 1), n);
    }
  }

  /** More sources reach more nodes in one edge. */
  lemma PostMono(E: set<Edge>, A: set<string>, B: set<string>)
    requires A <= B
    ensures Post(E, A) <= Post(E, B)
  {
    forall m | m in Post(E, A)
      ensures m in Post(E, B)
    {
      PostIff(E, A, m);
      PostIff(E, B, m);
    }
  }

  /** Each layer holds the one before it. */
  lemma {:induction false} Grow(E: set<Edge>, r: string, k: nat)
    ensures Within(E, r, k) <= Within(E, r, k + 1)
  {
    if k > 0 {
      Grow(E, r, k - 1);
      PostMono(E, Within(E, r, k - 1), Within(E, r, k));
    }
  }

  /** The layers grow. */
  lemma {:induction false} Monotone(E: set<Edge>, r: string, j: nat, k: nat)
    requires j <= k
    ensures Within(E, r, j) <= Within(E, r, k)
    decreases k - j
  {
    if j < k {
      Monotone(E, r, j, k - 1);
      Grow(E, r, k - 1);
    }
  }

  /** In a closed graph the layers stay inside the node set. */
  lemma {:induction false} WithinNodes(E: set<Edge>, N: set<string>, r: string, k: nat)
    requires Closed(E, N) && r in N
    ensures Within(E, r, k) <= N
  {
    if k > 0 {
      WithinNodes(E, N, r, k - 1);
    }
  }

  lemma Shrink<T>(A: set<T>, B: set<T>)
    requires A <= B
    ensures |A| <= |B|
  {
    assert B == A + (B - A);
  }

  /** A sequence longer than the set holding its elements repeats one. */
  lemma {:induction false} Pigeon(w: seq<string>, N: set<string>)
    requires |w| > |N| && forall i :: 0 <= i < |w| ==> w[i] in N
    ensures exists i, j :: 0 <= i < j < |w| && w[i] == w[j]
  {
    var t := w[1..];
    if w[0] in t {
      var j :| 0 <= j < |t| && t[j] == w[0];
      assert w[0] == w[j + 1];
    } else {
      forall i | 0 <= i < |t|
        ensures t[i] in N - {w[0]}
      {
        assert t[i] == w[i + 1];
      }
      Pigeon(t, N - {w[0]});
      var i, j :| 0 <= i < j < |t| && t[i] == t[j];
      assert w[i + 1] == w[j + 1];
    }
  }

  /** A walk that comes back to a node can skip the loop in between. */
  lemma Shortcut(E: set<Edge>, w: seq<string>, i: nat, j: nat)
    requires IsWalk(E, w) && i < j < |w| && w[i] == w[j]
    ensures var v := w[..i] + w[j..];
            IsWalk(E, v) && v[0] == w[0] && v[|v| - 1] == w[|w| - 1] && |v| < |w|
  {
    var v := w[..i] + w[j..];
    forall t | 0 <= t < |v| - 1
      ensures (v[t], v[t + 1]) in E
    {
      if t + 1 < i {
        assert v[t] == w[t] && v[t + 1] == w[t + 1];
      } else if t + 1 == i {
        assert v[t] == w[t] && v[t + 1] == w[j];
      } else {
        assert v[t] == w[t - i + j] && v[t + 1] == w[t + 1 - i + j];
      }
    }
  }

  /** In a closed graph a walk from `r` to `n` can be cut down to at most `|N|` edges. */
  lemma {:induction false} ShortWalk(E: set<Edge>, N: set<string>, r: string, n: string, w: seq<string>)
    requires Closed(E, N) && r in N && IsWalk(E, w) && w[0] == r && w[|w| - 1] == n
    ensures exists v :: WalkWithin(E, r, n, |N|, v)
    decreases |w|
  {
    if |w| <= |N| + 1 {
      assert WalkWithin(E, r, n, |N|, w);
    } else {
      forall i | 0 <= i < |w|
        ensures w[i] in N
      {
        if i > 0 {
          assert (w[i - 1], w[i]) in E;
        }
      }
      Pigeon(w, N);
      var i, j :| 0 <= i < j < |w| && w[i] == w[j];
      Shortcut(E, w, i, j);
      ShortWalk(E, N, r, n, w[..i] + w[j..]);
    }
  }

  /** `n` is in no layer: no walk from `r` reaches it. */
  ghost predicate Unreached(E: set<Edge>, r: string, n: string)
  {
    forall j :: n !in Within(E, r, j)
  }

  /** The first layer holding `n`. */
  predicate FirstLayer(E: set<Edge>, r: string, n: string, d: nat)
  {
    n in Within(E, r, d) && (d == 0 || n !in Within(E, r, d - 1))
  }

  /**
   * Breadth-first search for `n` from layer `k` up to layer `|N|`, given
   * that no earlier layer holds it: the first layer holding `n`, or `None`
   * when layer `|N|`, and so every earlier one, does not hold it.
   */
  function BfsFrom(E: set<Edge>, N: set<string>, r: string, n: string, k: nat): Option<nat>
    decreases |N| - k
  {
    if n in Within(E, r, k) then Some(k)
    else if k >= |N| then None
    else BfsFrom(E, N, r, n, k + 1)
  }

  /** The search finds the first layer holding `n`, given that no layer before `k` holds it, or reports that layer `|N|` does not. */
  lemma {:induction false} BfsFromSpec(E: set<Edge>, N: set<string>, r: string, n: string, k: nat)
    requires k == 0 || n !in Within(E, r, k - 1)
    ensures BfsFrom(E, N, r, n, k).Some? ==> FirstLayer(E, r, n, BfsFrom(E, N, r, n, k).value)
    ensures BfsFrom(E, N, r, n, k).None? ==> n !in Within(E, r, |N|)
    decreases |N| - k
  {
    if n in Within(E, r, k) {
      assert BfsFrom(E, N, r, n, k) == Some(k);
    } else if k >= |N| {
      assert BfsFrom(E, N, r, n, k) == None;
      Monotone(E, r, |N|, k);
    } else {
      assert BfsFrom(E, N, r, n, k) == BfsFrom(E, N, r, n, k + 1);
      BfsFromSpec(E, N, r, n, k + 1);
    }
  }

  /** The distance from `r` to `n`, when `n` is reachable. */
  function Dist(E: set<Edge>, N: set<string>, r: string, n: string): Option<nat>
    requires Closed(E, N) && r in N
  {
    BfsFrom(E, N, r, n, 0)
  }

  /** With no distance, `n` is in no layer at all. */
  lemma DistNone(E: set<Edge>, N: set<string>, r: string, n: string)
    requires Closed(E, N) && r in N && Dist(E, N, r, n).None?
    ensures Unreached(E, r, n)
  {
    BfsFromSpec(E, N, r, n, 0);
    forall j: nat
      ensures n !in Within(E, r, j)
    {
      if n in Within(E, r, j) {
        WithinWalk(E, r, j, n);
        var w :| WalkWithin(E, r, n, j, w);
        ShortWalk(E, N, r, n, w);
        var v :| WalkWithin(E, r, n, |N|, v);
        WalkInWithin(E, r, |N|, n, v);
      }
    }
  }

  /** A node first met in layer `d` ends a walk of `d` edges from `r` and no shorter one. */
  lemma FirstLayerShortest(E: set<Edge>, r: string, n: string, d: nat)
    requires FirstLayer(E, r, n, d)
    ensures exists w :: WalkWithin(E, r, n, d, w)
    ensures forall w :: IsWalk(E, w) && w[0] == r && w[|w| - 1] == n ==> |w| >= d + 1
  {
    WithinWalk(E, r, d, n);
    forall w | IsWalk(E, w) && w[0] == r && w[|w| - 1] == n
      ensures |w| >= d + 1
    {
      if |w| < d + 1 {
        WalkInWithin(E, r, |w| - 1, n, w);
        Monotone(E, r, |w| - 1, d - 1);
      }
    }
  }

  /** A node in no layer ends no walk from `r`. */
  lemma NeverNoWalk(E: set<Edge>, r: string, n: string)
    requires Unreached(E, r, n)
    ensures forall w :: IsWalk(E, w) && w[0] == r ==> w[|w| - 1] != n
  {
    forall w | IsWalk(E, w) && w[0] == r
      ensures w[|w| - 1] != n
    {
      WalkInWithin(E, r, |w| - 1, w[|w| - 1], w);
    }
  }

  /**
   * The distance is the length of a shortest walk: there is a walk of that
   * many edges and none shorter; no distance means no walk at all.
   */
  lemma DistShortest(E: set<Edge>, N: set<string>, r: string, n: string)
    requires Closed(E, N) && r in N
    ensures Dist(E, N, r, n).Some? ==>
              var d := Dist(E, N, r, n).value;
              (exists w :: WalkWithin(E, r, n, d, w))
              && forall w :: IsWalk(E, w) && w[0] == r && w[|w| - 1] == n ==> |w| >= d + 1
    ensures Dist(E, N, r, n).None? ==> forall w :: IsWalk(E, w) && w[0] == r ==> w[|w| - 1] != n
  {
    BfsFromSpec(E, N, r, n, 0);
    if Dist(E, N, r, n).Some? {
      FirstLayerShortest(E, r, n, Dist(E, N, r, n).value);
    } else {
      DistNone(E, N, r, n);
      NeverNoWalk(E, r, n);
    }
  }

  /** `_get_depth`: the distance from the root, with 0 for an unreachable node. */
  function Depth(E: set<Edge>, N: set<string>, r: string, n: string): nat
    requires Closed(E, N) && r in N
  {
    match Dist(E, N, r, n)
    case Some(d) => d
    case None => 0
  }

  /** The root is at depth 0, and so is every node it cannot reach. */
  lemma DepthZero(E: set<Edge>, N: set<string>, r: string, n: string)
    requires Closed(E, N) && r in N
    ensures Depth(E, N, r, r) == 0
    ensures Dist(E, N, r, n).None? ==> Depth(E, N, r, n) == 0
    ensures Depth(E, N, r, n) == 0 ==> n == r || Dist(E, N, r, n).None?
  {
    BfsFromSpec(E, N, r, n, 0);
  }

  /** Depth 1 means a direct edge from the root to a node other than the root. */
  lemma DepthOne(E: set<Edge>, N: set<string>, r: string, n: string)
    requires Closed(E, N) && r in N
    ensures Depth(E, N, r, n) == 1 <==> n != r && (r, n) in E
  {
    BfsFromSpec(E, N, r, n, 0);
    assert Within(E, r, 1) == {r} + Post(E, {r});
    PostIff(E, {r}, n);
    if n != r && (r, n) in E {
      assert n in Within(E, r, 1);
      if Dist(E, N, r, n).None? {
        DistNone(E, N, r, n);
      }
      var d := Dist(E, N, r, n).value;
      if d >= 2 {
        Monotone(E, r, 1, d - 1);
      }
    }
  }
}
