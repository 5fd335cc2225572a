/**
 * The note collection (zettelkasten.py): a table from note id to note, kept
 * in insertion order, and the directed link graph over note ids and link
 * targets. Link targets that name no stored note are nodes all the same.
 */
module Kasten {
  import opened Wrappers
  import opened Text
  import opened Ids
  import opened Paths
  import opened Graph
  import opened Notes
  import opened Lists

  /** The collection's state as a value: the id order of the table, the table, and the graph. */
  datatype KState = KState(order: seq<string>, notes: map<string, Note>, nodes: set<string>, edges: set<Edge>)

  /** The edges one note contributes: one from its id to each link. */
  function LinkEdges(x: Note): set<Edge>
  {
    set l | l in x.links :: (x.nid, l)
  }

  /** The nodes one note contributes: its link targets. */
  function LinkTargets(x: Note): set<string>
  {
    set l | l in x.links
  }

  /** The nodes some edge points to. */
  function Targets(E: set<Edge>): set<string>
  {
    set e | e in E :: e.1
  }

  /**
   * What the collection maintains: the order lists each stored id once;
   * every note is stored under its own id; every stored id is a node; every
   * edge joins nodes; every link of a stored note is an edge; and a node
   * that is not a stored note is the target of some edge.
   */
  ghost predicate ValidState(st: KState)
  {
    Distinct(st.order)
    && (forall n :: n in st.notes <==> n in st.order)
    && (forall n :: n in st.notes ==> st.notes[n].nid == n)
    && st.notes.Keys <= st.nodes
    && Closed(st.edges, st.nodes)
    && (forall n, l :: n in st.notes && l in st.notes[n].links ==> (n, l) in st.edges)
    && st.nodes <= st.notes.Keys + Targets(st.edges)
  }

  /** One iteration of `add_notes`: store the note under its id (a dict keeps the first insertion position), add its node and an edge to each link. */
  function AddNoteSpec(st: KState, x: Note): KState
  {
    KState(if x.nid in st.order then st.order else st.order + [x.nid],
           st.notes[x.nid := x],
           st.nodes + {x.nid} + LinkTargets(x),
           st.edges + LinkEdges(x))
  }

  /** `add_notes` on the first `k` notes of `ns`. */
  function AddAllSpec(st: KState, ns: seq<Note>, k: nat): KState
    requires k <= |ns|
  {
    if k == 0 then st else AddNoteSpec(AddAllSpec(st, ns, k - 1), ns[k - 1])
  }

  /** Adding a note keeps the collection's invariant. */
  lemma AddNoteValid(st: KState, x: Note)
    requires ValidState(st)
    ensures ValidState(AddNoteSpec(st, x))
  {
    var st' := AddNoteSpec(st, x);
    if x.nid !in st.order {
      DistinctAppend(st.order, x.nid);
    }
    forall n | n in st'.nodes && n !in st'.notes
      ensures n in Targets(st'.edges)
    {
      if n !in st.nodes {
        assert n in LinkTargets(x);
        assert (x.nid, n) in LinkEdges(x);
      } else {
        assert n in Targets(st.edges);
        var e :| e in st.edges && e.1 == n;
      }
    }
    forall n, l | n in st'.notes && l in st'.notes[n].links
      ensures (n, l) in st'.edges
    {
      if n == x.nid {
        assert (x.nid, l) in LinkEdges(x);
      }
    }
    forall e | e in st'.edges
      ensures e.0 in st'.nodes && e.1 in st'.nodes
    {
      if e in LinkEdges(x) {
        var l :| l in x.links && e == (x.nid, l);
        assert l in LinkTargets(x);
      }
    }
  }

  /** Adding several notes keeps it too. */
  lemma AddAllValid(st: KState, ns: seq<Note>, k: nat)
    requires k <= |ns| && ValidState(st)
    ensures ValidState(AddAllSpec(st, ns, k))
  {
    forall s: KState, x: Note | ValidState(s)
      ensures ValidState(AddNoteSpec(s, x))
    {
      AddNoteValid(s, x);
    }
    AddAllKeepsInv(s => ValidState(s), st, ns, k);
  }

  /** Any property that one added note preserves holds after adding several. */
  lemma {:induction false} AddAllKeepsInv(inv: KState -> bool, st: KState, ns: seq<Note>, k: nat)
    requires k <= |ns| && inv(st)
    requires forall s: KState, x: Note {:trigger AddNoteSpec(s, x)} :: inv(s) ==> inv(AddNoteSpec(s, x))
    ensures inv(AddAllSpec(st, ns, k))
  {
    if k > 0 {
      AddAllKeepsInv(inv, st, ns, k - 1);
      assert AddAllSpec(st, ns, k) == AddNoteSpec(AddAllSpec(st, ns, k - 1), ns[k - 1]);
    }
  }

  /**
   * After `add_notes`: each added note's id is a node and a stored key, and
   * nothing is ever removed from the graph.
   */
  lemma {:induction false} AddAllGrows(st: KState, ns: seq<Note>, k: nat)
    requires k <= |ns|
    ensures var st' := AddAllSpec(st, ns, k);
            (forall i :: 0 <= i < k ==> ns[i].nid in st'.nodes && ns[i].nid in st'.notes)
            && st.notes.Keys <= st'.notes.Keys && st.nodes <= st'.nodes && st.edges <= st'.edges
  {
    if k > 0 {
      AddAllGrows(st, ns, k - 1);
    }
  }

  /** Each added note has an edge to every one of its links, whether or not the link names a stored note. */
  lemma {:induction false} AddAllLinks(st: KState, ns: seq<Note>, k: nat)
    requires k <= |ns|
    ensures forall i, l :: 0 <= i < k && l in ns[i].links ==>
              l in AddAllSpec(st, ns, k).nodes && (ns[i].nid, l) in AddAllSpec(st, ns, k).edges
  {
    if k > 0 {
      AddAllLinks(st, ns, k - 1);
      var x := ns[k - 1];
      forall i, l | 0 <= i < k && l in ns[i].links
        ensures l in AddAllSpec(st, ns, k).nodes && (ns[i].nid, l) in AddAllSpec(st, ns, k).edges
      {
        if i == k - 1 {
          assert l in LinkTargets(x);
          assert (x.nid, l) in LinkEdges(x);
        }
      }
    }
  }

  /** The note stored under an id is the last one added with that id. */
  lemma {:induction false} AddAllLast(st: KState, ns: seq<Note>, k: nat, i: nat)
    requires i < k <= |ns| && forall j :: i < j < k ==> ns[j].nid != ns[i].nid
    ensures var st' := AddAllSpec(st, ns, k);
            ns[i].nid in st'.notes && st'.notes[ns[i].nid] == ns[i]
  {
    if k > i + 1 {
      AddAllLast(st, ns, k - 1, i);
    }
  }

  /** An id that none of the added notes has keeps its note. */
  lemma {:induction false} AddAllKeeps(st: KState, ns: seq<Note>, k: nat, n: string)
    requires k <= |ns| && n in st.notes && forall i :: 0 <= i < k ==> ns[i].nid != n
    ensures var st' := AddAllSpec(st, ns, k);
            n in st'.notes && st'.notes[n] == st.notes[n]
  {
    if k > 0 {
      AddAllKeeps(st, ns, k - 1, n);
    }
  }

  /** The insertion order only grows at its end. */
  lemma {:induction false} AddAllOrderPrefix(st: KState, ns: seq<Note>, k: nat)
    requires k <= |ns|
    ensures var o := AddAllSpec(st, ns, k).order;
            |st.order| <= |o| && o[..|st.order|] == st.order
  {
    if k > 0 {
      AddAllOrderPrefix(st, ns, k - 1);
      var o := AddAllSpec(st, ns, k - 1).order;
      assert (o + [ns[k - 1].nid])[..|st.order|] == o[..|st.order|];
    }
  }

  /** An id is in the insertion order exactly when it was there before or one of the added notes has it. */
  lemma {:induction false} AddAllOrder(st: KState, ns: seq<Note>, k: nat, n: string)
    requires k <= |ns|
    ensures n in AddAllSpec(st, ns, k).order <==> n in st.order || exists i :: 0 <= i < k && ns[i].nid == n
  {
    if k > 0 {
      AddAllOrder(st, ns, k - 1, n);
      if n == ns[k - 1].nid {
        assert n in AddAllSpec(st, ns, k).order;
      } else {
        assert n in AddAllSpec(st, ns, k).order <==> n in AddAllSpec(st, ns, k - 1).order;
      }
    }
  }

  /** `_get_root`: the least node in Python's string order, dangling link targets included; `min` of an empty graph raises. */
  function Root(st: KState): (r: Result<string>)
    ensures r.Ok? <==> st.nodes != {}
    ensures r.Err? ==> r.error == EmptySequence
    ensures r.Ok? ==> IsLeast(r.value, st.nodes)
  {
    if st.nodes == {} then Err(EmptySequence) else Ok(Least(st.nodes))
  }

  /**
   * `get_depth`: the length of a shortest path from the root; 0 for the root
   * and for every node the root does not reach, ids that are no node
   * included. Only an empty graph fails, at `min`.
   */
  function GetDepth(st: KState, nid: string): (r: Result<nat>)
    requires Closed(st.edges, st.nodes)
    ensures r.Ok? <==> st.nodes != {}
    ensures r.Err? ==> r.error == EmptySequence
    ensures r.Ok? ==> var root := Root(st).value;
              (r.value == 0 <==> nid == root || Dist(st.edges, st.nodes, root, nid).None?)
              && (r.value > 0 ==> Dist(st.edges, st.nodes, root, nid) == Some(r.value))
  {
    match Root(st)
    case Err(e) => Err(e)
    case Ok(root) =>
      DepthZero(st.edges, st.nodes, root, nid);
      Ok(Depth(st.edges, st.nodes, root, nid))
  }

  /** `get_backlinks`: the nodes with an edge into `nid`; asking about an id that is no node raises. */
  function Backlinks(st: KState, nid: string): (r: Result<set<string>>)
    ensures r.Err? <==> nid !in st.nodes
    ensures r.Err? ==> r.error == NodeNotFound(nid)
    ensures r.Ok? ==> forall m :: m in r.value <==> (m, nid) in st.edges
  {
    if nid !in st.nodes then Err(NodeNotFound(nid)) else Ok(Preds(st.edges, nid))
  }

  /** Every stored note that links to an id is among that id's backlinks. */
  lemma BacklinksOfLinks(st: KState, n: string, nid: string)
    requires ValidState(st) && n in st.notes && nid in st.notes[n].links
    ensures Backlinks(st, nid).Ok? && n in Backlinks(st, nid).value
  {
    assert (n, nid) in st.edges;
  }

  /** `_get_orphans`: the nodes without predecessors. */
  function OrphanNodes(st: KState): (r: set<string>)
    ensures forall n :: n in r <==> n in st.nodes && forall m :: (m, n) !in st.edges
  {
    set n | n in st.nodes && Preds(st.edges, n) == {}
  }

  /**
   * `get_orphans`: the notes stored under the orphan nodes other than the
   * root. An orphan that names no stored note would fail the table lookup.
   */
  function Orphans(st: KState): (r: Result<set<Note>>)
    ensures r.Err? ==> r.error.KeyError? && r.error.key in OrphanNodes(st) && r.error.key !in st.notes
                       && Root(st) != Ok(r.error.key)
    ensures r.Ok? ==> forall x :: x in r.value <==>
              exists n :: n in OrphanNodes(st) && Root(st) != Ok(n) && n in st.notes && st.notes[n] == x
  {
    var O := OrphanNodes(st);
    if O == {} then Ok({})
    else
      var C := O - {Least(st.nodes)};
      var missing := C - st.notes.Keys;
      if missing != {} then Err(KeyError(Least(missing)))
      else Ok(set n | n in C :: st.notes[n])
  }

  /** In a collection built by `add_notes` every orphan is a stored note, so `get_orphans` succeeds: a node that is no note is some link's target. */
  lemma OrphansStored(st: KState)
    requires ValidState(st)
    ensures Orphans(st).Ok?
    ensures forall n :: n in st.notes ==>
              (st.notes[n] in Orphans(st).value <==> (forall m :: (m, n) !in st.edges) && Root(st) != Ok(n))
  {
    var O := OrphanNodes(st);
    assert forall n :: n in O ==> n in st.notes;
    if O != {} {
      var C := O - {Least(st.nodes)};
      assert C - st.notes.Keys == {};
    }
    forall n | n in st.notes
      ensures st.notes[n] in Orphans(st).value <==> (forall m :: (m, n) !in st.edges) && Root(st) != Ok(n)
    {
      if st.notes[n] in Orphans(st).value {
        var n' :| n' in O && Root(st) != Ok(n') && n' in st.notes && st.notes[n'] == st.notes[n];
        assert n' == st.notes[n'].nid == n;
      }
    }
  }

  /** `_nids2notes`: the notes stored under the given ids; ids without a stored note are skipped. */
  function NotesOf(st: KState, nids: set<string>): (r: set<Note>)
    ensures forall x :: x in r <==> exists n :: n in nids && n in st.notes && st.notes[n] == x
  {
    set n | n in nids && n in st.notes :: st.notes[n]
  }

  /** `_get_notes_by_depth` below `root`: the graph's nodes grouped by their depth; every group is non-empty and every node is in the group of its depth. */
  function DepthGroups(st: KState, root: string): (r: map<nat, set<string>>)
    requires Closed(st.edges, st.nodes) && root in st.nodes
    ensures forall n :: n in st.nodes ==> Depth(st.edges, st.nodes, root, n) in r && n in r[Depth(st.edges, st.nodes, root, n)]
    ensures forall d :: d in r ==> r[d] != {} && forall n :: n in r[d] ==> n in st.nodes && Depth(st.edges, st.nodes, root, n) == d
  {
    var E, N := st.edges, st.nodes;
    var D := set n | n in N :: Depth(E, N, root, n);
    var r := map d | d in D :: (set n | n in N && Depth(E, N, root, n) == d);
    forall d | d in r
      ensures r[d] != {}
    {
      var n :| n in N && Depth(E, N, root, n) == d;
      assert n in r[d];
    }
    r
  }

  /** The groups split the nodes: each node lies in exactly one group. */
  lemma DepthGroupsPartition(st: KState, root: string, n: string, d: nat)
    requires Closed(st.edges, st.nodes) && root in st.nodes
    requires n in st.nodes && d in DepthGroups(st, root) && n in DepthGroups(st, root)[d]
    ensures forall d' :: d' in DepthGroups(st, root) && n in DepthGroups(st, root)[d'] ==> d' == d
  {
  }

  /**
   * The groups of `get_notes_by_depth`/`get_nnotes_by_depth`: below the
   * given root, or below the graph's root when none is given (which fails
   * on an empty graph). A given root that is no node fails at the first
   * depth computed, so only when the graph is not empty.
   */
  function NodesByDepth(st: KState, root: Option<string>): (r: Result<map<nat, set<string>>>)
    requires Closed(st.edges, st.nodes)
    ensures root.None? ==> (r.Err? <==> st.nodes == {}) && (r.Err? ==> r.error == EmptySequence)
    ensures root.Some? ==> (r.Err? <==> st.nodes != {} && root.value !in st.nodes)
                           && (r.Err? ==> r.error == NodeNotFound(root.value))
    ensures root.Some? && st.nodes == {} ==> r == Ok(map[])
    ensures r.Ok? && st.nodes != {} ==>
              var rt := if root.Some? then root.value else Root(st).value;
              rt in st.nodes && r.value == DepthGroups(st, rt)
  {
    match root
    case None =>
      (match Root(st)
       case Err(e) => Err(e)
       case Ok(rt) => Ok(DepthGroups(st, rt)))
    case Some(rt) =>
      if st.nodes == {} then Ok(map[])
      else if rt !in st.nodes then Err(NodeNotFound(rt))
      else Ok(DepthGroups(st, rt))
  }

  /** `get_notes_by_depth`: each depth group as the notes stored under its ids. */
  function NotesByDepth(st: KState, root: Option<string>): Result<map<nat, set<Note>>>
    requires Closed(st.edges, st.nodes)
  {
    match NodesByDepth(st, root)
    case Err(e) => Err(e)
    case Ok(g) => Ok(map d | d in g :: NotesOf(st, g[d]))
  }

  /** `get_nnotes_by_depth`: the size of each depth group, which counts the dangling link targets too. */
  function NNotesByDepth(st: KState, root: Option<string>): Result<map<nat, nat>>
    requires Closed(st.edges, st.nodes)
  {
    match NodesByDepth(st, root)
    case Err(e) => Err(e)
    case Ok(g) => Ok(map d | d in g :: |g[d]|)
  }

  /**
   * Both by-depth views fail exactly when the groups do. Otherwise a depth
   * is listed when some node lies at it; its notes are the stored notes of
   * the nodes at that depth, and its count is the number of those nodes,
   * dangling link targets included.
   */
  lemma ByDepthViews(st: KState, root: Option<string>, d: nat)
    requires Closed(st.edges, st.nodes)
    ensures NotesByDepth(st, root).Err? <==> NodesByDepth(st, root).Err?
    ensures NNotesByDepth(st, root).Err? <==> NodesByDepth(st, root).Err?
    ensures NotesByDepth(st, root).Ok? && st.nodes != {} ==>
              var rt := if root.Some? then root.value else Root(st).value;
              var g, c := NotesByDepth(st, root).value, NNotesByDepth(st, root).value;
              (d in g <==> exists n :: n in st.nodes && Depth(st.edges, st.nodes, rt, n) == d)
              && (d in c <==> d in g)
              && (d in g ==> (forall x :: x in g[d] <==> exists n :: n in st.nodes && n in st.notes && st.notes[n] == x
                                                                     && Depth(st.edges, st.nodes, rt, n) == d)
                             && c[d] == |set n | n in st.nodes && Depth(st.edges, st.nodes, rt, n) == d|)
  {
    if NodesByDepth(st, root).Ok? && st.nodes != {} {
      var rt := if root.Some? then root.value else Root(st).value;
      var G := DepthGroups(st, rt);
      assert NotesByDepth(st, root).value == map d | d in G :: NotesOf(st, G[d]);
      assert NNotesByDepth(st, root).value == map d | d in G :: |G[d]|;
      DepthGroupAt(st, rt, d);
    }
  }

  /** A depth has a group exactly when some node lies at it, and the group is the set of those nodes. */
  lemma DepthGroupAt(st: KState, rt: string, d: nat)
    requires Closed(st.edges, st.nodes) && rt in st.nodes
    ensures d in DepthGroups(st, rt) <==> exists n :: n in st.nodes && Depth(st.edges, st.nodes, rt, n) == d
    ensures d in DepthGroups(st, rt) ==> DepthGroups(st, rt)[d] == set n | n in st.nodes && Depth(st.edges, st.nodes, rt, n) == d
  {
  }

  /**
   * `get_neighbors`: the stored notes at depth 1 to `k` below `nid`. On an
   * empty graph there is nothing to visit; otherwise an id that is no node
   * fails at the first depth computed.
   */
  function Neighbors(st: KState, nid: string, k: int): (r: Result<set<Note>>)
    requires Closed(st.edges, st.nodes)
    ensures r.Err? <==> st.nodes != {} && nid !in st.nodes
    ensures r.Err? ==> r.error == NodeNotFound(nid)
    ensures st.nodes == {} ==> r == Ok({})
    ensures r.Ok? && st.nodes != {} ==> forall x :: x in r.value <==>
              exists n :: n in st.nodes && n in st.notes && st.notes[n] == x && 1 <= Depth(st.edges, st.nodes, nid, n) <= k
  {
    if st.nodes == {} then Ok({})
    else if nid !in st.nodes then Err(NodeNotFound(nid))
    else Ok(NotesOf(st, set n | n in st.nodes && 1 <= Depth(st.edges, st.nodes, nid, n) <= k))
  }

  /** Depth 1 to `k` below `r` means: reachable in at most `k` steps, and not `r` itself. */
  lemma NeighborsWithin(E: set<Edge>, N: set<string>, r: string, n: string, k: nat)
    requires Closed(E, N) && r in N
    ensures 1 <= Depth(E, N, r, n) <= k <==> n != r && n in Within(E, r, k)
  {
    BfsFromSpec(E, N, r, n, 0);
    var dist := Dist(E, N, r, n);
    if 1 <= Depth(E, N, r, n) <= k {
      var d := dist.value;
      Monotone(E, r, d, k);
      Monotone(E, r, 0, d - 1);
    }
    if n != r && n in Within(E, r, k) {
      if dist.None? {
        DistNone(E, N, r, n);
      }
      var d := dist.value;
      if d > k {
        Monotone(E, r, k, d - 1);
      }
    }
  }

  /** `get_neighbors(nid)` with `k = 1`: the stored notes `nid` links to directly, itself excluded. */
  lemma NeighborsOne(st: KState, nid: string, x: Note)
    requires Closed(st.edges, st.nodes) && nid in st.nodes
    ensures x in Neighbors(st, nid, 1).value <==>
              exists n :: n in st.notes && st.notes[n] == x && n != nid && (nid, n) in st.edges
  {
    forall n | n in st.nodes
      ensures Depth(st.edges, st.nodes, nid, n) == 1 <==> n != nid && (nid, n) in st.edges
    {
      DepthOne(st.edges, st.nodes, nid, n);
    }
  }

  /** `_get_tags`: the union of the stored notes' tags. */
  function AllTags(st: KState): (r: set<string>)
    ensures forall t :: t in r <==> exists n :: n in st.notes && t in st.notes[n].tags
  {
    set n, t | n in st.notes && t in st.notes[n].tags :: t
  }

  /** `categories`: the tags starting with `c_`. */
  function Categories(st: KState): (r: set<string>)
    ensures forall t :: t in r <==> StartsWith(t, "c_") && exists n :: n in st.notes && t in st.notes[n].tags
  {
    set t | t in AllTags(st) && StartsWith(t, "c_")
  }

  /** `__getitem__`: the note stored under `nid`; a missing key raises. */
  function Get(st: KState, nid: string): (r: Result<Note>)
    ensures r.Ok? <==> nid in st.notes
    ensures r.Ok? ==> r.value == st.notes[nid]
    ensures r.Err? ==> r.error == KeyError(nid)
  {
    if nid in st.notes then Ok(st.notes[nid]) else Err(KeyError(nid))
  }

  /** `__contains__`. */
  predicate Has(st: KState, nid: string)
    ensures Has(st, nid) <==> Get(st, nid).Ok?
  {
    nid in st.notes
  }

  /** In a valid state a stored note is found under its own id. */
  lemma GetOwnId(st: KState, x: Note)
    requires ValidState(st) && x in st.notes.Values
    ensures Has(st, x.nid) && Get(st, x.nid) == Ok(x)
  {
    var n :| n in st.notes && st.notes[n] == x;
  }

  /** `__len__`: the number of stored notes. */
  function Len(st: KState): (r: nat)
    ensures r == 0 <==> forall nid :: !Has(st, nid)
  {
    if st.notes == map[] then 0
    else
      var nid :| nid in st.notes;
      assert Has(st, nid);
      |st.notes|
  }

  /** The number of stored notes is the length of the insertion order. */
  lemma LenIsOrder(st: KState)
    requires ValidState(st)
    ensures Len(st) == |st.order|
  {
    DistinctCard(st.order);
    assert st.notes.Keys == set n | n in st.order;
  }

  /** `notes`: the stored notes in insertion order. */
  function NotesList(st: KState): (r: seq<Note>)
    requires ValidState(st)
    ensures |r| == |st.order|
    ensures forall x :: x in r <==> x in st.notes.Values
    ensures Distinct(r)
  {
    var r := seq(|st.order|, i requires 0 <= i < |st.order| => st.notes[st.order[i]]);
    forall x | x in st.notes.Values
      ensures x in r
    {
      var n :| n in st.notes && st.notes[n] == x;
      var i :| 0 <= i < |st.order| && st.order[i] == n;
      assert r[i] == x;
    }
    forall i, j | 0 <= i < j < |r|
      ensures r[i] != r[j]
    {
      assert r[i].nid == st.order[i] && r[j].nid == st.order[j];
    }
    r
  }

  /** The notes of `xs` whose file name is `name`, in order. */
  function NamedIn(xs: seq<Note>, name: string): (r: seq<Note>)
    ensures forall x :: x in r <==> x in xs && x.path.name == name
    ensures Distinct(xs) ==> Distinct(r)
  {
    if xs == [] then []
    else
      var rest := NamedIn(xs[1..], name);
      if xs[0].path.name == name then [xs[0]] + rest else rest
  }

  /** `get_by_path`: the one stored note with the path's file name; zero or several fail the assertion. */
  function GetByPath(st: KState, p: FilePath): (r: Result<Note>)
    requires ValidState(st)
    ensures r.Ok? ==> r.value in st.notes.Values && r.value.path.name == p.name
  {
    var res := NamedIn(NotesList(st), p.name);
    if |res| == 1 then Ok(res[0]) else Err(NotUnique(|res|))
  }

  /** Among distinct notes, the filter has exactly the one element `x` when `x` is the only note with that name. */
  lemma NamedOnly(xs: seq<Note>, name: string, x: Note)
    requires Distinct(xs) && x in xs && x.path.name == name
    ensures NamedIn(xs, name) == [x] <==> forall y :: y in xs && y.path.name == name ==> y == x
  {
    var res := NamedIn(xs, name);
    DistinctCard(res);
    if forall y :: y in xs && y.path.name == name ==> y == x {
      assert (set y | y in res) == {x};
      assert res[0] in res;
    } else {
      var y :| y in xs && y.path.name == name && y != x;
      assert {x, y} <= (set z | z in res);
      Shrink({x, y}, set z | z in res);
    }
  }

  /** `get_by_path` succeeds exactly when one stored note has that file name, and then gives that note. */
  lemma GetByPathUnique(st: KState, p: FilePath, x: Note)
    requires ValidState(st) && x in st.notes.Values && x.path.name == p.name
    ensures GetByPath(st, p) == Ok(x) <==> forall y :: y in st.notes.Values && y.path.name == p.name ==> y == x
  {
    var xs := NotesList(st);
    NamedOnly(xs, p.name, x);
    var res := NamedIn(xs, p.name);
    if |res| == 1 && res[0] == x {
      assert res == [x];
    }
  }

  /** What `search` returns. */
  datatype SearchOutcome =
    | Found(found: seq<Note>)
    | Failed(error: Error)
    /** A term holding `*`, `^` or `$` is matched as two regular expressions, which are not part of this model. */
    | RegexQuery(namePattern: string, titlePattern: string)

  /** The term as the file stem is compared with: spaces as underscores. */
  function NameTerm(term: string): string
  {
    Replace(term, " ", "_")
  }

  /** The term as the title is compared with: underscores as spaces. */
  function TitleTerm(term: string): string
  {
    Replace(term, "_", " ")
  }

  /** The first tier: the stem without ids, underscores as spaces and stripped, is the title term; or the title is. */
  predicate ExactMatch(x: Note, term: string)
  {
    Strip(Replace(RemoveIds(Stem(x.path)), "_", " ")) == TitleTerm(term) || x.title == TitleTerm(term)
  }

  /** The second tier: the stem starts with the name term, or the title with the title term. */
  predicate PrefixMatch(x: Note, term: string)
  {
    StartsWith(Stem(x.path), NameTerm(term)) || StartsWith(x.title, TitleTerm(term))
  }

  /** The third tier: the stem contains the name term, or the title the title term. */
  predicate SubstringMatch(x: Note, term: string)
  {
    Contains(Stem(x.path), NameTerm(term)) || Contains(x.title, TitleTerm(term))
  }

  predicate TierMatch(x: Note, term: string, tier: nat)
  {
    if tier == 0 then ExactMatch(x, term)
    else if tier == 1 then PrefixMatch(x, term)
    else SubstringMatch(x, term)
  }

  /** One of the three list comprehensions of `search`: the notes of one tier, in order. */
  function Tier(xs: seq<Note>, term: string, tier: nat): (r: seq<Note>)
    ensures |r| <= |xs|
    ensures forall k :: 0 <= k < |r| ==> r[k] in xs && TierMatch(r[k], term, tier)
  {
    if xs == [] then []
    else
      var rest := Tier(xs[1..], term, tier);
      if TierMatch(xs[0], term, tier) then [xs[0]] + rest else rest
  }

  /** A tier holds exactly the notes that match it. */
  lemma {:induction false} TierMembers(xs: seq<Note>, term: string, tier: nat)
    ensures forall x :: x in Tier(xs, term, tier) <==> x in xs && TierMatch(x, term, tier)
  {
    if xs != [] {
      TierMembers(xs[1..], term, tier);
      assert forall x :: x in xs <==> x == xs[0] || x in xs[1..];
    }
  }

  /** A term the id pattern matches at its start. */
  predicate IdTerm(term: string)
  {
    StandaloneIdAt(term, 0)
  }

  /** A term holding one of the regular-expression characters `search` looks for. */
  predicate PatternTerm(term: string)
  {
    '*' in term || '^' in term || '$' in term
  }

  /** The inner loop of `_count_tags`: one more for each tag of one note, a missing tag starting from 0. */
  method CountTags(counts: map<string, nat>, tags: set<string>) returns (r: map<string, nat>)
    ensures forall t :: t in r <==> t in counts || t in tags
    ensures forall t :: t in r ==> r[t] == (if t in counts then counts[t] else 0) + (if t in tags then 1 else 0)
  {
    r := counts;
    var rest := tags;
    ghost var done: set<string> := {};
    while rest != {}
      invariant forall u :: u in tags <==> u in done || u in rest
      invariant forall u :: u in done ==> u !in rest
      invariant forall t :: t in r <==> t in counts || t in done
      invariant forall t :: t in counts && t !in done ==> r[t] == counts[t]
      invariant forall t :: t in counts && t in done ==> r[t] == counts[t] + 1
      invariant forall t :: t !in counts && t in done ==> r[t] == 1
      decreases |rest|
    {
      var t :| t in rest;
      r := r[t := if t in r then r[t] + 1 else 1];
      rest := rest - {t};
      done := done + {t};
    }
  }

  /** The three tiers of `search`, concatenated. */
  function Tiers(all: seq<Note>, term: string): (r: seq<Note>)
    ensures forall k :: 0 <= k < |r| ==>
              r[k] in all && (ExactMatch(r[k], term) || PrefixMatch(r[k], term) || SubstringMatch(r[k], term))
  {
    Tier(all, term, 0) + Tier(all, term, 1) + Tier(all, term, 2)
  }

  /** The deduplicated tiers hold each note matching some tier exactly once. */
  lemma TiersMembers(all: seq<Note>, term: string)
    ensures var D := Dedup(Tiers(all, term));
            Distinct(D)
            && forall x :: x in D <==> x in all && (ExactMatch(x, term) || PrefixMatch(x, term) || SubstringMatch(x, term))
  {
    TierMembers(all, term, 0);
    TierMembers(all, term, 1);
    TierMembers(all, term, 2);
  }

  /** The tiers before tier `k`, concatenated. */
  function TiersUpTo(all: seq<Note>, term: string, k: nat): seq<Note>
  {
    if k == 0 then [] else if k == 1 then Tier(all, term, 0) else Tier(all, term, 0) + Tier(all, term, 1)
  }

  /** The tiers before tier `k` hold the notes matching one of them, and open the concatenation of all three. */
  lemma TiersUpToMembers(all: seq<Note>, term: string, k: nat)
    requires k <= 2
    ensures Tiers(all, term)[..|TiersUpTo(all, term, k)|] == TiersUpTo(all, term, k)
    ensures forall x :: x in TiersUpTo(all, term, k) <==> x in all && exists t :: 0 <= t < k && TierMatch(x, term, t)
  {
    var T0, T1, T2 := Tier(all, term, 0), Tier(all, term, 1), Tier(all, term, 2);
    if k == 1 {
      TierMembers(all, term, 0);
      assert Tiers(all, term) == T0 + (T1 + T2);
    } else if k == 2 {
      TierMembers(all, term, 0);
      TierMembers(all, term, 1);
      assert Tiers(all, term) == (T0 + T1) + T2;
      assert forall x :: x in T0 + T1 <==> x in T0 || x in T1;
    }
  }

  /** The exact matches come first: a note of an earlier tier keeps its place before every note of later tiers only. */
  lemma TiersBefore(all: seq<Note>, term: string, k: nat, i: nat, j: nat)
    requires k <= 2
    requires var D := Dedup(Tiers(all, term));
             i < |D| && j < |D| && (exists t :: 0 <= t < k && TierMatch(D[i], term, t))
             && forall t :: 0 <= t < k ==> !TierMatch(D[j], term, t)
    ensures i < j
  {
    var s := Tiers(all, term);
    var D := Dedup(s);
    var head := TiersUpTo(all, term, k);
    TiersUpToMembers(all, term, k);
    assert D[i] in s;
    assert D[i] in head;
    assert D[j] !in head;
    DedupBefore(s, |head|, i, j);
  }

  /** `_get_tags`: the union of the notes' tags, accumulated note by note. */
  method GetTags(xs: seq<Note>) returns (tags: set<string>)
    ensures forall t :: t in tags <==> exists x :: x in xs && t in x.tags
  {
    tags := {};
    var i := 0;
    while i < |xs|
      invariant 0 <= i <= |xs|
      invariant forall t :: t in tags <==> exists j :: 0 <= j < i && t in xs[j].tags
    {
      tags := tags + xs[i].tags;
      i := i + 1;
    }
  }

  /** How many of the notes hold tag `t`. */
  function TagCount(xs: seq<Note>, t: string): nat
  {
    if xs == [] then 0 else TagCount(xs[..|xs| - 1], t) + (if t in xs[|xs| - 1].tags then 1 else 0)
  }

  /** Among distinct notes, that is the number of notes holding the tag. */
  lemma {:induction false} TagCountDistinct(xs: seq<Note>, t: string)
    requires Distinct(xs)
    ensures TagCount(xs, t) == |set x | x in xs && t in x.tags|
  {
    if xs != [] {
      var ys, y := xs[..|xs| - 1], xs[|xs| - 1];
      assert Distinct(ys);
      TagCountDistinct(ys, t);
      var A := set x | x in ys && t in x.tags;
      assert y !in ys;
      var B := set x | x in xs && t in x.tags;
      assert forall x :: x in xs <==> x in ys || x == y;
      if t in y.tags {
        assert B == A + {y};
      } else {
        assert B == A;
      }
    }
  }

  /** `_count_tags`: for each tag of the notes, how many of them hold it. */
  method CountAllTags(xs: seq<Note>) returns (counts: map<string, nat>)
    ensures forall t :: t in counts <==> exists x :: x in xs && t in x.tags
    ensures forall t :: t in counts ==> counts[t] == TagCount(xs, t)
  {
    counts := map[];
    var i := 0;
    while i < |xs|
      invariant 0 <= i <= |xs|
      invariant forall t :: t in counts <==> exists j :: 0 <= j < i && t in xs[j].tags
      invariant forall t :: t in counts ==> counts[t] == TagCount(xs[..i], t)
      invariant forall t :: t !in counts ==> TagCount(xs[..i], t) == 0
    {
      assert xs[..i + 1][..i] == xs[..i];
      counts := CountTags(counts, xs[i].tags);
      i := i + 1;
    }
    assert xs[..|xs|] == xs;
  }

  /** What `search` returns for a term, in a valid state. */
  function SearchSpec(st: KState, term: string): (r: SearchOutcome)
    requires ValidState(st)
    ensures r.Failed? <==> IdTerm(term) && term !in st.notes
    ensures r.Failed? ==> r.error == KeyError(term)
    ensures r.RegexQuery? <==> !IdTerm(term) && PatternTerm(term)
    ensures r.Found? ==> Distinct(r.found) && forall x :: x in r.found ==> x in st.notes.Values
  {
    if IdTerm(term) then
      if term in st.notes then Found([st.notes[term]]) else Failed(KeyError(term))
    else if PatternTerm(term) then RegexQuery(NameTerm(term), TitleTerm(term))
    else
      Found(Dedup(Tiers(NotesList(st), term)))
  }

  /**
   * The result of an ordinary term: each stored note matching some tier
   * exactly once, the exact matches first, then the prefix matches, then
   * the substring matches.
   */
  lemma SearchFound(st: KState, term: string)
    requires ValidState(st) && !IdTerm(term) && !PatternTerm(term)
    ensures var out := SearchSpec(st, term);
            out.Found? && Distinct(out.found)
            && (forall x :: x in out.found <==>
                  x in st.notes.Values && (ExactMatch(x, term) || PrefixMatch(x, term) || SubstringMatch(x, term)))
            && (forall i, j :: (0 <= i < |out.found| && 0 <= j < |out.found|
                                && ExactMatch(out.found[i], term) && !ExactMatch(out.found[j], term)) ==> i < j)
            && (forall i, j :: (0 <= i < |out.found| && 0 <= j < |out.found|
                                && (ExactMatch(out.found[i], term) || PrefixMatch(out.found[i], term))
                                && !ExactMatch(out.found[j], term) && !PrefixMatch(out.found[j], term)) ==> i < j)
  {
    var all := NotesList(st);
    var D := Dedup(Tiers(all, term));
    TiersMembers(all, term);
    forall i, j | 0 <= i < |D| && 0 <= j < |D| && ExactMatch(D[i], term) && !ExactMatch(D[j], term)
      ensures i < j
    {
      assert TierMatch(D[i], term, 0);
      TiersBefore(all, term, 1, i, j);
    }
    forall i, j | (0 <= i < |D| && 0 <= j < |D|
                   && (ExactMatch(D[i], term) || PrefixMatch(D[i], term))
                   && !ExactMatch(D[j], term) && !PrefixMatch(D[j], term))
      ensures i < j
    {
      assert TierMatch(D[i], term, 0) || TierMatch(D[i], term, 1);
      TiersBefore(all, term, 2, i, j);
    }
  }

  /** An id term gives the one note stored under it, or fails as a missing key. */
  lemma SearchId(st: KState, term: string)
    requires ValidState(st) && IdTerm(term)
    ensures term in st.notes ==> SearchSpec(st, term) == Found([st.notes[term]]) && st.notes[term].nid == term
    ensures term !in st.notes ==> SearchSpec(st, term) == Failed(KeyError(term))
  {
  }

  /** The note collection. */
  class Zettelkasten {
    /** The keys of `_nid2note`, in insertion order. */
    var order: seq<string>
    /** `_nid2note`. */
    var notes: map<string, Note>
    /** The graph's nodes. */
    var nodes: set<string>
    /** The graph's edges. */
    var edges: set<Edge>

    function State(): KState
      reads this
    {
      KState(order, notes, nodes, edges)
    }

    ghost predicate Valid()
      reads this
    {
      ValidState(State())
    }

    /** `Zettelkasten.__init__`: an empty collection, then `add_notes` on the given notes. */
    constructor (ns: seq<Note>)
      ensures Valid()
      ensures State() == AddAllSpec(KState([], map[], {}, {}), ns, |ns|)
    {
      order := [];
      notes := map[];
      nodes := {};
      edges := {};
      new;
      AddNotes(ns);
    }

    /** `add_notes`: each note in turn is stored under its id and linked to each of its links. */
    method AddNotes(ns: seq<Note>)
      requires Valid()
      modifies this
      ensures Valid()
      ensures State() == AddAllSpec(old(State()), ns, |ns|)
    {
      ghost var st0 := State();
      var i := 0;
      while i < |ns|
        invariant 0 <= i <= |ns|
        invariant State() == AddAllSpec(st0, ns, i)
      {
        AddNext(st0, ns, i);
        i := i + 1;
      }
      AddAllValid(st0, ns, |ns|);
    }

    /** One pass of the `add_notes` loop, on the note at position `i`. */
    method AddNext(ghost st0: KState, ns: seq<Note>, i: nat)
      requires i < |ns| && ValidState(st0) && State() == AddAllSpec(st0, ns, i)
      modifies this
      ensures State() == AddAllSpec(st0, ns, i + 1)
    {
      AddAllValid(st0, ns, i);
      AddNote(ns[i]);
    }

    /** The body of the `add_notes` loop for one note. */
    method AddNote(x: Note)
      requires Valid()
      modifies this
      ensures Valid()
      ensures State() == AddNoteSpec(old(State()), x)
    {
      AddNoteValid(State(), x);
      if x.nid !in notes {
        order := order + [x.nid];
      }
      notes := notes[x.nid := x];
      nodes := nodes + {x.nid};
      AddLinks(x);
    }

    /** The inner loop of `add_notes`: one edge per link, creating the link's node when needed. */
    method AddLinks(x: Note)
      modifies this
      ensures order == old(order) && notes == old(notes)
      ensures nodes == old(nodes) + LinkTargets(x)
      ensures edges == old(edges) + LinkEdges(x)
    {
      var j := 0;
      while j < |x.links|
        invariant 0 <= j <= |x.links|
        invariant order == old(order) && notes == old(notes)
        invariant nodes == old(nodes) + (set l | l in x.links[..j])
        invariant edges == old(edges) + (set l | l in x.links[..j] :: (x.nid, l))
      {
        var link := x.links[j];
        assert x.links[..j + 1] == x.links[..j] + [link];
        edges := edges + {(x.nid, link)};
        nodes := nodes + {link};
        j := j + 1;
      }
      assert x.links[..j] == x.links;
    }

    /** `tags`: `_get_tags` over the stored notes. */
    method Tags() returns (tags: set<string>)
      requires Valid()
      ensures tags == AllTags(State())
    {
      tags := GetTags(NotesList(State()));
    }

    /** `tag_counts`: `_count_tags` over the stored notes: each tag and the number of stored notes holding it. */
    method TagCounts() returns (counts: map<string, nat>)
      requires Valid()
      ensures forall t :: t in counts <==> t in AllTags(State())
      ensures forall t :: t in counts ==> counts[t] == |set x | x in notes.Values && t in x.tags|
    {
      var xs := NotesList(State());
      counts := CountAllTags(xs);
      forall t | t in counts
        ensures counts[t] == |set x | x in notes.Values && t in x.tags|
      {
        TagCountDistinct(xs, t);
        assert (set x | x in xs && t in x.tags) == set x | x in notes.Values && t in x.tags;
      }
    }

    /**
     * `search`: an id term looks up that key; a term with a pattern character
     * becomes two regular expressions; any other term collects the exact
     * matches, then the prefix matches, then the substring matches, and
     * keeps each note's first place.
     */
    method Search(term: string) returns (out: SearchOutcome)
      requires Valid()
      ensures out == SearchSpec(State(), term)
    {
      if IdTerm(term) {
        if term in notes {
          out := Found([notes[term]]);
        } else {
          out := Failed(KeyError(term));
        }
        return;
      }
      if PatternTerm(term) {
        out := RegexQuery(NameTerm(term), TitleTerm(term));
        return;
      }
      var all := NotesList(State());
      var results: seq<Note> := [];
      var exact := Tier(all, term, 0);
      assert results + exact == exact;
      results := results + exact;
      results := results + Tier(all, term, 1);
      results := results + Tier(all, term, 2);
      assert results == Tiers(all, term);
      out := Found(Dedup(results));
    }
  }
}
