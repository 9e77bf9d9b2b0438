/** The NodeData operations that read or change the record store: setPath with
    its cascade over child records, the depth cache, the workspace and index
    setters, node creation, lookup, removal and adjustment to a context. */
module NodeDataOps {
  import opened Wrappers
  import opened Strings
  import opened Paths
  import opened Dimensions
  import opened Workspaces
  import opened Repository
  import opened NodeDataModel

  /** The node data repository. */
  type Store = Table<NodeData>

  ghost predicate AllWellFormed(rows: map<Handle, NodeData>)
  {
    forall k :: k in rows ==> WellFormed(rows[k])
  }

  ghost predicate Good(store: Store)
    reads store
  {
    store.Valid() && AllWellFormed(store.rows)
  }

  // ---------------------------------------------------------------------
  // Queries of the repository
  // ---------------------------------------------------------------------

  /** findOneByPath(path, workspace, dimensions) */
  function AtPath(path: string, ws: string, dims: Option<seq<DimensionEntry>>): NodeData -> bool
  {
    (n: NodeData) => n.path == path && n.workspace.name == ws && (dims.None? || MatchesDimensions(n.dimensionValues, dims.value))
  }

  /** findByParentWithoutReduce(parentPath, workspace) */
  function ChildOf(path: string, ws: string): NodeData -> bool
  {
    (n: NodeData) => n.parentPath == path && n.workspace.name == ws
  }

  /** findOneByIdentifier(identifier, workspace) */
  function WithIdentifier(id: string, ws: string): NodeData -> bool
  {
    (n: NodeData) => n.identifier == id && n.workspace.name == ws
  }

  /** findByWorkspace / countByWorkspace */
  function InWorkspace(ws: string): NodeData -> bool
  {
    (n: NodeData) => n.workspace.name == ws
  }

  // ---------------------------------------------------------------------
  // Fresh identifiers
  // ---------------------------------------------------------------------

  function GeneratedIdentifier(i: nat): string
  {
    "uuid-" + NatToString(i)
  }

  /** The identifier generator never hands out the same identifier twice. */
  lemma GeneratedIdentifiersDistinct(i: nat, j: nat)
    requires i != j
    ensures GeneratedIdentifier(i) != GeneratedIdentifier(j)
  {
    if GeneratedIdentifier(i) == GeneratedIdentifier(j) {
      assert NatToString(i) == GeneratedIdentifier(i)[5..] == GeneratedIdentifier(j)[5..] == NatToString(j);
      NatToStringInjective(i, j);
    }
  }

  /** Stand-in for the UUID generator: a counter of issued identifiers. */
  class IdentifierSource {
    var issued: nat

    constructor ()
      ensures issued == 0
    {
      issued := 0;
    }

    method Generate() returns (id: string)
      modifies this
      ensures id == GeneratedIdentifier(old(issued)) && issued == old(issued) + 1
    {
      id := GeneratedIdentifier(issued);
      issued := issued + 1;
    }
  }

  // ---------------------------------------------------------------------
  // Sub-trees reached through getChildNodeData
  // ---------------------------------------------------------------------

  /** Path p leads up to q in workspace ws: p is q, or a record of ws sits at
      p and its parent path leads up to q. The path length decreases along
      the way. */
  ghost predicate Reaches(O: map<Handle, NodeData>, p: string, q: string, ws: string)
    decreases |p|
  {
    p == q ||
    exists j :: j in O && O[j].workspace.name == ws && O[j].path == p && |O[j].parentPath| < |p| &&
      Reaches(O, O[j].parentPath, q, ws)
  }

  /** Record k belongs to the sub-tree of q in workspace ws: the recursive
      getChildNodeData queries that start at q reach it. */
  ghost predicate Descends(O: map<Handle, NodeData>, k: Handle, q: string, ws: string)
  {
    k in O && O[k].workspace.name == ws && |O[k].parentPath| < |O[k].path| && Reaches(O, O[k].parentPath, q, ws)
  }

  /** Two records sit at the same place in the tree. */
  predicate SameLinks(a: NodeData, b: NodeData)
  {
    a.path == b.path && a.parentPath == b.parentPath && a.workspace.name == b.workspace.name
  }

  /** A well-formed record's parent path is shorter than its path. */
  lemma ParentShorter(n: NodeData)
    requires WellFormed(n)
    ensures |n.parentPath| < |n.path|
  {
    if n.path != "/" {
      ChildIsUnder(n.path);
    }
  }

  /** A child record of q in ws is in q's sub-tree. */
  lemma ChildDescends(O: map<Handle, NodeData>, c: Handle, q: string, ws: string)
    requires c in O && WellFormed(O[c]) && O[c].parentPath == q && O[c].workspace.name == ws
    ensures Descends(O, c, q, ws)
  {
    ParentShorter(O[c]);
  }

  /** Among well-formed records, a path that leads up to q is q or lies below it. */
  lemma {:induction false} ReachesUnder(O: map<Handle, NodeData>, p: string, q: string, ws: string)
    requires AllWellFormed(O) && q != "" && Reaches(O, p, q, ws)
    ensures p == q || IsUnder(p, q)
    decreases |p|
  {
    if p != q {
      var j :| j in O && O[j].workspace.name == ws && O[j].path == p && |O[j].parentPath| < |p| &&
        Reaches(O, O[j].parentPath, q, ws);
      var pp := O[j].parentPath;
      ReachesUnder(O, pp, q, ws);
      assert WellFormed(O[j]);
      assert p != "/";
      ChildIsUnder(p);
      if pp != q {
        UnderChildUnder(p, pp, q);
      }
    }
  }

  /** Among well-formed records, a record of q's sub-tree lies below q. */
  lemma DescendsUnder(O: map<Handle, NodeData>, k: Handle, q: string, ws: string)
    requires AllWellFormed(O) && q != "" && Descends(O, k, q, ws)
    ensures IsUnder(O[k].path, q)
  {
    var pp := O[k].parentPath;
    ReachesUnder(O, pp, q, ws);
    assert WellFormed(O[k]);
    assert O[k].path != "/";
    ChildIsUnder(O[k].path);
    if pp != q {
      UnderChildUnder(O[k].path, pp, q);
    }
  }

  lemma {:induction false} ReachesTrans(O: map<Handle, NodeData>, p: string, r: string, q: string, ws: string)
    requires Reaches(O, p, r, ws) && Reaches(O, r, q, ws)
    ensures Reaches(O, p, q, ws)
    decreases |p|
  {
    if p != r {
      var j :| j in O && O[j].workspace.name == ws && O[j].path == p && |O[j].parentPath| < |p| &&
        Reaches(O, O[j].parentPath, r, ws);
      ReachesTrans(O, O[j].parentPath, r, q, ws);
    }
  }

  /** A record below a record of q's sub-tree is in q's sub-tree. */
  lemma DescendsTrans(O: map<Handle, NodeData>, k: Handle, i: Handle, q: string, ws: string)
    requires i in O && Descends(O, k, O[i].path, ws) && Descends(O, i, q, ws)
    ensures Descends(O, k, q, ws)
  {
    assert Reaches(O, O[i].path, q, ws);
    ReachesTrans(O, O[k].parentPath, O[i].path, q, ws);
  }

  /** A record of q's sub-tree is a child of q or in the sub-tree of one. */
  lemma {:induction false} DescendsSplit(O: map<Handle, NodeData>, k: Handle, q: string, ws: string)
    requires Descends(O, k, q, ws)
    ensures O[k].parentPath == q ||
      exists c :: c in O && O[c].workspace.name == ws && O[c].parentPath == q && Descends(O, k, O[c].path, ws)
    decreases |O[k].path|
  {
    var pp := O[k].parentPath;
    if pp != q {
      var j :| j in O && O[j].workspace.name == ws && O[j].path == pp && |O[j].parentPath| < |pp| &&
        Reaches(O, O[j].parentPath, q, ws);
      assert Descends(O, j, q, ws);
      assert Descends(O, k, O[j].path, ws);
      DescendsSplit(O, j, q, ws);
      if O[j].parentPath != q {
        var c :| c in O && O[c].workspace.name == ws && O[c].parentPath == q && Descends(O, j, O[c].path, ws);
        DescendsTrans(O, k, j, O[c].path, ws);
      }
    }
  }

  /** A chain of records that leads p up to r in O either survives unchanged
      in S, or passes through a record that S changed or dropped. */
  lemma {:induction false} ReachesKept(O: map<Handle, NodeData>, S: map<Handle, NodeData>, p: string, r: string, ws: string)
    requires Reaches(O, p, r, ws)
    ensures Reaches(S, p, r, ws) ||
      exists i :: i in O && O[i].workspace.name == ws && (i !in S || S[i] != O[i]) && Reaches(O, p, O[i].path, ws)
    decreases |p|
  {
    if p != r {
      var j :| j in O && O[j].workspace.name == ws && O[j].path == p && |O[j].parentPath| < |p| &&
        Reaches(O, O[j].parentPath, r, ws);
      if j !in S || S[j] != O[j] {
        assert Reaches(O, p, O[j].path, ws);
      } else {
        ReachesKept(O, S, O[j].parentPath, r, ws);
        if !Reaches(S, O[j].parentPath, r, ws) {
          var i :| i in O && O[i].workspace.name == ws && (i !in S || S[i] != O[i]) &&
            Reaches(O, O[j].parentPath, O[i].path, ws);
          assert Reaches(O, p, O[i].path, ws);
        }
      }
    }
  }

  /** A chain that leads p up to r in S runs through records that O holds at
      the same places, when those are the records of S below r. */
  lemma {:induction false} ReachesBack(S: map<Handle, NodeData>, O: map<Handle, NodeData>, p: string, r: string, ws: string)
    requires AllWellFormed(S) && r != "" && Reaches(S, p, r, ws)
    requires forall j :: j in S && S[j].workspace.name == ws && IsUnder(S[j].path, r) ==> j in O && SameLinks(O[j], S[j])
    ensures Reaches(O, p, r, ws)
    decreases |p|
  {
    if p != r {
      var j :| j in S && S[j].workspace.name == ws && S[j].path == p && |S[j].parentPath| < |p| &&
        Reaches(S, S[j].parentPath, r, ws);
      ReachesUnder(S, p, r, ws);
      ReachesBack(S, O, S[j].parentPath, r, ws);
      assert j in O && O[j].path == p && O[j].parentPath == S[j].parentPath;
    }
  }

  /** The same for a record of r's sub-tree. */
  lemma DescendsBack(S: map<Handle, NodeData>, O: map<Handle, NodeData>, k: Handle, r: string, ws: string)
    requires AllWellFormed(S) && r != "" && Descends(S, k, r, ws) && k in O && SameLinks(O[k], S[k])
    requires forall j :: j in S && S[j].workspace.name == ws && IsUnder(S[j].path, r) ==> j in O && SameLinks(O[j], S[j])
    ensures Descends(O, k, r, ws)
  {
    ReachesBack(S, O, S[k].parentPath, r, ws);
  }

  /** A record of r's sub-tree in O that S keeps is in r's sub-tree in S, or
      below a record of that sub-tree (or r's own record) that S changed. */
  lemma DescendsKept(O: map<Handle, NodeData>, S: map<Handle, NodeData>, k: Handle, r: string, ws: string)
    requires Descends(O, k, r, ws) && k in S && S[k] == O[k]
    ensures Descends(S, k, r, ws) ||
      exists i :: i in O && O[i].workspace.name == ws && (i !in S || S[i] != O[i]) && Descends(O, k, O[i].path, ws)
  {
    ReachesKept(O, S, O[k].parentPath, r, ws);
  }

  // ---------------------------------------------------------------------
  // setPath
  // ---------------------------------------------------------------------

  /** An upper bound of all stored path lengths below handle n. */
  ghost function MaxPathLength(rows: map<Handle, NodeData>, n: nat): (m: nat)
    ensures forall k :: k in rows && k < n ==> |rows[k].path| <= m
  {
    if n == 0 then 0
    else
      var rest := MaxPathLength(rows, n - 1);
      if n - 1 in rows && |rows[n - 1].path| > rest then |rows[n - 1].path| else rest
  }

  /** R is O after moving the sub-tree at q (in workspace ws) to np: besides
      h, only records below q in ws change, and each only receives its
      rebased path. */
  ghost predicate Moved(O: map<Handle, NodeData>, R: map<Handle, NodeData>, h: Handle, q: string, ws: string, np: string)
  {
    O.Keys == R.Keys &&
    forall k :: k in O && k != h && R[k] != O[k] ==>
      IsUnder(O[k].path, q) && O[k].workspace.name == ws && R[k] == WithPath(O[k], Rebase(O[k].path, q, np))
  }

  /** The state of the cascade after the children in `done` were moved. */
  ghost predicate Cascade(O: map<Handle, NodeData>, S: map<Handle, NodeData>, h: Handle, q: string, ws: string, np: string, done: seq<Handle>)
  {
    O.Keys == S.Keys && h in O && O[h].path == q && O[h].workspace.name == ws && S[h] == O[h] &&
    (forall k :: k in O && S[k] != O[k] ==>
      k != h && IsUnder(O[k].path, q) && O[k].workspace.name == ws &&
      S[k] == WithPath(O[k], Rebase(O[k].path, q, np)) &&
      (k in done || O[k].parentPath != q)) &&
    (forall j :: 0 <= j < |done| ==>
      done[j] in O && O[done[j]].parentPath == q && O[done[j]].workspace.name == ws &&
      S[done[j]] == WithPath(O[done[j]], ChildPath(np, NameOf(O[done[j]].path))))
  }

  /** A record that was already moved to np's sub-tree is not below any child of q. */
  lemma MovedNotBelowChild(p: string, q: string, np: string, cp: string)
    requires Disjoint(np, q) && IsUnder(p, np) && IsUnder(cp, q)
    ensures !IsUnder(p, cp)
  {
    if IsUnder(p, cp) {
      assert cp != "/";
      assert StartsWith(Prefix(cp), Prefix(q)) by {
        assert Prefix(cp) == cp + "/";
        assert Prefix(cp)[..|Prefix(q)|] == cp[..|Prefix(q)|];
      }
      StartsWithTrans(p, Prefix(cp), Prefix(q));
      DisjointNotBoth(p, np, q);
    }
  }

  /** A record below a child of q is not itself a child of q. */
  lemma GrandchildNotChild(p: string, cp: string, q: string)
    requires ValidPath(p) && IsUnder(p, cp) && IsUnder(cp, q)
    ensures ParentPathOf(p) != q
  {
    assert p != "/";
    Decompose(p);
    ChildIsUnder(p);
    var par := ParentPathOf(p);
    var n := NameOf(p);
    ValidNameNoSlash(n);
    forall j | |Prefix(par)| <= j < |p| ensures p[j] != '/' {
      assert p[j] == n[j - |Prefix(par)|];
    }
    var i := |Prefix(cp)| - 1;
    assert p[i] == Prefix(cp)[i] == '/';
    assert |Prefix(q)| < |Prefix(par)|;
  }

  /** What is known when child c of h has just been moved with its sub-tree. */
  ghost predicate StepContext(O: map<Handle, NodeData>, S: map<Handle, NodeData>, T: map<Handle, NodeData>,
                              h: Handle, q: string, ws: string, np: string, done: seq<Handle>, c: Handle)
  {
    AllWellFormed(O) && ValidPath(q) && ValidPath(np) && Disjoint(np, q) &&
    Cascade(O, S, h, q, ws, np, done) &&
    c in O && c != h && O[c].parentPath == q && O[c].workspace.name == ws && c !in done &&
    O[c].path != "/" && ValidName(NameOf(O[c].path)) && O[c].path == ChildPath(q, NameOf(O[c].path)) &&
    S[c] == O[c] &&
    Moved(S, T, c, O[c].path, ws, ChildPath(np, NameOf(O[c].path))) &&
    T[c] == WithPath(S[c], ChildPath(np, NameOf(O[c].path)))
  }

  /** A record other than c that the move of c's sub-tree changed was unchanged before. */
  lemma StepTouchesFresh(O: map<Handle, NodeData>, S: map<Handle, NodeData>, T: map<Handle, NodeData>,
                         h: Handle, q: string, ws: string, np: string, done: seq<Handle>, c: Handle, k: Handle)
    requires StepContext(O, S, T, h, q, ws, np, done, c)
    requires k in O && k != c && T[k] != S[k]
    ensures S[k] == O[k] && k != h && IsUnder(O[k].path, O[c].path) && O[k].workspace.name == ws
  {
    var cp := O[c].path;
    RebaseChild(q, NameOf(cp), np);
    assert IsUnder(S[k].path, cp);
    if S[k] != O[k] {
      RebaseUnder(O[k].path, q, np);
      MovedNotBelowChild(S[k].path, q, np, cp);
    }
    assert |O[k].path| > |cp| > |q|;
  }

  lemma StepRecord(O: map<Handle, NodeData>, S: map<Handle, NodeData>, T: map<Handle, NodeData>,
                   h: Handle, q: string, ws: string, np: string, done: seq<Handle>, c: Handle, k: Handle)
    requires StepContext(O, S, T, h, q, ws, np, done, c)
    requires k in O && T[k] != O[k]
    ensures k != h && IsUnder(O[k].path, q) && O[k].workspace.name == ws
    ensures T[k] == WithPath(O[k], Rebase(O[k].path, q, np))
    ensures k in done + [c] || O[k].parentPath != q
  {
    var cp := O[c].path;
    RebaseChild(q, NameOf(cp), np);
    if k == c {
    } else if T[k] != S[k] {
      StepTouchesFresh(O, S, T, h, q, ws, np, done, c, k);
      UnderChildUnder(O[k].path, cp, q);
      RebaseCompose(O[k].path, cp, q, np);
      GrandchildNotChild(O[k].path, cp, q);
    }
  }

  lemma StepDone(O: map<Handle, NodeData>, S: map<Handle, NodeData>, T: map<Handle, NodeData>,
                 h: Handle, q: string, ws: string, np: string, done: seq<Handle>, c: Handle, j: int)
    requires StepContext(O, S, T, h, q, ws, np, done, c)
    requires 0 <= j < |done|
    ensures T[done[j]] == S[done[j]]
  {
    var d := done[j];
    var p := O[d].path;
    assert ValidPath(p) && ParentPathOf(p) == q;
    ParentPathShorter(q);
    Decompose(p);
    RebaseChild(np, NameOf(p), np);
    assert S[d].path == ChildPath(np, NameOf(p));
    RebaseChild(q, NameOf(O[c].path), np);
    MovedNotBelowChild(S[d].path, q, np, O[c].path);
  }

  lemma StepTouchedAll(O: map<Handle, NodeData>, S: map<Handle, NodeData>, T: map<Handle, NodeData>,
                       h: Handle, q: string, ws: string, np: string, done: seq<Handle>, c: Handle)
    requires StepContext(O, S, T, h, q, ws, np, done, c)
    ensures forall k :: k in O && T[k] != O[k] ==>
      k != h && IsUnder(O[k].path, q) && O[k].workspace.name == ws &&
      T[k] == WithPath(O[k], Rebase(O[k].path, q, np)) && (k in done + [c] || O[k].parentPath != q)
  {
    forall k | k in O && T[k] != O[k]
      ensures k != h && IsUnder(O[k].path, q) && O[k].workspace.name == ws &&
        T[k] == WithPath(O[k], Rebase(O[k].path, q, np)) && (k in done + [c] || O[k].parentPath != q)
    {
      StepRecord(O, S, T, h, q, ws, np, done, c, k);
    }
  }

  lemma StepDoneAll(O: map<Handle, NodeData>, S: map<Handle, NodeData>, T: map<Handle, NodeData>,
                    h: Handle, q: string, ws: string, np: string, done: seq<Handle>, c: Handle)
    requires StepContext(O, S, T, h, q, ws, np, done, c)
    ensures forall j :: 0 <= j < |done + [c]| ==>
      (done + [c])[j] in O && O[(done + [c])[j]].parentPath == q && O[(done + [c])[j]].workspace.name == ws &&
      T[(done + [c])[j]] == WithPath(O[(done + [c])[j]], ChildPath(np, NameOf(O[(done + [c])[j]].path)))
  {
    forall j | 0 <= j < |done + [c]|
      ensures (done + [c])[j] in O && O[(done + [c])[j]].parentPath == q && O[(done + [c])[j]].workspace.name == ws &&
        T[(done + [c])[j]] == WithPath(O[(done + [c])[j]], ChildPath(np, NameOf(O[(done + [c])[j]].path)))
    {
      if j < |done| {
        assert (done + [c])[j] == done[j];
        StepDone(O, S, T, h, q, ws, np, done, c, j);
      }
    }
  }

  /** One child of the cascade has been moved together with its own sub-tree. */
  lemma CascadeStep(O: map<Handle, NodeData>, S: map<Handle, NodeData>, T: map<Handle, NodeData>,
                    h: Handle, q: string, ws: string, np: string, done: seq<Handle>, c: Handle)
    requires StepContext(O, S, T, h, q, ws, np, done, c)
    ensures Cascade(O, T, h, q, ws, np, done + [c])
  {
    assert T[h] == O[h] by {
      if T[h] != O[h] {
        StepRecord(O, S, T, h, q, ws, np, done, c, h);
      }
    }
    StepTouchedAll(O, S, T, h, q, ws, np, done, c);
    StepDoneAll(O, S, T, h, q, ws, np, done, c);
  }

  /** R is O after the sub-tree of q in ws moved to np: every record of the
      sub-tree has its rebased path, and no record outside it but h changed. */
  ghost predicate SubtreeMoved(O: map<Handle, NodeData>, R: map<Handle, NodeData>, h: Handle, q: string, ws: string, np: string)
  {
    O.Keys == R.Keys &&
    (forall k :: Descends(O, k, q, ws) ==>
      IsUnder(O[k].path, q) && R[k] == WithPath(O[k], Rebase(O[k].path, q, np))) &&
    (forall k :: k in O && k != h && R[k] != O[k] ==> Descends(O, k, q, ws))
  }

  /** Record k is one of the children in `done` or in the sub-tree of one. */
  ghost predicate WithinDone(O: map<Handle, NodeData>, k: Handle, ws: string, done: seq<Handle>)
  {
    exists j :: 0 <= j < |done| && done[j] in O && (k == done[j] || Descends(O, k, O[done[j]].path, ws))
  }

  /** Every record in the sub-tree of a child in `done` has its rebased path in S. */
  ghost predicate RebasedBelowDone(O: map<Handle, NodeData>, S: map<Handle, NodeData>, q: string, ws: string, np: string,
                                   done: seq<Handle>)
    requires O.Keys == S.Keys
  {
    forall j, k :: 0 <= j < |done| && done[j] in O && Descends(O, k, O[done[j]].path, ws) ==>
      IsUnder(O[k].path, q) && S[k] == WithPath(O[k], Rebase(O[k].path, q, np))
  }

  /** The deep part of the cascade after the children in `done` were moved:
      a changed record is one of them or in the sub-tree of one, and every
      record in the sub-tree of one of them has its rebased path. */
  ghost predicate DeepCascade(O: map<Handle, NodeData>, S: map<Handle, NodeData>, q: string, ws: string, np: string,
                              done: seq<Handle>)
  {
    O.Keys == S.Keys &&
    (forall k :: k in O && S[k] != O[k] ==> WithinDone(O, k, ws, done)) &&
    RebasedBelowDone(O, S, q, ws, np, done)
  }

  /** Before child c moves, the records below c's path are still those of O. */
  lemma StepBelowChildKept(O: map<Handle, NodeData>, S: map<Handle, NodeData>, T: map<Handle, NodeData>,
                           h: Handle, q: string, ws: string, np: string, done: seq<Handle>, c: Handle)
    requires StepContext(O, S, T, h, q, ws, np, done, c)
    ensures forall j :: j in S && S[j].workspace.name == ws && IsUnder(S[j].path, O[c].path) ==>
      j in O && SameLinks(O[j], S[j])
  {
    var cp := O[c].path;
    RebaseChild(q, NameOf(cp), np);
    forall j | j in S && S[j].workspace.name == ws && IsUnder(S[j].path, cp)
      ensures j in O && SameLinks(O[j], S[j])
    {
      if S[j] != O[j] {
        RebaseUnder(O[j].path, q, np);
        MovedNotBelowChild(S[j].path, q, np, cp);
      }
    }
  }

  /** Rebasing below child cp of q onto the same child of np is rebasing below q onto np. */
  lemma RebaseViaChild(p: string, cp: string, q: string, np: string)
    requires IsUnder(p, cp) && ValidName(NameOf(cp)) && cp == ChildPath(q, NameOf(cp))
    ensures IsUnder(p, q) && Rebase(p, cp, ChildPath(np, NameOf(cp))) == Rebase(p, q, np)
  {
    RebaseChild(q, NameOf(cp), np);
    RebaseCompose(p, cp, q, np);
  }

  /** A record in the sub-tree of a child moved earlier keeps its rebased
      path while child c moves. */
  lemma DeepDoneKept(O: map<Handle, NodeData>, S: map<Handle, NodeData>, T: map<Handle, NodeData>,
                     h: Handle, q: string, ws: string, np: string, done: seq<Handle>, c: Handle, j: int, k: Handle)
    requires StepContext(O, S, T, h, q, ws, np, done, c) && AllWellFormed(S)
    requires DeepCascade(O, S, q, ws, np, done)
    requires SubtreeMoved(S, T, c, O[c].path, ws, ChildPath(np, NameOf(O[c].path)))
    requires 0 <= j < |done| && Descends(O, k, O[done[j]].path, ws)
    ensures IsUnder(O[k].path, q) && T[k] == S[k] && S[k] == WithPath(O[k], Rebase(O[k].path, q, np))
  {
    var cp, dp := O[c].path, O[done[j]].path;
    assert WellFormed(O[done[j]]);
    if T[k] != S[k] {
      if k == c {
        DescendsUnder(O, k, dp, ws);
        ParentShorter(O[done[j]]);
        Decompose(dp);
        SiblingsNotNested(q, NameOf(cp), NameOf(dp));
      } else {
        RebasedNotBelowChild(O, S, k, q, ws, np, cp);
      }
    }
  }

  /** A record already rebased onto np is not in the sub-tree of a child of q. */
  lemma RebasedNotBelowChild(O: map<Handle, NodeData>, S: map<Handle, NodeData>, k: Handle, q: string, ws: string,
                             np: string, cp: string)
    requires AllWellFormed(S) && Disjoint(np, q) && k in O && k in S && IsUnder(O[k].path, q)
    requires S[k] == WithPath(O[k], Rebase(O[k].path, q, np))
    requires ValidName(NameOf(cp)) && cp == ChildPath(q, NameOf(cp))
    ensures !Descends(S, k, cp, ws)
  {
    if Descends(S, k, cp, ws) {
      DescendsUnder(S, k, cp, ws);
      RebaseUnder(O[k].path, q, np);
      RebaseChild(q, NameOf(cp), np);
      MovedNotBelowChild(S[k].path, q, np, cp);
    }
  }

  /** A record that the cascade changed so far, child c included, is a moved
      child or in the sub-tree of one. */
  lemma DeepChanged(O: map<Handle, NodeData>, S: map<Handle, NodeData>, T: map<Handle, NodeData>,
                    h: Handle, q: string, ws: string, np: string, done: seq<Handle>, c: Handle, k: Handle)
    requires StepContext(O, S, T, h, q, ws, np, done, c) && AllWellFormed(S)
    requires DeepCascade(O, S, q, ws, np, done)
    requires SubtreeMoved(S, T, c, O[c].path, ws, ChildPath(np, NameOf(O[c].path)))
    requires k in O && T[k] != O[k]
    ensures WithinDone(O, k, ws, done + [c])
  {
    var cp := O[c].path;
    if S[k] != O[k] {
      WithinDoneGrows(O, k, ws, done, c);
    } else {
      if k != c {
        assert Descends(S, k, cp, ws);
        StepBelowChildKept(O, S, T, h, q, ws, np, done, c);
        assert WellFormed(O[c]);
        DescendsBack(S, O, k, cp, ws);
      }
      WithinDoneLast(O, k, ws, done, c);
    }
  }

  lemma WithinDoneGrows(O: map<Handle, NodeData>, k: Handle, ws: string, done: seq<Handle>, c: Handle)
    requires WithinDone(O, k, ws, done)
    ensures WithinDone(O, k, ws, done + [c])
  {
    var j :| 0 <= j < |done| && done[j] in O && (k == done[j] || Descends(O, k, O[done[j]].path, ws));
    assert (done + [c])[j] == done[j];
  }

  lemma WithinDoneLast(O: map<Handle, NodeData>, k: Handle, ws: string, done: seq<Handle>, c: Handle)
    requires c in O && (k == c || Descends(O, k, O[c].path, ws))
    ensures WithinDone(O, k, ws, done + [c])
  {
    assert (done + [c])[|done|] == c;
  }

  /** A record in the sub-tree of child c has its rebased path once c moved. */
  lemma DeepMovedChild(O: map<Handle, NodeData>, S: map<Handle, NodeData>, T: map<Handle, NodeData>,
                       h: Handle, q: string, ws: string, np: string, done: seq<Handle>, c: Handle, k: Handle)
    requires StepContext(O, S, T, h, q, ws, np, done, c) && AllWellFormed(S)
    requires DeepCascade(O, S, q, ws, np, done)
    requires SubtreeMoved(S, T, c, O[c].path, ws, ChildPath(np, NameOf(O[c].path)))
    requires Descends(O, k, O[c].path, ws)
    ensures IsUnder(O[k].path, q) && T[k] == WithPath(O[k], Rebase(O[k].path, q, np))
  {
    if S[k] != O[k] {
      DeepMovedEarlier(O, S, T, h, q, ws, np, done, c, k);
    } else {
      DeepMovedNow(O, S, T, h, q, ws, np, done, c, k);
    }
  }

  /** The case of a record that an earlier child's move already rebased. */
  lemma DeepMovedEarlier(O: map<Handle, NodeData>, S: map<Handle, NodeData>, T: map<Handle, NodeData>,
                         h: Handle, q: string, ws: string, np: string, done: seq<Handle>, c: Handle, k: Handle)
    requires StepContext(O, S, T, h, q, ws, np, done, c) && AllWellFormed(S)
    requires DeepCascade(O, S, q, ws, np, done)
    requires SubtreeMoved(S, T, c, O[c].path, ws, ChildPath(np, NameOf(O[c].path)))
    requires Descends(O, k, O[c].path, ws) && S[k] != O[k]
    ensures IsUnder(O[k].path, q) && T[k] == WithPath(O[k], Rebase(O[k].path, q, np))
  {
    var j :| 0 <= j < |done| && done[j] in O && (k == done[j] || Descends(O, k, O[done[j]].path, ws));
    if k == done[j] {
      var cp := O[c].path;
      assert WellFormed(O[k]);
      DescendsUnder(O, k, cp, ws);
      RebaseChild(q, NameOf(cp), np);
      GrandchildNotChild(O[k].path, cp, q);
    } else {
      DeepDoneKept(O, S, T, h, q, ws, np, done, c, j, k);
    }
  }

  /** The case of a record that S still holds as in O. */
  lemma DeepMovedNow(O: map<Handle, NodeData>, S: map<Handle, NodeData>, T: map<Handle, NodeData>,
                     h: Handle, q: string, ws: string, np: string, done: seq<Handle>, c: Handle, k: Handle)
    requires StepContext(O, S, T, h, q, ws, np, done, c) && AllWellFormed(S)
    requires DeepCascade(O, S, q, ws, np, done)
    requires SubtreeMoved(S, T, c, O[c].path, ws, ChildPath(np, NameOf(O[c].path)))
    requires Descends(O, k, O[c].path, ws) && S[k] == O[k]
    ensures IsUnder(O[k].path, q) && T[k] == WithPath(O[k], Rebase(O[k].path, q, np))
  {
    var cp := O[c].path;
    DescendsKept(O, S, k, cp, ws);
    if Descends(S, k, cp, ws) {
      assert T[k] == WithPath(S[k], Rebase(S[k].path, cp, ChildPath(np, NameOf(cp))));
      assert WellFormed(O[c]);
      DescendsUnder(O, k, cp, ws);
      RebaseViaChild(O[k].path, cp, q, np);
    } else {
      var i :| i in O && O[i].workspace.name == ws && (i !in S || S[i] != O[i]) && Descends(O, k, O[i].path, ws);
      DeepBelowEarlier(O, S, T, h, q, ws, np, done, c, i, k);
    }
  }

  /** The case of a record below one that an earlier child's move changed. */
  lemma DeepBelowEarlier(O: map<Handle, NodeData>, S: map<Handle, NodeData>, T: map<Handle, NodeData>,
                         h: Handle, q: string, ws: string, np: string, done: seq<Handle>, c: Handle, i: Handle, k: Handle)
    requires StepContext(O, S, T, h, q, ws, np, done, c) && AllWellFormed(S)
    requires DeepCascade(O, S, q, ws, np, done)
    requires SubtreeMoved(S, T, c, O[c].path, ws, ChildPath(np, NameOf(O[c].path)))
    requires i in O && S[i] != O[i] && Descends(O, k, O[i].path, ws)
    ensures IsUnder(O[k].path, q) && T[k] == WithPath(O[k], Rebase(O[k].path, q, np))
  {
    var j :| 0 <= j < |done| && done[j] in O && (i == done[j] || Descends(O, i, O[done[j]].path, ws));
    if i != done[j] {
      DescendsTrans(O, k, i, O[done[j]].path, ws);
    }
    DeepDoneKept(O, S, T, h, q, ws, np, done, c, j, k);
  }

  /** Every record changed so far is a moved child or in the sub-tree of one. */
  lemma DeepChangedAll(O: map<Handle, NodeData>, S: map<Handle, NodeData>, T: map<Handle, NodeData>,
                       h: Handle, q: string, ws: string, np: string, done: seq<Handle>, c: Handle)
    requires StepContext(O, S, T, h, q, ws, np, done, c) && AllWellFormed(S)
    requires DeepCascade(O, S, q, ws, np, done)
    requires SubtreeMoved(S, T, c, O[c].path, ws, ChildPath(np, NameOf(O[c].path)))
    ensures forall k :: k in O && T[k] != O[k] ==> WithinDone(O, k, ws, done + [c])
  {
    forall k | k in O && T[k] != O[k]
      ensures WithinDone(O, k, ws, done + [c])
    {
      DeepChanged(O, S, T, h, q, ws, np, done, c, k);
    }
  }

  /** Every record in the sub-tree of a moved child, c included, is rebased. */
  lemma DeepRebasedAll(O: map<Handle, NodeData>, S: map<Handle, NodeData>, T: map<Handle, NodeData>,
                       h: Handle, q: string, ws: string, np: string, done: seq<Handle>, c: Handle)
    requires StepContext(O, S, T, h, q, ws, np, done, c) && AllWellFormed(S)
    requires DeepCascade(O, S, q, ws, np, done)
    requires SubtreeMoved(S, T, c, O[c].path, ws, ChildPath(np, NameOf(O[c].path)))
    ensures RebasedBelowDone(O, T, q, ws, np, done + [c])
  {
    var nd := done + [c];
    forall j, k | 0 <= j < |nd| && nd[j] in O && Descends(O, k, O[nd[j]].path, ws)
      ensures IsUnder(O[k].path, q) && T[k] == WithPath(O[k], Rebase(O[k].path, q, np))
    {
      DeepRebasedOne(O, S, T, h, q, ws, np, done, c, j, k);
    }
  }

  lemma DeepRebasedOne(O: map<Handle, NodeData>, S: map<Handle, NodeData>, T: map<Handle, NodeData>,
                       h: Handle, q: string, ws: string, np: string, done: seq<Handle>, c: Handle, j: int, k: Handle)
    requires StepContext(O, S, T, h, q, ws, np, done, c) && AllWellFormed(S)
    requires DeepCascade(O, S, q, ws, np, done)
    requires SubtreeMoved(S, T, c, O[c].path, ws, ChildPath(np, NameOf(O[c].path)))
    requires 0 <= j <= |done| && (done + [c])[j] in O && Descends(O, k, O[(done + [c])[j]].path, ws)
    ensures IsUnder(O[k].path, q) && T[k] == WithPath(O[k], Rebase(O[k].path, q, np))
  {
    if j < |done| {
      assert (done + [c])[j] == done[j];
      DeepDoneKept(O, S, T, h, q, ws, np, done, c, j, k);
    } else {
      DeepMovedChild(O, S, T, h, q, ws, np, done, c, k);
    }
  }

  /** The deep part of the cascade survives the move of child c. */
  lemma DeepStep(O: map<Handle, NodeData>, S: map<Handle, NodeData>, T: map<Handle, NodeData>,
                 h: Handle, q: string, ws: string, np: string, done: seq<Handle>, c: Handle)
    requires StepContext(O, S, T, h, q, ws, np, done, c) && AllWellFormed(S)
    requires DeepCascade(O, S, q, ws, np, done)
    requires SubtreeMoved(S, T, c, O[c].path, ws, ChildPath(np, NameOf(O[c].path)))
    ensures DeepCascade(O, T, q, ws, np, done + [c])
  {
    DeepChangedAll(O, S, T, h, q, ws, np, done, c);
    DeepRebasedAll(O, S, T, h, q, ws, np, done, c);
  }

  /** Once every child moved and h took its new path, the whole sub-tree has moved. */
  lemma FinishDeep(O: map<Handle, NodeData>, S: map<Handle, NodeData>, U: map<Handle, NodeData>,
                   h: Handle, q: string, ws: string, np: string, children: seq<Handle>)
    requires AllWellFormed(O) && ValidPath(q)
    requires Cascade(O, S, h, q, ws, np, children) && DeepCascade(O, S, q, ws, np, children)
    requires forall k :: (k in O && O[k].parentPath == q && O[k].workspace.name == ws) ==> k in children
    requires U == S[h := WithPath(S[h], np)]
    ensures SubtreeMoved(O, U, h, q, ws, np)
  {
    forall k | Descends(O, k, q, ws)
      ensures IsUnder(O[k].path, q) && U[k] == WithPath(O[k], Rebase(O[k].path, q, np))
    {
      FinishDescendant(O, S, U, h, q, ws, np, children, k);
    }
    forall k | k in O && k != h && U[k] != O[k]
      ensures Descends(O, k, q, ws)
    {
      assert WithinDone(O, k, ws, children);
      WithinChildren(O, k, q, ws, children);
    }
  }

  /** A record in the sub-tree of one of q's children is in the sub-tree of q. */
  lemma WithinChildren(O: map<Handle, NodeData>, k: Handle, q: string, ws: string, children: seq<Handle>)
    requires AllWellFormed(O) && WithinDone(O, k, ws, children)
    requires forall j :: 0 <= j < |children| ==>
      children[j] in O && O[children[j]].parentPath == q && O[children[j]].workspace.name == ws
    ensures Descends(O, k, q, ws)
  {
    var j :| 0 <= j < |children| && children[j] in O &&
      (k == children[j] || Descends(O, k, O[children[j]].path, ws));
    ChildDescends(O, children[j], q, ws);
    if k != children[j] {
      DescendsTrans(O, k, children[j], q, ws);
    }
  }

  lemma FinishDescendant(O: map<Handle, NodeData>, S: map<Handle, NodeData>, U: map<Handle, NodeData>,
                         h: Handle, q: string, ws: string, np: string, children: seq<Handle>, k: Handle)
    requires AllWellFormed(O) && ValidPath(q)
    requires Cascade(O, S, h, q, ws, np, children) && DeepCascade(O, S, q, ws, np, children)
    requires forall k :: (k in O && O[k].parentPath == q && O[k].workspace.name == ws) ==> k in children
    requires U == S[h := WithPath(S[h], np)]
    requires Descends(O, k, q, ws)
    ensures IsUnder(O[k].path, q) && U[k] == WithPath(O[k], Rebase(O[k].path, q, np))
  {
    DescendsUnder(O, k, q, ws);
    assert k != h;
    DescendsSplit(O, k, q, ws);
    if O[k].parentPath == q {
      var j :| 0 <= j < |children| && children[j] == k;
      assert WellFormed(O[k]);
      ChildIsUnder(O[k].path);
    } else {
      var c :| c in O && O[c].workspace.name == ws && O[c].parentPath == q && Descends(O, k, O[c].path, ws);
      var j :| 0 <= j < |children| && children[j] == c;
      assert RebasedBelowDone(O, S, q, ws, np, children);
    }
  }

  /** Every record of workspace ws below q has a path of at most `bound` characters. */
  ghost predicate PathsBounded(rows: map<Handle, NodeData>, q: string, ws: string, bound: nat)
  {
    forall k :: (k in rows && IsUnder(rows[k].path, q) && rows[k].workspace.name == ws) ==> |rows[k].path| <= bound
  }

  /** The next child c of the cascade satisfies what moving its own sub-tree needs. */
  lemma PrepareChild(O: map<Handle, NodeData>, S: map<Handle, NodeData>,
                     h: Handle, q: string, ws: string, np: string, done: seq<Handle>, c: Handle, bound: nat)
    requires AllWellFormed(O) && ValidPath(q) && ValidPath(np) && Disjoint(np, q)
    requires Cascade(O, S, h, q, ws, np, done) && PathsBounded(O, q, ws, bound)
    requires c in O && O[c].parentPath == q && O[c].workspace.name == ws && c !in done
    ensures c != h && S[c] == O[c] && S[c].path != "/" && |q| < |S[c].path| <= bound
    ensures ValidName(NameOf(O[c].path)) && O[c].path == ChildPath(q, NameOf(O[c].path))
    ensures ValidPath(ChildPath(np, NameOf(O[c].path)))
    ensures Disjoint(ChildPath(np, NameOf(O[c].path)), O[c].path)
    ensures PathsBounded(S, O[c].path, ws, bound)
  {
    var cp := O[c].path;
    ParentPathShorter(q);
    ChildIsUnder(cp);
    Decompose(cp);
    ChildPathFacts(np, NameOf(cp));
    DisjointChildren(np, q, NameOf(cp));
    forall k | k in S && IsUnder(S[k].path, cp) && S[k].workspace.name == ws
      ensures |S[k].path| <= bound
    {
      if S[k] != O[k] {
        RebaseUnder(O[k].path, q, np);
        MovedNotBelowChild(S[k].path, q, np, cp);
      } else {
        UnderChildUnder(O[k].path, cp, q);
      }
    }
  }

  /** After all children were moved, updating h itself completes the move. */
  lemma FinishCascade(O: map<Handle, NodeData>, S: map<Handle, NodeData>,
                      U: map<Handle, NodeData>, h: Handle, q: string, ws: string, np: string, children: seq<Handle>)
    requires Cascade(O, S, h, q, ws, np, children)
    requires forall k :: (k in O && O[k].parentPath == q && O[k].workspace.name == ws) ==> k in children
    requires U == S[h := WithPath(S[h], np)]
    ensures U.Keys == O.Keys && U[h] == WithPath(O[h], np)
    ensures Moved(O, U, h, q, ws, np)
    ensures forall k :: (k in O && k != h && O[k].parentPath == q && O[k].workspace.name == ws) ==>
      U[k] == WithPath(O[k], ChildPath(np, NameOf(O[k].path)))
  {
    forall k | k in O && k != h && O[k].parentPath == q && O[k].workspace.name == ws
      ensures U[k] == WithPath(O[k], ChildPath(np, NameOf(O[k].path)))
    {
      var j :| 0 <= j < |children| && children[j] == k;
    }
  }

  lemma SliceNext(s: seq<Handle>, i: int)
    requires 0 <= i < |s| && forall a, b :: 0 <= a < b < |s| ==> s[a] != s[b]
    ensures s[..i + 1] == s[..i] + [s[i]] && s[i] !in s[..i]
  {
    assert s[..i + 1] == s[..i] + [s[i]];
    forall j | 0 <= j < i ensures s[..i][j] != s[i] {
      assert s[..i][j] == s[j];
    }
  }

  /** getChildNodeData: the handles of the records in workspace ws whose parent
      path is q, each listed once. */
  method GetChildNodeData(store: Store, q: string, ws: string) returns (cs: seq<Handle>)
    requires store.Valid()
    ensures forall k :: k in cs <==> k in store.rows && store.rows[k].parentPath == q && store.rows[k].workspace.name == ws
    ensures forall i, j :: 0 <= i < j < |cs| ==> cs[i] != cs[j]
  {
    cs := store.FindAll(ChildOf(q, ws));
  }

  /** setPath(np) with the recursive cascade: every child record (same parent
      path, same workspace) is moved first, then this record. */
  /** One step of the cascade: moves the sub-tree of child c of q below np. */
  method MoveChild(store: Store, ghost O: map<Handle, NodeData>, h: Handle, q: string, ws: string, np: string,
                   ghost done: seq<Handle>, c: Handle, ghost bound: nat)
    requires Good(store) && AllWellFormed(O) && ValidPath(q) && ValidPath(np) && Disjoint(np, q)
    requires |q| <= bound && Cascade(O, store.rows, h, q, ws, np, done) && PathsBounded(O, q, ws, bound)
    requires c in O && O[c].parentPath == q && O[c].workspace.name == ws && c !in done
    requires DeepCascade(O, store.rows, q, ws, np, done)
    modifies store
    decreases bound - |q|, 0, 0
    ensures Good(store) && store.next == old(store.next)
    ensures Cascade(O, store.rows, h, q, ws, np, done + [c])
    ensures DeepCascade(O, store.rows, q, ws, np, done + [c])
  {
    ghost var S := store.rows;
    PrepareChild(O, S, h, q, ws, np, done, c, bound);
    var cp := store.rows[c].path;
    MoveTree(store, c, ChildPath(np, NameOf(cp)), bound);
    CascadeStep(O, S, store.rows, h, q, ws, np, done, c);
    DeepStep(O, S, store.rows, h, q, ws, np, done, c);
  }

  method MoveTree(store: Store, h: Handle, np: string, ghost bound: nat)
    requires Good(store) && h in store.rows
    requires ValidPath(np) && Disjoint(np, store.rows[h].path)
    requires |store.rows[h].path| <= bound
    requires PathsBounded(store.rows, store.rows[h].path, store.rows[h].workspace.name, bound)
    modifies store
    decreases bound - |store.rows[h].path|, 1, 0
    ensures Good(store) && store.next == old(store.next) && store.rows.Keys == old(store.rows).Keys
    ensures store.rows[h] == WithPath(old(store.rows[h]), np)
    ensures Moved(old(store.rows), store.rows, h, old(store.rows[h].path), old(store.rows[h].workspace.name), np)
    ensures forall k ::
      (k in old(store.rows) && k != h && old(store.rows[k]).parentPath == old(store.rows[h].path) &&
       old(store.rows[k]).workspace.name == old(store.rows[h].workspace.name)) ==>
        store.rows[k] == WithPath(old(store.rows[k]), ChildPath(np, NameOf(old(store.rows[k]).path)))
    ensures SubtreeMoved(old(store.rows), store.rows, h, old(store.rows[h].path), old(store.rows[h].workspace.name), np)
  {
    ghost var O := store.rows;
    var q := store.rows[h].path;
    var ws := store.rows[h].workspace.name;
    var children := GetChildNodeData(store, q, ws);
    MoveChildren(store, h, q, ws, np, children, bound);
    MoveSelf(store, O, h, q, ws, np, children);
  }

  /** The loop of setPath's cascade over the children of the record h at q. */
  method MoveChildren(store: Store, h: Handle, q: string, ws: string, np: string, children: seq<Handle>, ghost bound: nat)
    requires Good(store) && h in store.rows && store.rows[h].path == q && store.rows[h].workspace.name == ws
    requires ValidPath(np) && Disjoint(np, q) && |q| <= bound && PathsBounded(store.rows, q, ws, bound)
    requires forall k :: k in children ==>
      k in store.rows && store.rows[k].parentPath == q && store.rows[k].workspace.name == ws
    requires forall i, j :: 0 <= i < j < |children| ==> children[i] != children[j]
    modifies store
    decreases bound - |q|, 0, 1
    ensures Good(store) && store.next == old(store.next)
    ensures Cascade(old(store.rows), store.rows, h, q, ws, np, children)
    ensures DeepCascade(old(store.rows), store.rows, q, ws, np, children)
  {
    ghost var O := store.rows;
    assert ValidPath(q) by { assert WellFormed(O[h]); }
    var i := 0;
    ghost var done: seq<Handle> := [];
    while i < |children|
      invariant 0 <= i <= |children| && done == children[..i]
      invariant Good(store) && store.next == old(store.next)
      invariant Cascade(O, store.rows, h, q, ws, np, done)
      invariant DeepCascade(O, store.rows, q, ws, np, done)
    {
      var c := children[i];
      assert c in children;
      SliceNext(children, i);
      MoveChild(store, O, h, q, ws, np, done, c, bound);
      done := done + [c];
      i := i + 1;
    }
    assert done == children;
  }

  /** The last step of setPath's cascade: the record itself moves to np. */
  method MoveSelf(store: Store, ghost O: map<Handle, NodeData>, h: Handle, q: string, ws: string, np: string,
                  ghost children: seq<Handle>)
    requires Good(store) && h in store.rows && ValidPath(np) && Cascade(O, store.rows, h, q, ws, np, children)
    requires AllWellFormed(O) && ValidPath(q) && DeepCascade(O, store.rows, q, ws, np, children)
    requires forall k :: (k in O && O[k].parentPath == q && O[k].workspace.name == ws) ==> k in children
    modifies store
    ensures Good(store) && store.next == old(store.next)
    ensures store.rows.Keys == O.Keys && store.rows[h] == WithPath(O[h], np) && Moved(O, store.rows, h, q, ws, np)
    ensures forall k :: (k in O && k != h && O[k].parentPath == q && O[k].workspace.name == ws) ==>
      store.rows[k] == WithPath(O[k], ChildPath(np, NameOf(O[k].path)))
    ensures SubtreeMoved(O, store.rows, h, q, ws, np)
  {
    ghost var T := store.rows;
    var moved := WithPath(store.rows[h], np);
    FinishCascade(O, T, T[h := moved], h, q, ws, np, children);
    FinishDeep(O, T, T[h := moved], h, q, ws, np, children);
    WithPathWellFormed(store.rows[h], np);
    UpdateKeepsWellFormed(T, h, moved);
    store.Update(h, moved);
  }

  /** setPath(np, recursive). */
  method SetPath(store: Store, h: Handle, np: string, recursive: bool) returns (o: Outcome<NodeError>)
    requires Good(store) && h in store.rows
    requires recursive && ValidPath(np) && np != store.rows[h].path ==> Disjoint(np, store.rows[h].path)
    modifies store
    ensures Good(store) && store.next == old(store.next) && store.rows.Keys == old(store.rows).Keys
    ensures o == (if ValidPath(np) then Pass else Fail(InvalidPath(np)))
    ensures !ValidPath(np) || np == old(store.rows[h].path) ==> store.rows == old(store.rows)
    ensures ValidPath(np) ==> store.rows[h] == WithPath(old(store.rows[h]), np) || np == old(store.rows[h].path)
    ensures ValidPath(np) && !recursive && np != old(store.rows[h].path) ==>
      store.rows == old(store.rows)[h := WithPath(old(store.rows[h]), np)]
    ensures recursive && ValidPath(np) ==>
      Moved(old(store.rows), store.rows, h, old(store.rows[h].path), old(store.rows[h].workspace.name), np)
    ensures recursive && ValidPath(np) && np != old(store.rows[h].path) ==>
      forall k ::
        (k in old(store.rows) && k != h && old(store.rows[k]).parentPath == old(store.rows[h].path) &&
         old(store.rows[k]).workspace.name == old(store.rows[h].workspace.name)) ==>
          store.rows[k] == WithPath(old(store.rows[k]), ChildPath(np, NameOf(old(store.rows[k]).path)))
    ensures recursive && ValidPath(np) && np != old(store.rows[h].path) ==>
      SubtreeMoved(old(store.rows), store.rows, h, old(store.rows[h].path), old(store.rows[h].workspace.name), np)
  {
    if !ValidPath(np) {
      return Fail(InvalidPath(np));
    }
    if np == store.rows[h].path {
      return Pass;
    }
    if recursive {
      ghost var bound := MaxPathLength(store.rows, store.next);
      MoveTree(store, h, np, bound);
    } else {
      WithPathWellFormed(store.rows[h], np);
      store.Update(h, WithPath(store.rows[h], np));
    }
    return Pass;
  }

  // ---------------------------------------------------------------------
  // Depth cache, workspace and index
  // ---------------------------------------------------------------------

  /** getDepth: computes the depth on first use and caches it. */
  method GetDepth(store: Store, h: Handle) returns (d: nat)
    requires Good(store) && h in store.rows
    modifies store
    ensures Good(store) && store.next == old(store.next)
    ensures d == DepthOf(old(store.rows[h]).path)
    ensures store.rows == old(store.rows)[h := old(store.rows[h]).(depth := Some(d))]
  {
    var n := store.rows[h];
    if n.depth.None? {
      d := if n.path == "/" then 0 else Count(n.path, '/');
    } else {
      d := n.depth.value;
    }
    store.Update(h, n.(depth := Some(d)));
  }

  method SetWorkspace(store: Store, h: Handle, ws: Workspace)
    requires Good(store) && h in store.rows
    modifies store
    ensures Good(store) && store.next == old(store.next)
    ensures store.rows == old(store.rows)[h := old(store.rows[h]).(workspace := ws)]
  {
    if store.rows[h].workspace != ws {
      store.Update(h, store.rows[h].(workspace := ws));
    }
  }

  method SetIndex(store: Store, h: Handle, index: int)
    requires Good(store) && h in store.rows
    modifies store
    ensures Good(store) && store.next == old(store.next)
    ensures store.rows == old(store.rows)[h := old(store.rows[h]).(index := Some(index))]
  {
    if store.rows[h].index != Some(index) {
      store.Update(h, store.rows[h].(index := Some(index)));
    }
  }

  // ---------------------------------------------------------------------
  // Lookup relative to a record
  // ---------------------------------------------------------------------

  /** What getNode(p) finds from a record at `base` in workspace ws. */
  function NodeLookup(rows: map<Handle, NodeData>, next: nat, base: string, ws: string, p: string): Result<Option<Handle>, NodeError>
  {
    match Normalized(base, p)
    case Failure(e) => Failure(InvalidNodePath(e))
    case Success(q) => Success(FirstMatch(rows, AtPath(q, ws, None), 0, next))
  }

  /** getNode(p): the record at the normalized path in this record's workspace
      (any dimensions). */
  method GetNode(store: Store, h: Handle, p: string) returns (r: Result<Option<Handle>, NodeError>)
    requires Good(store) && h in store.rows
    ensures r == NodeLookup(store.rows, store.next, store.rows[h].path, store.rows[h].workspace.name, p)
  {
    var q := NormalizePath(store.rows[h].path, p);
    if q.Failure? {
      return Failure(InvalidNodePath(q.error));
    }
    var found := store.FindFirst(AtPath(q.value, store.rows[h].workspace.name, None));
    return Success(found);
  }

  /** A relative name finds the child of this record with that name. */
  lemma LookupChildName(rows: map<Handle, NodeData>, next: nat, base: string, ws: string, n: string)
    requires ValidPath(base) && ValidName(n)
    ensures NodeLookup(rows, next, base, ws, n) == Success(FirstMatch(rows, AtPath(ChildPath(base, n), ws, None), 0, next))
  {
    NormalizeName(base, n);
  }

  // ---------------------------------------------------------------------
  // Creation
  // ---------------------------------------------------------------------

  /** Old records stay as they were (new ones may have been added). */
  ghost predicate Grows(O: map<Handle, NodeData>, R: map<Handle, NodeData>)
  {
    forall k :: k in O ==> k in R && R[k] == O[k]
  }

  /** The index for a record appended after all its siblings: one more than the
      largest sibling index, or 1 when no sibling has one. */
  method NextSiblingIndex(store: Store, parentPath: string, ws: string) returns (idx: int)
    requires store.Valid()
    ensures AfterSiblings(store.rows, parentPath, ws, Some(idx))
    ensures idx == 1 || exists k :: (k in store.rows && store.rows[k].parentPath == parentPath &&
      store.rows[k].workspace.name == ws && store.rows[k].index == Some(idx - 1))
  {
    var siblings := GetChildNodeData(store, parentPath, ws);
    idx := 1;
    var i := 0;
    while i < |siblings|
      invariant 0 <= i <= |siblings|
      invariant forall j :: 0 <= j < i && store.rows[siblings[j]].index.Some? ==> store.rows[siblings[j]].index.value < idx
      invariant idx == 1 || exists j :: 0 <= j < i && store.rows[siblings[j]].index == Some(idx - 1)
    {
      assert siblings[i] in siblings;
      var index := store.rows[siblings[i]].index;
      if index.Some? && index.value >= idx {
        idx := index.value + 1;
      }
      i := i + 1;
    }
    forall k | k in store.rows && store.rows[k].parentPath == parentPath &&
      store.rows[k].workspace.name == ws && store.rows[k].index.Some?
      ensures store.rows[k].index.value < idx
    {
      assert k in siblings;
      var j :| 0 <= j < |siblings| && siblings[j] == k;
    }
    if idx != 1 {
      var j :| 0 <= j < |siblings| && store.rows[siblings[j]].index == Some(idx - 1);
      assert siblings[j] in siblings;
    }
  }

  /** Some record matches findOneByPath(path, ws, dims). */
  ghost predicate PathTaken(O: map<Handle, NodeData>, path: string, ws: string, dims: Option<seq<DimensionEntry>>)
  {
    exists k :: k in O && AtPath(path, ws, dims)(O[k])
  }

  /** h is a new record at path in ws holding the given content. */
  ghost predicate Made(O: map<Handle, NodeData>, R: map<Handle, NodeData>, h: Handle, path: string, ws: Workspace, content: NodeContent)
  {
    h !in O && h in R && R[h].path == path && R[h].workspace == ws && R[h].content == content
  }

  /** The remaining fields createSingleNode gives the new record. */
  ghost predicate SingleFields(n: NodeData, parentPath: string, id: string, dims: Option<seq<DimensionEntry>>)
  {
    n.parentPath == parentPath && n.identifier == id && !n.removed &&
    n.dimensions == (if dims.Some? then Flatten(dims.value) else [])
  }

  /** The index comes after the index of every sibling in ws below parentPath. */
  ghost predicate AfterSiblings(O: map<Handle, NodeData>, parentPath: string, ws: string, index: Option<int>)
  {
    index.Some? &&
    forall k :: (k in O && O[k].parentPath == parentPath && O[k].workspace.name == ws && O[k].index.Some?) ==>
      O[k].index.value < index.value
  }

  /** The record createSingleNode added under handle h, below P and named
      name, is in R with its content, identifier, dimensions and an index after
      its siblings in O; later steps of createNode leave it so. */
  ghost predicate CreatedAt(O: map<Handle, NodeData>, R: map<Handle, NodeData>, h: Handle, P: NodeData, name: string,
                            ws: Workspace, content: NodeContent, id: string, dims: Option<seq<DimensionEntry>>)
  {
    Made(O, R, h, ChildPath(P.path, name), ws, content) &&
    SingleFields(R[h], P.path, id, dims) && AfterSiblings(O, P.path, ws.name, R[h].index)
  }

  /** Every child node the type creates automatically exists below path in ws. */
  ghost predicate AutoChildrenExist(R: map<Handle, NodeData>, path: string, ws: string, nt: NodeType)
  {
    forall i :: 0 <= i < |nt.autoCreated| ==> ChildExists(R, path, ws, nt.autoCreated[i].name)
  }

  /** findOneByPath(path, ws, dims) !== NULL */
  method PathIsTaken(store: Store, path: string, ws: string, dims: Option<seq<DimensionEntry>>) returns (b: bool)
    requires store.Valid()
    ensures b == PathTaken(store.rows, path, ws, dims)
  {
    var found := store.FindFirst(AtPath(path, ws, dims));
    b := found.Some?;
  }

  /** The record createSingleNode adds: a new record at the child path, placed
      at `index`, with the node type set. */
  function SingleRecord(P: NodeData, name: string, ws: Workspace, id: string, dims: Option<seq<DimensionEntry>>,
                        nodeType: Option<string>, index: int): (n: NodeData)
    requires WellFormed(P) && ValidName(name)
    ensures WellFormed(n) && n.path == ChildPath(P.path, name) && n.workspace == ws
    ensures n.content == EmptyContent.(nodeType := nodeType) && n.index == Some(index)
    ensures SingleFields(n, P.path, id, dims)
  {
    ChildPathFacts(P.path, name);
    NewNodeData(ChildPath(P.path, name), ws, id, dims).value.(index := Some(index), content := EmptyContent.(nodeType := nodeType))
  }

  lemma AddKeepsWellFormed(O: map<Handle, NodeData>, h: Handle, n: NodeData)
    requires AllWellFormed(O) && WellFormed(n) && h !in O
    ensures AllWellFormed(O[h := n]) && Grows(O, O[h := n])
  {
  }

  lemma GrowsTrans(A: map<Handle, NodeData>, B: map<Handle, NodeData>, C: map<Handle, NodeData>)
    requires Grows(A, B) && Grows(B, C)
    ensures Grows(A, C)
  {
  }

  lemma GrowsFresh(A: map<Handle, NodeData>, B: map<Handle, NodeData>, h: Handle, n: NodeData)
    requires Grows(A, B) && h !in A
    ensures Grows(A, B[h := n])
  {
  }

  lemma UpdateKeepsWellFormed(O: map<Handle, NodeData>, h: Handle, n: NodeData)
    requires AllWellFormed(O) && WellFormed(n)
    ensures AllWellFormed(O[h := n])
  {
  }

  /** createSingleNode: checks the name, refuses an existing (path, workspace,
      dimensions) and adds the new record after its siblings. */
  method CreateSingleNode(store: Store, ids: IdentifierSource, parent: Handle, name: string, nodeType: Option<string>,
                          identifier: Option<string>, workspace: Option<Workspace>, dims: Option<seq<DimensionEntry>>)
    returns (r: Result<Handle, NodeError>)
    requires Good(store) && parent in store.rows
    modifies store, ids
    ensures Good(store) && Grows(old(store.rows), store.rows)
    ensures var P := old(store.rows[parent]);
      var ws := if workspace.Some? then workspace.value else P.workspace;
      var path := ChildPath(P.path, name);
      (r.Failure? <==> !ValidName(name) || PathTaken(old(store.rows), path, ws.name, dims)) &&
      (!ValidName(name) ==> r == Failure(InvalidNodeName(name))) &&
      (ValidName(name) && r.Failure? ==> r == Failure(NodeExists(path)))
    ensures r.Failure? ==> store.rows == old(store.rows) && store.next == old(store.next) && ids.issued == old(ids.issued)
    ensures var P := old(store.rows[parent]);
      var ws := if workspace.Some? then workspace.value else P.workspace;
      r.Success? ==>
        r.value == old(store.next) && store.next == old(store.next) + 1 &&
        ids.issued == old(ids.issued) + (if identifier.None? then 1 else 0) &&
        Made(old(store.rows), store.rows, r.value, ChildPath(P.path, name), ws, EmptyContent.(nodeType := nodeType)) &&
        store.rows == old(store.rows)[r.value := store.rows[r.value]] &&
        SingleFields(store.rows[r.value], P.path,
          if identifier.Some? then identifier.value else GeneratedIdentifier(old(ids.issued)), dims) &&
        AfterSiblings(old(store.rows), P.path, ws.name, store.rows[r.value].index)
  {
    if !ValidName(name) {
      return Failure(InvalidNodeName(name));
    }
    var P := store.rows[parent];
    var ws := if workspace.Some? then workspace.value else P.workspace;
    var path := ChildPath(P.path, name);
    var existing := PathIsTaken(store, path, ws.name, dims);
    if existing {
      return Failure(NodeExists(path));
    }
    var id: string;
    if identifier.Some? {
      id := identifier.value;
    } else {
      id := ids.Generate();
    }
    var index := NextSiblingIndex(store, P.path, ws.name);
    var n := SingleRecord(P, name, ws, id, dims, nodeType, index);
    ghost var O := store.rows;
    var h := store.Add(n);
    AddKeepsWellFormed(O, h, n);
    r := Success(h);
  }

  datatype NodeType = NodeType(name: string, defaults: map<string, Value>, autoCreated: seq<AutoChild>)

  /** A child node a node type creates automatically, by name. */
  datatype AutoChild = AutoChild(name: string, nodeType: NodeType)

  /** A record named n exists below `path` in workspace ws. */
  ghost predicate ChildExists(rows: map<Handle, NodeData>, path: string, ws: string, n: string)
  {
    exists k :: k in rows && rows[k].path == ChildPath(path, n) && rows[k].workspace.name == ws
  }

  lemma ChildrenGrow(O: map<Handle, NodeData>, R: map<Handle, NodeData>, path: string, ws: string, nt: NodeType, i: int)
    requires 0 <= i < |nt.autoCreated| && Grows(O, R)
    requires forall j :: 0 <= j < i ==> ChildExists(O, path, ws, nt.autoCreated[j].name)
    requires ChildExists(R, path, ws, nt.autoCreated[i].name)
    ensures forall j :: 0 <= j <= i ==> ChildExists(R, path, ws, nt.autoCreated[j].name)
  {
    forall j | 0 <= j < i ensures ChildExists(R, path, ws, nt.autoCreated[j].name) {
      assert ChildExists(O, path, ws, nt.autoCreated[j].name);
      var k :| k in O && O[k].path == ChildPath(path, nt.autoCreated[j].name) && O[k].workspace.name == ws;
      assert R[k] == O[k];
    }
  }

  /** The content a freshly created record of the given type holds. */
  function CreatedContent(nodeType: Option<NodeType>): NodeContent
  {
    if nodeType.Some? then EmptyContent.(nodeType := Some(nodeType.value.name), properties := nodeType.value.defaults)
    else EmptyContent
  }

  /** The second loop of createNode: the node type's auto-created child nodes
      below h, each created with its own type. The first failure ends the loop
      and leaves the children created so far. */
  method CreateAutoChildren(store: Store, ids: IdentifierSource, h: Handle, nt: NodeType,
                            workspace: Option<Workspace>, dims: Option<seq<DimensionEntry>>)
    returns (o: Outcome<NodeError>)
    requires Good(store) && h in store.rows
    modifies store, ids
    decreases nt, 0
    ensures Good(store) && Grows(old(store.rows), store.rows)
    ensures var ws := if workspace.Some? then workspace.value else old(store.rows[h]).workspace;
      o.Pass? ==> AutoChildrenExist(store.rows, old(store.rows[h]).path, ws.name, nt)
  {
    ghost var created := store.rows[h];
    ghost var ws := if workspace.Some? then workspace.value else created.workspace;
    var i := 0;
    while i < |nt.autoCreated|
      invariant 0 <= i <= |nt.autoCreated|
      invariant Good(store) && Grows(old(store.rows), store.rows)
      invariant forall j :: 0 <= j < i ==> ChildExists(store.rows, created.path, ws.name, nt.autoCreated[j].name)
    {
      ghost var before := store.rows;
      var child := CreateTypedNode(store, ids, h, nt.autoCreated[i].name, nt.autoCreated[i].nodeType, None, workspace, dims);
      if child.Failure? {
        return Fail(child.error);
      }
      assert store.rows[child.value].path == ChildPath(created.path, nt.autoCreated[i].name);
      ChildrenGrow(before, store.rows, created.path, ws.name, nt, i);
      i := i + 1;
    }
    return Pass;
  }

  /** createNode with a node type: createSingleNode, then the type's default
      property values, then the auto-created child nodes. A failure while
      creating a child node leaves what was created so far. */
  method CreateTypedNode(store: Store, ids: IdentifierSource, parent: Handle, name: string, nt: NodeType,
                         identifier: Option<string>, workspace: Option<Workspace>, dims: Option<seq<DimensionEntry>>)
    returns (r: Result<Handle, NodeError>)
    requires Good(store) && parent in store.rows
    modifies store, ids
    decreases nt, 1
    ensures Good(store) && Grows(old(store.rows), store.rows)
    ensures var P := old(store.rows[parent]);
      var ws := if workspace.Some? then workspace.value else P.workspace;
      var path := ChildPath(P.path, name);
      (!ValidName(name) || PathTaken(old(store.rows), path, ws.name, dims)) ==>
        r == Failure(if ValidName(name) then NodeExists(path) else InvalidNodeName(name)) &&
        store.rows == old(store.rows) && store.next == old(store.next) && ids.issued == old(ids.issued)
    ensures var P := old(store.rows[parent]);
      var ws := if workspace.Some? then workspace.value else P.workspace;
      ValidName(name) && !PathTaken(old(store.rows), ChildPath(P.path, name), ws.name, dims) ==>
        CreatedAt(old(store.rows), store.rows, old(store.next), P, name, ws, CreatedContent(Some(nt)),
          if identifier.Some? then identifier.value else GeneratedIdentifier(old(ids.issued)), dims)
    ensures var P := old(store.rows[parent]);
      var ws := if workspace.Some? then workspace.value else P.workspace;
      r.Success? ==> r.value == old(store.next) && AutoChildrenExist(store.rows, store.rows[r.value].path, ws.name, nt)
  {
    var single := CreateSingleNode(store, ids, parent, name, Some(nt.name), identifier, workspace, dims);
    if single.Failure? {
      return single;
    }
    var h := single.value;
    var n := store.rows[h];
    ghost var O := store.rows;
    store.Update(h, n.(content := n.content.(properties := n.content.properties + nt.defaults)));
    UpdateKeepsWellFormed(O, h, store.rows[h]);
    GrowsFresh(old(store.rows), O, h, store.rows[h]);
    assert n.content.properties == map[];
    assert n.content.properties + nt.defaults == nt.defaults;
    ghost var created := store.rows[h];
    ghost var U := store.rows;
    var o := CreateAutoChildren(store, ids, h, nt, workspace, dims);
    GrowsTrans(old(store.rows), U, store.rows);
    assert store.rows[h] == created;
    if o.Fail? {
      return Failure(o.error);
    }
    return Success(h);
  }

  /** createNode. */
  method CreateNode(store: Store, ids: IdentifierSource, parent: Handle, name: string, nodeType: Option<NodeType>,
                    identifier: Option<string>, workspace: Option<Workspace>, dims: Option<seq<DimensionEntry>>)
    returns (r: Result<Handle, NodeError>)
    requires Good(store) && parent in store.rows
    modifies store, ids
    ensures Good(store) && Grows(old(store.rows), store.rows)
    ensures var P := old(store.rows[parent]);
      var ws := if workspace.Some? then workspace.value else P.workspace;
      var path := ChildPath(P.path, name);
      (!ValidName(name) || PathTaken(old(store.rows), path, ws.name, dims)) ==>
        r == Failure(if ValidName(name) then NodeExists(path) else InvalidNodeName(name)) &&
        store.rows == old(store.rows) && store.next == old(store.next) && ids.issued == old(ids.issued)
    ensures var P := old(store.rows[parent]);
      var ws := if workspace.Some? then workspace.value else P.workspace;
      ValidName(name) && !PathTaken(old(store.rows), ChildPath(P.path, name), ws.name, dims) ==>
        CreatedAt(old(store.rows), store.rows, old(store.next), P, name, ws, CreatedContent(nodeType),
          if identifier.Some? then identifier.value else GeneratedIdentifier(old(ids.issued)), dims)
    ensures var P := old(store.rows[parent]);
      var ws := if workspace.Some? then workspace.value else P.workspace;
      nodeType.None? ==>
        (r.Success? <==> ValidName(name) && !PathTaken(old(store.rows), ChildPath(P.path, name), ws.name, dims))
    ensures nodeType.None? && r.Success? ==>
      store.rows.Keys == old(store.rows).Keys + {r.value} && store.next == old(store.next) + 1 &&
      ids.issued == old(ids.issued) + (if identifier.None? then 1 else 0)
    ensures r.Success? ==> r.value == old(store.next)
    ensures var P := old(store.rows[parent]);
      var ws := if workspace.Some? then workspace.value else P.workspace;
      r.Success? && nodeType.Some? ==>
        AutoChildrenExist(store.rows, store.rows[r.value].path, ws.name, nodeType.value)
  {
    if nodeType.Some? {
      r := CreateTypedNode(store, ids, parent, name, nodeType.value, identifier, workspace, dims);
    } else {
      ghost var O := store.rows;
      ghost var issued := ids.issued;
      r := CreateSingleNode(store, ids, parent, name, None, identifier, workspace, dims);
      assert CreatedContent(None) == EmptyContent.(nodeType := None);
      ghost var P := O[parent];
      ghost var ws := if workspace.Some? then workspace.value else P.workspace;
      if r.Success? {
        assert store.rows.Keys == O.Keys + {r.value};
        assert CreatedAt(O, store.rows, r.value, P, name, ws, CreatedContent(None),
          if identifier.Some? then identifier.value else GeneratedIdentifier(issued), dims);
      }
    }
  }

  /** The name createNodeFromTemplate tries in round j: the name itself, then name-1, name-2, ... */
  function Candidate(name: string, j: nat): string
  {
    if j == 0 then name else name + "-" + NatToString(j)
  }

  /** getNode finds a record for the name. */
  ghost predicate Taken(rows: map<Handle, NodeData>, next: nat, base: string, ws: string, name: string)
  {
    var found := NodeLookup(rows, next, base, ws, name);
    found.Success? && found.value.Some?
  }

  /** getNode found a record in every round before round j. */
  ghost predicate Probed(rows: map<Handle, NodeData>, next: nat, base: string, ws: string, name: string, j: nat)
  {
    forall i :: 0 <= i < j ==> Taken(rows, next, base, ws, Candidate(name, i))
  }

  /** Round j is the first whose name getNode does not find. */
  ghost predicate FirstFree(rows: map<Handle, NodeData>, next: nat, base: string, ws: string, name: string, j: nat)
  {
    Probed(rows, next, base, ws, name, j) &&
    NodeLookup(rows, next, base, ws, Candidate(name, j)) == Success(None)
  }

  /** A node template. Its node type is `nodeType`: the type name inside
      `content` is not read, since similarize takes it from the node type
      (TemplateContent). */
  datatype NodeTemplate = NodeTemplate(name: string, nodeType: Option<NodeType>, identifier: Option<string>, content: NodeContent)

  lemma CandidatesDistinct(stem: string, a: nat, b: nat)
    requires a != b
    ensures stem + ("-" + NatToString(a)) != stem + ("-" + NatToString(b))
  {
    if stem + ("-" + NatToString(a)) == stem + ("-" + NatToString(b)) {
      var x, y := stem + ("-" + NatToString(a)), stem + ("-" + NatToString(b));
      assert NatToString(a) == x[|stem| + 1..] == y[|stem| + 1..] == NatToString(b);
      NatToStringInjective(a, b);
    }
  }

  /** The normalized path getNode looks up in round j >= 1. */
  lemma CandidatePath(base: string, name: string, j: nat)
    requires j >= 1
    ensures Normalized(base, Candidate(name, j)) ==
      if HasDoubleSlash(name) then Failure(ConsecutiveSlashes) else Success(SuffixStem(base, name) + ("-" + NatToString(j)))
  {
    var s := "-" + NatToString(j);
    DashNumberNoSlash(j);
    assert Candidate(name, j) == name + s;
    NormalizedSuffix(base, name, s);
  }

  lemma DashNumberNoSlash(j: nat)
    ensures '/' !in "-" + NatToString(j)
  {
    NatToStringNoSlash(j);
    var s := "-" + NatToString(j);
    forall t | 0 <= t < |s| ensures s[t] != '/' {
      if t > 0 {
        assert s[t] == NatToString(j)[t - 1];
      }
    }
  }

  /** When getNode finds record k in round j >= 1, k lies at the path of that round. */
  lemma CandidateFound(rows: map<Handle, NodeData>, next: nat, base: string, ws: string, name: string, j: nat, k: Handle)
    requires j >= 1 && NodeLookup(rows, next, base, ws, Candidate(name, j)) == Success(Some(k))
    ensures k in rows && rows[k].path == SuffixStem(base, name) + ("-" + NatToString(j))
  {
    CandidatePath(base, name, j);
  }

  lemma ProbedNext(rows: map<Handle, NodeData>, next: nat, base: string, ws: string, name: string, j: nat)
    requires Probed(rows, next, base, ws, name, j) && Taken(rows, next, base, ws, Candidate(name, j))
    ensures Probed(rows, next, base, ws, name, j + 1)
  {
  }

  /** Every record in `round` was found in the round it maps to, which is below `bound`. */
  ghost predicate FoundInRounds(rows: map<Handle, NodeData>, round: map<Handle, nat>, stem: string, bound: nat)
  {
    forall k :: k in round ==> k in rows && 1 <= round[k] < bound && rows[k].path == stem + ("-" + NatToString(round[k]))
  }

  /** A record found in round `bound` was not found in an earlier round. */
  lemma FoundInNextRound(rows: map<Handle, NodeData>, round: map<Handle, nat>, stem: string, bound: nat, k: Handle)
    requires FoundInRounds(rows, round, stem, bound) && bound >= 1
    requires k in rows && rows[k].path == stem + ("-" + NatToString(bound))
    ensures k !in round && FoundInRounds(rows, round[k := bound], stem, bound + 1)
    ensures round.Keys <= rows.Keys ==> |rows.Keys - (round.Keys + {k})| < |rows.Keys - round.Keys|
  {
    if k in round {
      CandidatesDistinct(stem, round[k], bound);
    }
    assert rows.Keys - round.Keys == (rows.Keys - (round.Keys + {k})) + {k};
  }

  /** The name loop of createNodeFromTemplate: name, name-1, name-2, ... until
      getNode finds nothing; an invalid path ends it with getNode's error. */
  method FreeName(store: Store, parent: Handle, newName: string) returns (r: Result<string, NodeError>)
    requires Good(store) && parent in store.rows
    ensures var P := store.rows[parent];
      r.Success? ==> exists j: nat :: (FirstFree(store.rows, store.next, P.path, P.workspace.name, newName, j) &&
        r.value == Candidate(newName, j))
    ensures var P := store.rows[parent];
      r.Failure? ==> exists j: nat :: (Probed(store.rows, store.next, P.path, P.workspace.name, newName, j) &&
        NodeLookup(store.rows, store.next, P.path, P.workspace.name, Candidate(newName, j)) == Failure(r.error))
  {
    var P := store.rows[parent];
    var possible := newName;
    var counter: nat := 1;
    var probe := GetNode(store, parent, possible);
    ghost var stem := SuffixStem(P.path, newName);
    ghost var round: map<Handle, nat> := map[];
    while probe.Success? && probe.value.Some?
      invariant counter >= 1 && possible == Candidate(newName, counter - 1)
      invariant probe == NodeLookup(store.rows, store.next, P.path, P.workspace.name, possible)
      invariant Probed(store.rows, store.next, P.path, P.workspace.name, newName, counter - 1)
      invariant round.Keys <= store.rows.Keys
      invariant FoundInRounds(store.rows, round, stem, counter - 1)
      decreases |store.rows.Keys - round.Keys|, if counter == 1 then 1 else 0
    {
      ProbedNext(store.rows, store.next, P.path, P.workspace.name, newName, counter - 1);
      if counter > 1 {
        var k := probe.value.value;
        CandidateFound(store.rows, store.next, P.path, P.workspace.name, newName, counter - 1, k);
        FoundInNextRound(store.rows, round, stem, counter - 1, k);
        round := round[k := counter - 1];
      }
      possible := newName + "-" + NatToString(counter);
      counter := counter + 1;
      probe := GetNode(store, parent, possible);
    }
    if probe.Failure? {
      return Failure(probe.error);
    }
    return Success(possible);
  }

  /** Two rounds that both end the name loop are the same round. */
  lemma RoundUnique(rows: map<Handle, NodeData>, next: nat, base: string, ws: string, name: string, a: nat, b: nat)
    requires Probed(rows, next, base, ws, name, a) && !Taken(rows, next, base, ws, Candidate(name, a))
    requires Probed(rows, next, base, ws, name, b) && !Taken(rows, next, base, ws, Candidate(name, b))
    ensures a == b
  {
  }

  /** What similarize copies from a template: its content, with the name of
      its node type as the type. */
  function TemplateContent(t: NodeTemplate): (c: NodeContent)
    ensures c.nodeType == (if t.nodeType.Some? then Some(t.nodeType.value.name) else None)
    ensures c.properties == t.content.properties && c.hidden == t.content.hidden && c.accessRoles == t.content.accessRoles
  {
    t.content.(nodeType := if t.nodeType.Some? then Some(t.nodeType.value.name) else None)
  }

  /** createNodeFromTemplate: the first free name of name, name-1, name-2, ...,
      then createNode and similarize with the template. */
  method CreateNodeFromTemplate(store: Store, ids: IdentifierSource, parent: Handle, template: NodeTemplate,
                                nodeName: Option<string>, workspace: Option<Workspace>, dims: Option<seq<DimensionEntry>>)
    returns (r: Result<Handle, NodeError>)
    requires Good(store) && parent in store.rows
    modifies store, ids
    ensures Good(store) && Grows(old(store.rows), store.rows)
    // the name loop ends: a round where getNode finds nothing or fails
    ensures var P := old(store.rows[parent]);
      var newName := if nodeName.Some? then nodeName.value else template.name;
      exists j: nat :: Probed(old(store.rows), old(store.next), P.path, P.workspace.name, newName, j) &&
        !Taken(old(store.rows), old(store.next), P.path, P.workspace.name, Candidate(newName, j))
    // getNode fails in the last round: that error, and nothing changes
    ensures var P := old(store.rows[parent]);
      var newName := if nodeName.Some? then nodeName.value else template.name;
      forall j: nat :: (Probed(old(store.rows), old(store.next), P.path, P.workspace.name, newName, j) &&
                        NodeLookup(old(store.rows), old(store.next), P.path, P.workspace.name, Candidate(newName, j)).Failure?) ==>
          r == Failure(NodeLookup(old(store.rows), old(store.next), P.path, P.workspace.name, Candidate(newName, j)).error) &&
          store.rows == old(store.rows) && store.next == old(store.next) && ids.issued == old(ids.issued)
    // round j is free: createNode's own failures for that name, and nothing changes
    ensures var P := old(store.rows[parent]);
      var newName := if nodeName.Some? then nodeName.value else template.name;
      var ws := if workspace.Some? then workspace.value else P.workspace;
      forall j: nat :: (FirstFree(old(store.rows), old(store.next), P.path, P.workspace.name, newName, j) &&
                        (!ValidName(Candidate(newName, j)) ||
                         PathTaken(old(store.rows), ChildPath(P.path, Candidate(newName, j)), ws.name, dims))) ==>
          r == Failure(if ValidName(Candidate(newName, j)) then NodeExists(ChildPath(P.path, Candidate(newName, j)))
                       else InvalidNodeName(Candidate(newName, j))) &&
          store.rows == old(store.rows) && store.next == old(store.next) && ids.issued == old(ids.issued)
    // without a node type, the call succeeds exactly when createNode can use the free name
    ensures var P := old(store.rows[parent]);
      var newName := if nodeName.Some? then nodeName.value else template.name;
      var ws := if workspace.Some? then workspace.value else P.workspace;
      template.nodeType.None? ==>
        (r.Success? <==> exists j: nat :: (FirstFree(old(store.rows), old(store.next), P.path, P.workspace.name, newName, j) &&
                                           ValidName(Candidate(newName, j)) &&
                                           !PathTaken(old(store.rows), ChildPath(P.path, Candidate(newName, j)), ws.name, dims)))
    ensures var P := old(store.rows[parent]);
      var newName := if nodeName.Some? then nodeName.value else template.name;
      r.Success? ==>
        r.value == old(store.next) && r.value in store.rows &&
        store.rows[r.value].content == TemplateContent(template) &&
        exists j: nat :: FirstFree(old(store.rows), old(store.next), P.path, P.workspace.name, newName, j) &&
          store.rows[r.value].path == ChildPath(P.path, Candidate(newName, j))
    ensures template.nodeType.None? && r.Success? ==>
      store.rows.Keys == old(store.rows).Keys + {r.value} && store.next == old(store.next) + 1 &&
      ids.issued == old(ids.issued) + (if template.identifier.None? then 1 else 0)
  {
    var newName := if nodeName.Some? then nodeName.value else template.name;
    ghost var P := store.rows[parent];
    var name := FreeName(store, parent, newName);
    if name.Failure? {
      ghost var j: nat :| Probed(store.rows, store.next, P.path, P.workspace.name, newName, j) &&
        NodeLookup(store.rows, store.next, P.path, P.workspace.name, Candidate(newName, j)) == Failure(name.error);
      assert !Taken(store.rows, store.next, P.path, P.workspace.name, Candidate(newName, j));
      TemplateEndsAt(store.rows, store.next, P.path, P.workspace.name, newName, j);
      return Failure(name.error);
    }
    ghost var j: nat :| FirstFree(store.rows, store.next, P.path, P.workspace.name, newName, j) &&
      name.value == Candidate(newName, j);
    assert !Taken(store.rows, store.next, P.path, P.workspace.name, Candidate(newName, j));
    TemplateEndsAt(store.rows, store.next, P.path, P.workspace.name, newName, j);
    r := CreateFromTemplateAt(store, ids, parent, template, name.value, workspace, dims);
  }

  /** The rest of createNodeFromTemplate once the name is chosen: createNode
      under that name, then similarize with the template. */
  method CreateFromTemplateAt(store: Store, ids: IdentifierSource, parent: Handle, template: NodeTemplate,
                              name: string, workspace: Option<Workspace>, dims: Option<seq<DimensionEntry>>)
    returns (r: Result<Handle, NodeError>)
    requires Good(store) && parent in store.rows
    modifies store, ids
    ensures Good(store) && Grows(old(store.rows), store.rows)
    ensures var P := old(store.rows[parent]);
      var ws := if workspace.Some? then workspace.value else P.workspace;
      (!ValidName(name) || PathTaken(old(store.rows), ChildPath(P.path, name), ws.name, dims)) ==>
        r == Failure(if ValidName(name) then NodeExists(ChildPath(P.path, name)) else InvalidNodeName(name)) &&
        store.rows == old(store.rows) && store.next == old(store.next) && ids.issued == old(ids.issued)
    ensures var P := old(store.rows[parent]);
      var ws := if workspace.Some? then workspace.value else P.workspace;
      template.nodeType.None? ==>
        (r.Success? <==> ValidName(name) && !PathTaken(old(store.rows), ChildPath(P.path, name), ws.name, dims))
    ensures r.Success? ==>
      r.value == old(store.next) && r.value in store.rows &&
      store.rows[r.value].content == TemplateContent(template) &&
      store.rows[r.value].path == ChildPath(old(store.rows[parent].path), name)
    ensures template.nodeType.None? && r.Success? ==>
      store.rows.Keys == old(store.rows).Keys + {r.value} && store.next == old(store.next) + 1 &&
      ids.issued == old(ids.issued) + (if template.identifier.None? then 1 else 0)
  {
    r := CreateNode(store, ids, parent, name, template.nodeType, template.identifier, workspace, dims);
    if r.Success? {
      ghost var O := store.rows;
      var n := store.rows[r.value];
      var similar := Similarize(n, TemplateContent(template), FromTemplate);
      SimilarizeSpec(n, TemplateContent(template), FromTemplate);
      store.Update(r.value, similar);
      UpdateKeepsWellFormed(O, r.value, similar);
    }
  }

  /** When the name loop ends in round j, every round that ends it is j. */
  lemma TemplateEndsAt(rows: map<Handle, NodeData>, next: nat, base: string, ws: string, name: string, j: nat)
    requires Probed(rows, next, base, ws, name, j) && !Taken(rows, next, base, ws, Candidate(name, j))
    ensures forall i: nat :: FirstFree(rows, next, base, ws, name, i) ==> i == j
    ensures forall i: nat :: (Probed(rows, next, base, ws, name, i) &&
                              NodeLookup(rows, next, base, ws, Candidate(name, i)).Failure?) ==> i == j
  {
    forall i: nat | Probed(rows, next, base, ws, name, i) && !Taken(rows, next, base, ws, Candidate(name, i))
      ensures i == j
    {
      RoundUnique(rows, next, base, ws, name, i, j);
    }
  }

  // ---------------------------------------------------------------------
  // Removal
  // ---------------------------------------------------------------------

  /** How remove leaves record k: gone from the store when its workspace has no
      base workspace, otherwise still there with the removed flag set. */
  ghost predicate Tomb(O: map<Handle, NodeData>, R: map<Handle, NodeData>, k: Handle)
  {
    k in O &&
    if O[k].workspace.base.None? then k !in R else k in R && R[k] == O[k].(removed := true)
  }

  /** R is O after removing the record h at q in workspace ws: besides h only
      records below q in ws are affected, each one as Tomb says. */
  ghost predicate Removed(O: map<Handle, NodeData>, R: map<Handle, NodeData>, h: Handle, q: string, ws: string)
  {
    R.Keys <= O.Keys && Tomb(O, R, h) &&
    forall k :: k in O && k != h && (k !in R || R[k] != O[k]) ==>
      IsUnder(O[k].path, q) && O[k].workspace.name == ws && Tomb(O, R, k)
  }

  /** The state of remove's loop after the first i children were removed. */
  ghost predicate RemovalCascade(O: map<Handle, NodeData>, S: map<Handle, NodeData>, h: Handle, q: string, ws: string,
                                 children: seq<Handle>, i: int)
  {
    0 <= i <= |children| &&
    S.Keys <= O.Keys && h in O && h in S && S[h] == O[h] && O[h].path == q && O[h].workspace.name == ws &&
    (forall k :: k in O && (k !in S || S[k] != O[k]) ==>
      k != h && IsUnder(O[k].path, q) && O[k].workspace.name == ws && Tomb(O, S, k)) &&
    (forall j :: 0 <= j < i ==> Tomb(O, S, children[j])) &&
    (forall j :: i <= j < |children| ==> children[j] in S && S[children[j]] == O[children[j]])
  }

  /** The children of q in ws, each listed once. */
  ghost predicate ChildList(O: map<Handle, NodeData>, q: string, ws: string, children: seq<Handle>)
  {
    (forall j :: 0 <= j < |children| ==>
      children[j] in O && O[children[j]].parentPath == q && O[children[j]].workspace.name == ws) &&
    (forall a, b :: 0 <= a < b < |children| ==> children[a] != children[b])
  }

  /** A Tomb reached in S survives a later removal step from S to T. */
  lemma TombStable(O: map<Handle, NodeData>, S: map<Handle, NodeData>, T: map<Handle, NodeData>, k: Handle)
    requires Tomb(O, S, k) && T.Keys <= S.Keys
    requires k in S && (k !in T || T[k] != S[k]) ==> Tomb(S, T, k)
    ensures Tomb(O, T, k)
  {
  }

  /** Removal so far keeps every remaining record's path and workspace. */
  lemma CascadeKeepsPaths(O: map<Handle, NodeData>, S: map<Handle, NodeData>, h: Handle, q: string, ws: string,
                          children: seq<Handle>, i: int)
    requires RemovalCascade(O, S, h, q, ws, children, i)
    ensures forall k :: k in S ==>
      k in O && S[k].path == O[k].path && S[k].workspace == O[k].workspace && SameLinks(O[k], S[k])
  {
    forall k | k in S ensures k in O && S[k].path == O[k].path && S[k].workspace == O[k].workspace && SameLinks(O[k], S[k]) {
      if S[k] != O[k] {
        assert Tomb(O, S, k);
      }
    }
  }

  /** The child c of q satisfies what removing its own sub-tree needs. */
  lemma PrepareRemoval(O: map<Handle, NodeData>, S: map<Handle, NodeData>, q: string, ws: string, c: Handle, bound: nat)
    requires c in O && WellFormed(O[c]) && O[c].parentPath == q && O[c].workspace.name == ws && ValidPath(q)
    requires PathsBounded(O, q, ws, bound)
    requires forall k :: k in S ==> k in O && S[k].path == O[k].path && S[k].workspace == O[k].workspace
    ensures |q| < |O[c].path| <= bound
    ensures PathsBounded(S, O[c].path, ws, bound)
  {
    var cp := O[c].path;
    ParentPathShorter(q);
    ChildIsUnder(cp);
    Decompose(cp);
    forall k | k in S && IsUnder(S[k].path, cp) && S[k].workspace.name == ws
      ensures |S[k].path| <= bound
    {
      UnderChildUnder(O[k].path, cp, q);
    }
  }

  /** What one round of remove's loop knows: child i was removed, as Removed says. */
  ghost predicate RemovalStepContext(O: map<Handle, NodeData>, S: map<Handle, NodeData>, T: map<Handle, NodeData>,
                                     h: Handle, q: string, ws: string, children: seq<Handle>, i: int)
  {
    AllWellFormed(O) && ValidPath(q) &&
    ChildList(O, q, ws, children) && RemovalCascade(O, S, h, q, ws, children, i) && i < |children| &&
    children[i] in S && S[children[i]] == O[children[i]] && |q| < |O[children[i]].path| &&
    Removed(S, T, children[i], O[children[i]].path, ws)
  }

  lemma RemovalTouched(O: map<Handle, NodeData>, S: map<Handle, NodeData>, T: map<Handle, NodeData>,
                       h: Handle, q: string, ws: string, children: seq<Handle>, i: int, k: Handle)
    requires RemovalStepContext(O, S, T, h, q, ws, children, i)
    requires k in O && (k !in T || T[k] != O[k])
    ensures k != h && IsUnder(O[k].path, q) && O[k].workspace.name == ws && Tomb(O, T, k)
  {
    var cp := O[children[i]].path;
    if k in S && S[k] == O[k] {
      ChildIsUnder(cp);
      Decompose(cp);
      if k != children[i] {
        UnderChildUnder(O[k].path, cp, q);
      }
    } else {
      TombStable(O, S, T, k);
    }
  }

  lemma RemovalPending(O: map<Handle, NodeData>, S: map<Handle, NodeData>, T: map<Handle, NodeData>,
                       h: Handle, q: string, ws: string, children: seq<Handle>, i: int, j: int)
    requires RemovalStepContext(O, S, T, h, q, ws, children, i)
    requires i + 1 <= j < |children|
    ensures children[j] in T && T[children[j]] == O[children[j]]
  {
    var cp := O[children[i]].path;
    var d := children[j];
    Decompose(cp);
    Decompose(O[d].path);
    SiblingsNotNested(q, NameOf(O[d].path), NameOf(cp));
  }

  lemma RemovalTouchedAll(O: map<Handle, NodeData>, S: map<Handle, NodeData>, T: map<Handle, NodeData>,
                          h: Handle, q: string, ws: string, children: seq<Handle>, i: int)
    requires RemovalStepContext(O, S, T, h, q, ws, children, i)
    ensures forall k :: k in O && (k !in T || T[k] != O[k]) ==>
      k != h && IsUnder(O[k].path, q) && O[k].workspace.name == ws && Tomb(O, T, k)
  {
    forall k | k in O && (k !in T || T[k] != O[k])
      ensures k != h && IsUnder(O[k].path, q) && O[k].workspace.name == ws && Tomb(O, T, k)
    {
      RemovalTouched(O, S, T, h, q, ws, children, i, k);
    }
  }

  lemma RemovalDoneAll(O: map<Handle, NodeData>, S: map<Handle, NodeData>, T: map<Handle, NodeData>,
                       children: seq<Handle>, i: int, cp: string, ws: string)
    requires 0 <= i < |children| && children[i] in O && children[i] in S && S[children[i]] == O[children[i]]
    requires forall a, b :: 0 <= a < b < |children| ==> children[a] != children[b]
    requires forall j :: 0 <= j < i ==> Tomb(O, S, children[j])
    requires Removed(S, T, children[i], cp, ws)
    ensures forall j :: 0 <= j < i + 1 ==> Tomb(O, T, children[j])
  {
    forall j | 0 <= j < i + 1 ensures Tomb(O, T, children[j]) {
      if j < i {
        TombStable(O, S, T, children[j]);
      }
    }
  }

  lemma RemovalPendingAll(O: map<Handle, NodeData>, S: map<Handle, NodeData>, T: map<Handle, NodeData>,
                          h: Handle, q: string, ws: string, children: seq<Handle>, i: int)
    requires RemovalStepContext(O, S, T, h, q, ws, children, i)
    ensures forall j :: i + 1 <= j < |children| ==> children[j] in T && T[children[j]] == O[children[j]]
  {
    forall j | i + 1 <= j < |children| ensures children[j] in T && T[children[j]] == O[children[j]] {
      RemovalPending(O, S, T, h, q, ws, children, i, j);
    }
  }

  lemma RemovalStep(O: map<Handle, NodeData>, S: map<Handle, NodeData>, T: map<Handle, NodeData>,
                    h: Handle, q: string, ws: string, children: seq<Handle>, i: int)
    requires RemovalStepContext(O, S, T, h, q, ws, children, i)
    ensures RemovalCascade(O, T, h, q, ws, children, i + 1)
  {
    RemovalTouchedAll(O, S, T, h, q, ws, children, i);
    RemovalDoneAll(O, S, T, children, i, O[children[i]].path, ws);
    RemovalPendingAll(O, S, T, h, q, ws, children, i);
    ParentPathShorter(q);
    assert h in T by {
      if h !in T {
        RemovalTouched(O, S, T, h, q, ws, children, i, h);
      }
    }
  }

  lemma FinishRemoval(O: map<Handle, NodeData>, S: map<Handle, NodeData>, R: map<Handle, NodeData>,
                      h: Handle, q: string, ws: string, children: seq<Handle>)
    requires ChildList(O, q, ws, children) && RemovalCascade(O, S, h, q, ws, children, |children|)
    requires forall k :: (k in O && O[k].parentPath == q && O[k].workspace.name == ws) ==> k in children
    requires R == if O[h].workspace.base.None? then S - {h} else S[h := O[h].(removed := true)]
    ensures Removed(O, R, h, q, ws)
    ensures forall k :: (k in O && k != h && O[k].parentPath == q && O[k].workspace.name == ws) ==> Tomb(O, R, k)
  {
    forall k | k in O && k != h && O[k].parentPath == q && O[k].workspace.name == ws ensures Tomb(O, R, k) {
      var j :| 0 <= j < |children| && children[j] == k;
      assert Tomb(O, S, k);
    }
  }

  /** R is O after removing the sub-tree of q in ws: every record of the
      sub-tree is left as Tomb says, and no record outside it but h changed. */
  ghost predicate SubtreeRemoved(O: map<Handle, NodeData>, R: map<Handle, NodeData>, h: Handle, q: string, ws: string)
  {
    R.Keys <= O.Keys &&
    (forall k :: Descends(O, k, q, ws) ==> Tomb(O, R, k)) &&
    (forall k :: k in O && k != h && (k !in R || R[k] != O[k]) ==> Descends(O, k, q, ws))
  }

  /** The deep part of remove's loop after the first i children were removed:
      a changed record is one of them or in the sub-tree of one, and every
      record in the sub-tree of one of them is left as Tomb says. */
  ghost predicate DeepRemoval(O: map<Handle, NodeData>, S: map<Handle, NodeData>, ws: string, children: seq<Handle>, i: int)
  {
    0 <= i <= |children| && S.Keys <= O.Keys &&
    (forall k :: k in O && (k !in S || S[k] != O[k]) ==> WithinDone(O, k, ws, children[..i])) &&
    (forall j, k :: 0 <= j < i && children[j] in O && Descends(O, k, O[children[j]].path, ws) ==> Tomb(O, S, k))
  }

  /** What one round of remove's loop knows about the sub-tree of child i. */
  ghost predicate DeepRemovalContext(O: map<Handle, NodeData>, S: map<Handle, NodeData>, T: map<Handle, NodeData>,
                                     h: Handle, q: string, ws: string, children: seq<Handle>, i: int)
  {
    RemovalStepContext(O, S, T, h, q, ws, children, i) && AllWellFormed(S) &&
    DeepRemoval(O, S, ws, children, i) && SubtreeRemoved(S, T, children[i], O[children[i]].path, ws)
  }

  /** A record that remove's loop changed so far is a removed child or in the sub-tree of one. */
  lemma DeepRemovalChanged(O: map<Handle, NodeData>, S: map<Handle, NodeData>, T: map<Handle, NodeData>,
                           h: Handle, q: string, ws: string, children: seq<Handle>, i: int, k: Handle)
    requires DeepRemovalContext(O, S, T, h, q, ws, children, i)
    requires k in O && (k !in T || T[k] != O[k])
    ensures WithinDone(O, k, ws, children[..i + 1])
  {
    var c, cp := children[i], O[children[i]].path;
    SliceNext(children, i);
    if k !in S || S[k] != O[k] {
      WithinDoneGrows(O, k, ws, children[..i], c);
    } else {
      if k != c {
        assert Descends(S, k, cp, ws);
        CascadeKeepsPaths(O, S, h, q, ws, children, i);
        assert WellFormed(O[c]);
        RemainingBelowChild(O, S, k, c, ws);
      }
      WithinDoneLast(O, k, ws, children[..i], c);
    }
  }

  /** While records are only flagged or dropped, a sub-tree reached in S was reached in O. */
  lemma RemainingBelowChild(O: map<Handle, NodeData>, S: map<Handle, NodeData>, k: Handle, c: Handle, ws: string)
    requires AllWellFormed(S) && c in O && ValidPath(O[c].path)
    requires forall j :: j in S ==> j in O && SameLinks(O[j], S[j])
    requires k in O && k in S && S[k] == O[k] && Descends(S, k, O[c].path, ws)
    ensures Descends(O, k, O[c].path, ws)
  {
    DescendsBack(S, O, k, O[c].path, ws);
  }

  /** A record in the sub-tree of one of the first i + 1 children is left as Tomb says. */
  lemma DeepRemovalTomb(O: map<Handle, NodeData>, S: map<Handle, NodeData>, T: map<Handle, NodeData>,
                        h: Handle, q: string, ws: string, children: seq<Handle>, i: int, j: int, k: Handle)
    requires DeepRemovalContext(O, S, T, h, q, ws, children, i)
    requires 0 <= j <= i && Descends(O, k, O[children[j]].path, ws)
    ensures Tomb(O, T, k)
  {
    var cp := O[children[i]].path;
    if j == i && k in S && S[k] == O[k] {
      DescendsKept(O, S, k, cp, ws);
      if Descends(S, k, cp, ws) {
        assert Tomb(S, T, k);
        return;
      }
      var e :| e in O && O[e].workspace.name == ws && (e !in S || S[e] != O[e]) && Descends(O, k, O[e].path, ws);
      TombBelowEarlier(O, S, ws, children, i, e, k);
    } else {
      TombSoFar(O, S, h, q, ws, children, i, j, k);
    }
    TombStable(O, S, T, k);
  }

  /** A record that remove's loop changed, or one below a child removed earlier, is left as Tomb says. */
  lemma TombSoFar(O: map<Handle, NodeData>, S: map<Handle, NodeData>, h: Handle, q: string, ws: string,
                  children: seq<Handle>, i: int, j: int, k: Handle)
    requires RemovalCascade(O, S, h, q, ws, children, i) && DeepRemoval(O, S, ws, children, i)
    requires 0 <= j <= i && j < |children| && children[j] in O && Descends(O, k, O[children[j]].path, ws)
    requires j < i || k !in S || S[k] != O[k]
    ensures Tomb(O, S, k)
  {
  }

  /** A record below one that remove's loop already changed is already left as Tomb says. */
  lemma TombBelowEarlier(O: map<Handle, NodeData>, S: map<Handle, NodeData>, ws: string, children: seq<Handle>,
                         i: int, e: Handle, k: Handle)
    requires DeepRemoval(O, S, ws, children, i)
    requires e in O && (e !in S || S[e] != O[e]) && Descends(O, k, O[e].path, ws)
    ensures Tomb(O, S, k)
  {
    assert WithinDone(O, e, ws, children[..i]);
    var d :| 0 <= d < i && children[..i][d] in O &&
      (e == children[..i][d] || Descends(O, e, O[children[..i][d]].path, ws));
    assert children[..i][d] == children[d];
    if e != children[d] {
      DescendsTrans(O, k, e, O[children[d]].path, ws);
    }
  }

  lemma DeepRemovalStep(O: map<Handle, NodeData>, S: map<Handle, NodeData>, T: map<Handle, NodeData>,
                        h: Handle, q: string, ws: string, children: seq<Handle>, i: int)
    requires DeepRemovalContext(O, S, T, h, q, ws, children, i)
    ensures DeepRemoval(O, T, ws, children, i + 1)
  {
    forall k | k in O && (k !in T || T[k] != O[k])
      ensures WithinDone(O, k, ws, children[..i + 1])
    {
      DeepRemovalChanged(O, S, T, h, q, ws, children, i, k);
    }
    forall j, k | 0 <= j < i + 1 && children[j] in O && Descends(O, k, O[children[j]].path, ws)
      ensures Tomb(O, T, k)
    {
      DeepRemovalTomb(O, S, T, h, q, ws, children, i, j, k);
    }
  }

  /** Once every child is removed and h itself, the whole sub-tree is removed. */
  lemma FinishDeepRemoval(O: map<Handle, NodeData>, S: map<Handle, NodeData>, R: map<Handle, NodeData>,
                          h: Handle, q: string, ws: string, children: seq<Handle>)
    requires AllWellFormed(O) && ValidPath(q) && ChildList(O, q, ws, children)
    requires RemovalCascade(O, S, h, q, ws, children, |children|) && DeepRemoval(O, S, ws, children, |children|)
    requires forall k :: (k in O && O[k].parentPath == q && O[k].workspace.name == ws) ==> k in children
    requires R == if O[h].workspace.base.None? then S - {h} else S[h := O[h].(removed := true)]
    ensures SubtreeRemoved(O, R, h, q, ws)
  {
    forall k | Descends(O, k, q, ws)
      ensures Tomb(O, R, k)
    {
      FinishRemovalDescendant(O, S, R, h, q, ws, children, k);
    }
    forall k | k in O && k != h && (k !in R || R[k] != O[k])
      ensures Descends(O, k, q, ws)
    {
      assert children[..|children|] == children;
      assert WithinDone(O, k, ws, children);
      WithinChildren(O, k, q, ws, children);
    }
  }

  lemma FinishRemovalDescendant(O: map<Handle, NodeData>, S: map<Handle, NodeData>, R: map<Handle, NodeData>,
                                h: Handle, q: string, ws: string, children: seq<Handle>, k: Handle)
    requires AllWellFormed(O) && ValidPath(q) && ChildList(O, q, ws, children)
    requires RemovalCascade(O, S, h, q, ws, children, |children|) && DeepRemoval(O, S, ws, children, |children|)
    requires forall k :: (k in O && O[k].parentPath == q && O[k].workspace.name == ws) ==> k in children
    requires R == if O[h].workspace.base.None? then S - {h} else S[h := O[h].(removed := true)]
    requires Descends(O, k, q, ws)
    ensures Tomb(O, R, k)
  {
    DescendsUnder(O, k, q, ws);
    assert k != h;
    DescendsSplit(O, k, q, ws);
    if O[k].parentPath == q {
      var j :| 0 <= j < |children| && children[j] == k;
      assert Tomb(O, S, k);
    } else {
      var c :| c in O && O[c].workspace.name == ws && O[c].parentPath == q && Descends(O, k, O[c].path, ws);
      var j :| 0 <= j < |children| && children[j] == c;
      assert Tomb(O, S, k);
    }
  }

  /** One round of remove's loop: removes the sub-tree of child i of q. */
  method RemoveChild(store: Store, ghost O: map<Handle, NodeData>, h: Handle, q: string, ws: string,
                     children: seq<Handle>, i: nat, ghost bound: nat)
    requires Good(store) && AllWellFormed(O) && ValidPath(q) && ChildList(O, q, ws, children)
    requires RemovalCascade(O, store.rows, h, q, ws, children, i) && i < |children|
    requires |q| <= bound && PathsBounded(O, q, ws, bound)
    requires DeepRemoval(O, store.rows, ws, children, i)
    modifies store
    decreases bound - |q|, 0
    ensures Good(store) && store.next == old(store.next)
    ensures RemovalCascade(O, store.rows, h, q, ws, children, i + 1)
    ensures DeepRemoval(O, store.rows, ws, children, i + 1)
  {
    ghost var S := store.rows;
    CascadeKeepsPaths(O, S, h, q, ws, children, i);
    PrepareRemoval(O, S, q, ws, children[i], bound);
    RemoveTree(store, children[i], bound);
    RemovalStep(O, S, store.rows, h, q, ws, children, i);
    DeepRemovalStep(O, S, store.rows, h, q, ws, children, i);
  }

  method RemoveTree(store: Store, h: Handle, ghost bound: nat)
    requires Good(store) && h in store.rows
    requires |store.rows[h].path| <= bound
    requires PathsBounded(store.rows, store.rows[h].path, store.rows[h].workspace.name, bound)
    modifies store
    decreases bound - |store.rows[h].path|, 2
    ensures Good(store) && store.next == old(store.next)
    ensures Removed(old(store.rows), store.rows, h, old(store.rows[h].path), old(store.rows[h].workspace.name))
    ensures forall k ::
      (k in old(store.rows) && k != h && old(store.rows[k]).parentPath == old(store.rows[h].path) &&
       old(store.rows[k]).workspace.name == old(store.rows[h].workspace.name)) ==> Tomb(old(store.rows), store.rows, k)
    ensures SubtreeRemoved(old(store.rows), store.rows, h, old(store.rows[h].path), old(store.rows[h].workspace.name))
  {
    ghost var O := store.rows;
    var q := store.rows[h].path;
    var ws := store.rows[h].workspace.name;
    var children := GetChildNodeData(store, q, ws);
    assert ValidPath(q) by { assert WellFormed(O[h]); }
    RemoveChildren(store, h, q, ws, children, bound);
    RemoveSelf(store, O, h, q, ws, children);
  }

  /** The end of remove: once the children's sub-trees are gone, the record h
      itself is deleted when its workspace has no base, and flagged otherwise. */
  method RemoveSelf(store: Store, ghost O: map<Handle, NodeData>, h: Handle, q: string, ws: string,
                    ghost children: seq<Handle>)
    requires Good(store) && ChildList(O, q, ws, children) && RemovalCascade(O, store.rows, h, q, ws, children, |children|)
    requires forall k :: (k in O && O[k].parentPath == q && O[k].workspace.name == ws) ==> k in children
    requires AllWellFormed(O) && ValidPath(q) && DeepRemoval(O, store.rows, ws, children, |children|)
    modifies store
    ensures Good(store) && store.next == old(store.next)
    ensures Removed(O, store.rows, h, q, ws)
    ensures forall k :: (k in O && k != h && O[k].parentPath == q && O[k].workspace.name == ws) ==> Tomb(O, store.rows, k)
    ensures SubtreeRemoved(O, store.rows, h, q, ws)
  {
    ghost var S := store.rows;
    if store.rows[h].workspace.base.None? {
      store.Remove(h);
    } else {
      store.Update(h, store.rows[h].(removed := true));
    }
    FinishRemoval(O, S, store.rows, h, q, ws, children);
    FinishDeepRemoval(O, S, store.rows, h, q, ws, children);
  }

  /** The loop of remove over the children of the record h at q. */
  method RemoveChildren(store: Store, h: Handle, q: string, ws: string, children: seq<Handle>, ghost bound: nat)
    requires Good(store) && h in store.rows && store.rows[h].path == q && store.rows[h].workspace.name == ws
    requires ValidPath(q) && ChildList(store.rows, q, ws, children)
    requires |q| <= bound && PathsBounded(store.rows, q, ws, bound)
    modifies store
    decreases bound - |q|, 1
    ensures Good(store) && store.next == old(store.next)
    ensures RemovalCascade(old(store.rows), store.rows, h, q, ws, children, |children|)
    ensures DeepRemoval(old(store.rows), store.rows, ws, children, |children|)
  {
    ghost var O := store.rows;
    var i := 0;
    while i < |children|
      invariant 0 <= i <= |children|
      invariant Good(store) && store.next == old(store.next)
      invariant RemovalCascade(O, store.rows, h, q, ws, children, i)
      invariant DeepRemoval(O, store.rows, ws, children, i)
    {
      RemoveChild(store, O, h, q, ws, children, i, bound);
      i := i + 1;
    }
  }

  /** remove: the child records first, then this record (see Tomb). */
  method Remove(store: Store, h: Handle)
    requires Good(store) && h in store.rows
    modifies store
    ensures Good(store) && store.next == old(store.next)
    ensures Removed(old(store.rows), store.rows, h, old(store.rows[h].path), old(store.rows[h].workspace.name))
    ensures forall k ::
      (k in old(store.rows) && k != h && old(store.rows[k]).parentPath == old(store.rows[h].path) &&
       old(store.rows[k]).workspace.name == old(store.rows[h].workspace.name)) ==> Tomb(old(store.rows), store.rows, k)
    ensures SubtreeRemoved(old(store.rows), store.rows, h, old(store.rows[h].path), old(store.rows[h].workspace.name))
  {
    ghost var bound := MaxPathLength(store.rows, store.next);
    RemoveTree(store, h, bound);
  }

  /** A record removed from a workspace without base is found by no query any more. */
  lemma RemovedNotFound(O: map<Handle, NodeData>, R: map<Handle, NodeData>, h: Handle, q: string, ws: string,
                        p: NodeData -> bool, next: nat)
    requires Removed(O, R, h, q, ws) && O[h].workspace.base.None?
    ensures FirstMatch(R, p, 0, next) != Some(h)
    ensures h !in AllMatching(R, p, 0, next)
  {
  }

  /** setRemoved(flag): only TRUE does anything. */
  method SetRemoved(store: Store, h: Handle, removed: bool)
    requires Good(store) && h in store.rows
    modifies store
    ensures Good(store) && store.next == old(store.next)
    ensures !removed ==> store.rows == old(store.rows)
    ensures removed ==> Removed(old(store.rows), store.rows, h, old(store.rows[h].path), old(store.rows[h].workspace.name))
    ensures removed ==>
      SubtreeRemoved(old(store.rows), store.rows, h, old(store.rows[h].path), old(store.rows[h].workspace.name))
  {
    if removed {
      Remove(store, h);
    }
  }

  // ---------------------------------------------------------------------
  // Adjusting to a context
  // ---------------------------------------------------------------------

  /** The dimensions adjustToContext assigns: for every dimension of the context,
      in order, its target value; the first dimension without target fails. */
  function TargetDimensions(contextDims: seq<DimensionEntry>, target: map<string, string>): (r: Result<seq<NodeDimension>, NodeError>)
    ensures r.Failure? <==> exists i :: 0 <= i < |contextDims| && contextDims[i].name !in target
    ensures r.Failure? ==> exists i :: (0 <= i < |contextDims| && contextDims[i].name !in target &&
      r.error == InvalidNodeContext(contextDims[i].name) &&
      forall j :: 0 <= j < i ==> contextDims[j].name in target)
    ensures r.Success? ==> (|r.value| == |contextDims| &&
      forall i :: 0 <= i < |contextDims| ==>
        r.value[i] == NodeDimension(contextDims[i].name, target[contextDims[i].name]))
  {
    if |contextDims| == 0 then Success([])
    else if contextDims[0].name !in target then Failure(InvalidNodeContext(contextDims[0].name))
    else
      var rest := TargetDimensions(contextDims[1..], target);
      if rest.Failure? then
        assert forall i :: 1 <= i < |contextDims| ==> contextDims[i] == contextDims[1..][i - 1];
        rest
      else
        assert forall i :: 1 <= i < |contextDims| ==> contextDims[i] == contextDims[1..][i - 1];
        Success([NodeDimension(contextDims[0].name, target[contextDims[0].name])] + rest.value)
  }

  /** setDimensions: the dimension list and its canonical grouping. */
  function WithDimensions(n: NodeData, ds: seq<NodeDimension>): (r: NodeData)
    ensures r == n.(dimensions := ds, dimensionValues := r.dimensionValues)
    ensures WellFormed(n) ==> WellFormed(r)
  {
    n.(dimensions := ds, dimensionValues := Canonical(ds))
  }

  /** The loop of adjustToContext over the context's dimensions. */
  method CollectTargetDimensions(contextDims: seq<DimensionEntry>, target: map<string, string>)
    returns (r: Result<seq<NodeDimension>, NodeError>)
    ensures r == TargetDimensions(contextDims, target)
  {
    var ds: seq<NodeDimension> := [];
    var i := 0;
    while i < |contextDims|
      invariant 0 <= i <= |contextDims|
      invariant forall j :: 0 <= j < i ==> contextDims[j].name in target
      invariant |ds| == i
      invariant forall j :: 0 <= j < i ==> ds[j] == NodeDimension(contextDims[j].name, target[contextDims[j].name])
    {
      var name := contextDims[i].name;
      if name !in target {
        return Failure(InvalidNodeContext(name));
      }
      ds := ds + [NodeDimension(name, target[name])];
      i := i + 1;
    }
    ghost var t := TargetDimensions(contextDims, target);
    assert t.Success?;
    assert forall j :: 0 <= j < |ds| ==> ds[j] == t.value[j];
    assert ds == t.value;
    return Success(ds);
  }

  /** adjustToContext: take the context's workspace, then one dimension value per
      context dimension. The workspace is already changed when a target value is missing. */
  method AdjustToContext(store: Store, h: Handle, ws: Workspace, contextDims: seq<DimensionEntry>, target: map<string, string>)
    returns (o: Outcome<NodeError>)
    requires Good(store) && h in store.rows
    modifies store
    ensures Good(store) && store.next == old(store.next)
    ensures var t := TargetDimensions(contextDims, target);
      var moved := old(store.rows[h]).(workspace := ws);
      (o == if t.Failure? then Fail(t.error) else Pass) &&
      store.rows == old(store.rows)[h := if t.Failure? then moved else WithDimensions(moved, t.value)]
  {
    SetWorkspace(store, h, ws);
    var t := CollectTargetDimensions(contextDims, target);
    if t.Failure? {
      return Fail(t.error);
    }
    SetDimensions(store, h, t.value);
    return Pass;
  }

  /** setDimensions: the new dimension list and, rebuilt from it, the grouped values. */
  method SetDimensions(store: Store, h: Handle, ds: seq<NodeDimension>)
    requires Good(store) && h in store.rows
    modifies store
    ensures Good(store) && store.next == old(store.next)
    ensures store.rows == old(store.rows)[h := WithDimensions(old(store.rows[h]), ds)]
  {
    var values := BuildDimensionValues(ds);
    var n := store.rows[h];
    ghost var O := store.rows;
    store.Update(h, n.(dimensions := ds, dimensionValues := values));
    UpdateKeepsWellFormed(O, h, store.rows[h]);
  }
}
