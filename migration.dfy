/** The node migration engine: a pre-order walk over the records of one
    workspace that applies the configured (filter, transformation) migrations
    to every record it reaches. */
module NodeMigrations {
  import opened Wrappers
  import opened Repository
  import opened Paths
  import opened Workspaces
  import opened NodeDataModel
  import opened NodeDataOps
  import Contexts

  /** One configured migration: its filters decide whether a node takes part,
      its transformations then change the node's content. Both are external
      services and appear here as functions. */
  datatype Migration = Migration(filters: NodeData -> bool, transformations: NodeContent -> NodeContent)

  /** The migration type handed down the walk (MigrationStatus::DIRECTION_*). */
  datatype Direction = Up | Down

  datatype MigrationError =
    | MissingWorkspace(name: string)   // MigrationException 1343302352
    | MissingRootNode                  // walkNodes would receive NULL

  // ---------------------------------------------------------------------
  // The migrations at one node
  // ---------------------------------------------------------------------

  /** The two records differ in their content at most. */
  predicate SameShape(a: NodeData, b: NodeData)
  {
    a.path == b.path && a.parentPath == b.parentPath && a.depth == b.depth && a.workspace == b.workspace &&
    a.identifier == b.identifier && a.index == b.index && a.removed == b.removed &&
    a.dimensions == b.dimensions && a.dimensionValues == b.dimensionValues
  }

  /** One migration at one record: the transformations run iff the filters match. */
  function Step(rule: Migration, n: NodeData): NodeData
  {
    if rule.filters(n) then n.(content := rule.transformations(n.content)) else n
  }

  /** The record after the first i migrations, in configuration order; each
      filter sees the record as the earlier migrations left it. */
  function ApplyFirst(rules: seq<Migration>, i: nat, n: NodeData): NodeData
    requires i <= |rules|
  {
    if i == 0 then n else Step(rules[i - 1], ApplyFirst(rules, i - 1, n))
  }

  /** The record after every configured migration. */
  function ApplyRules(rules: seq<Migration>, n: NodeData): NodeData
  {
    ApplyFirst(rules, |rules|, n)
  }

  /** Migrations change the content of a record and nothing else. */
  lemma {:induction false} ApplyFirstShape(rules: seq<Migration>, i: nat, n: NodeData)
    requires i <= |rules|
    ensures SameShape(n, ApplyFirst(rules, i, n))
  {
    if i > 0 {
      ApplyFirstShape(rules, i - 1, n);
    }
  }

  lemma ApplyRulesShape(rules: seq<Migration>, n: NodeData)
    ensures SameShape(n, ApplyRules(rules, n))
  {
    ApplyFirstShape(rules, |rules|, n);
  }

  /** The same fold, taken from the first migration onwards. */
  function ApplyFrom(rules: seq<Migration>, n: NodeData): NodeData
  {
    if |rules| == 0 then n else ApplyFrom(rules[1..], Step(rules[0], n))
  }

  /** Both readings of "every migration in configuration order" agree. */
  lemma ApplyRulesInOrder(rules: seq<Migration>, n: NodeData)
    ensures ApplyRules(rules, n) == ApplyFrom(rules, n)
  {
    ApplyFromRest(rules, |rules|, n);
    assert rules[|rules|..] == [];
  }

  lemma {:induction false} ApplyFromRest(rules: seq<Migration>, i: nat, n: NodeData)
    requires i <= |rules|
    ensures ApplyFrom(rules[i..], ApplyFirst(rules, i, n)) == ApplyFrom(rules, n)
  {
    if i == 0 {
      assert rules[0..] == rules;
    } else {
      ApplyFromRest(rules, i - 1, n);
      assert rules[i - 1..][1..] == rules[i..];
    }
  }

  /** A node that no filter ever accepts keeps its record. */
  lemma {:induction false} ApplyFirstNoMatch(rules: seq<Migration>, i: nat, n: NodeData)
    requires i <= |rules| && forall j :: 0 <= j < |rules| ==> !rules[j].filters(n)
    ensures ApplyFirst(rules, i, n) == n
  {
    if i > 0 {
      ApplyFirstNoMatch(rules, i - 1, n);
    }
  }

  /** One iteration of the first loop of walkNodes. */
  method ApplyMigration(store: Store, h: Handle, rule: Migration)
    requires store.Valid() && h in store.rows
    modifies store
    ensures store.Valid() && store.next == old(store.next)
    ensures store.rows == old(store.rows)[h := Step(rule, old(store.rows[h]))]
  {
    var n := store.rows[h];
    if rule.filters(n) {
      store.Update(h, n.(content := rule.transformations(n.content)));
    } else {
      assert store.rows == store.rows[h := n];
    }
  }

  /** The first loop of walkNodes: the migrations at record h. */
  method ApplyMigrations(store: Store, h: Handle, rules: seq<Migration>)
    requires store.Valid() && h in store.rows
    modifies store
    ensures store.Valid() && store.next == old(store.next)
    ensures store.rows == old(store.rows)[h := ApplyRules(rules, old(store.rows[h]))]
  {
    ghost var O := store.rows;
    assert O == O[h := O[h]];
    var i := 0;
    while i < |rules|
      invariant 0 <= i <= |rules|
      invariant store.Valid() && store.next == old(store.next)
      invariant store.rows == O[h := ApplyFirst(rules, i, O[h])]
    {
      ApplyMigration(store, h, rules[i]);
      i := i + 1;
    }
  }

  // ---------------------------------------------------------------------
  // The walk
  // ---------------------------------------------------------------------

  /** b differs from a in record contents at most. */
  ghost predicate SameTree(a: map<Handle, NodeData>, b: map<Handle, NodeData>)
  {
    a.Keys == b.Keys && forall k :: k in a ==> SameShape(a[k], b[k])
  }

  lemma SameTreeTrans(a: map<Handle, NodeData>, b: map<Handle, NodeData>, c: map<Handle, NodeData>)
    requires SameTree(a, b) && SameTree(b, c)
    ensures SameTree(a, c)
  {
    forall k | k in a ensures SameShape(a[k], c[k]) {
      assert SameShape(a[k], b[k]);
    }
  }

  lemma SameTreeWellFormed(a: map<Handle, NodeData>, b: map<Handle, NodeData>)
    requires SameTree(a, b) && AllWellFormed(a)
    ensures AllWellFormed(b)
  {
    forall k | k in b ensures WellFormed(b[k]) {
      assert SameShape(a[k], b[k]);
    }
  }

  /** What the walk needs of the stored records: no path is empty, and a
      record lies below its parent path unless it is a root. */
  ghost predicate Linked(rows: map<Handle, NodeData>)
  {
    forall k :: k in rows ==>
      rows[k].path != "" && (rows[k].parentPath != "" ==> IsUnder(rows[k].path, rows[k].parentPath))
  }

  lemma WellFormedLinked(rows: map<Handle, NodeData>)
    requires AllWellFormed(rows)
    ensures Linked(rows)
  {
    forall k | k in rows
      ensures rows[k].path != "" && (rows[k].parentPath != "" ==> IsUnder(rows[k].path, rows[k].parentPath))
    {
      ValidPathShape(rows[k].path);
      if rows[k].path != "/" {
        ChildIsUnder(rows[k].path);
      }
    }
  }

  lemma SameTreeLinked(a: map<Handle, NodeData>, b: map<Handle, NodeData>)
    requires SameTree(a, b) && Linked(a)
    ensures Linked(b)
  {
    forall k | k in b
      ensures b[k].path != "" && (b[k].parentPath != "" ==> IsUnder(b[k].path, b[k].parentPath))
    {
      assert SameShape(a[k], b[k]);
    }
  }

  /** The sub-trees are the same in two stores that differ in contents only. */
  lemma {:induction false} ReachesSameTree(a: map<Handle, NodeData>, b: map<Handle, NodeData>, p: string, q: string, ws: string)
    requires SameTree(a, b) && Reaches(a, p, q, ws)
    ensures Reaches(b, p, q, ws)
    decreases |p|
  {
    if p != q {
      var j :| j in a && a[j].workspace.name == ws && a[j].path == p && |a[j].parentPath| < |p| &&
        Reaches(a, a[j].parentPath, q, ws);
      assert SameShape(a[j], b[j]);
      ReachesSameTree(a, b, a[j].parentPath, q, ws);
    }
  }

  lemma DescendsSameTree(a: map<Handle, NodeData>, b: map<Handle, NodeData>, k: Handle, q: string, ws: string)
    requires SameTree(a, b) && Descends(a, k, q, ws)
    ensures Descends(b, k, q, ws)
  {
    assert SameShape(a[k], b[k]);
    ReachesSameTree(a, b, a[k].parentPath, q, ws);
  }

  /** Every record of workspace ws below q is fewer than fuel characters
      longer than q, so a walk from q with that fuel never runs dry. */
  ghost predicate DepthFits(rows: map<Handle, NodeData>, q: string, ws: string, fuel: nat)
  {
    forall k :: (k in rows && IsUnder(rows[k].path, q) && rows[k].workspace.name == ws) ==> |rows[k].path| < |q| + fuel
  }

  lemma SameTreeFits(a: map<Handle, NodeData>, b: map<Handle, NodeData>, q: string, ws: string, fuel: nat)
    requires SameTree(a, b) && DepthFits(a, q, ws, fuel)
    ensures DepthFits(b, q, ws, fuel)
  {
    forall k | k in b && IsUnder(b[k].path, q) && b[k].workspace.name == ws ensures |b[k].path| < |q| + fuel {
      assert SameShape(a[k], b[k]);
    }
  }

  /** A child c of q, in a store that differs from rows in contents only,
      fits one unit of fuel less than q. */
  lemma ChildFits(rows: map<Handle, NodeData>, S: map<Handle, NodeData>, q: string, ws: string, c: Handle, fuel: nat)
    requires Linked(rows) && SameTree(rows, S) && q != "" && DepthFits(rows, q, ws, fuel)
    requires c in rows && rows[c].parentPath == q && rows[c].workspace.name == ws
    ensures c in S && Linked(S) && S[c].path == rows[c].path && S[c].workspace.name == ws && S[c].path != ""
    ensures IsUnder(S[c].path, q) && fuel >= 2
    ensures DepthFits(S, S[c].path, ws, fuel - 1)
  {
    SameTreeLinked(rows, S);
    var cp := rows[c].path;
    assert SameShape(rows[c], S[c]);
    forall k | k in S && IsUnder(S[k].path, cp) && S[k].workspace.name == ws
      ensures |S[k].path| < |cp| + fuel - 1
    {
      assert SameShape(rows[k], S[k]);
      UnderChildUnder(S[k].path, cp, q);
    }
  }

  /** getChildNodes: the handles in [lo, hi) of workspace ws's records whose
      parent path is q, in store order. */
  function Children(rows: map<Handle, NodeData>, q: string, ws: string, lo: nat, hi: nat): seq<Handle>
    decreases hi - lo
  {
    if lo >= hi then []
    else (if lo in rows && rows[lo].parentPath == q && rows[lo].workspace.name == ws then [lo] else []) +
         Children(rows, q, ws, lo + 1, hi)
  }

  /** The child list is what findByParent returns. */
  lemma {:induction false} ChildrenMatch(rows: map<Handle, NodeData>, q: string, ws: string, lo: nat, hi: nat)
    ensures Children(rows, q, ws, lo, hi) == AllMatching(rows, ChildOf(q, ws), lo, hi)
    decreases hi - lo
  {
    if lo < hi {
      ChildrenMatch(rows, q, ws, lo + 1, hi);
      assert Hit(rows, ChildOf(q, ws), lo) <==> lo in rows && rows[lo].parentPath == q && rows[lo].workspace.name == ws;
    }
  }

  /** Every listed handle is a child record of q in ws. */
  lemma {:induction false} ChildrenAreChildren(rows: map<Handle, NodeData>, q: string, ws: string, lo: nat, hi: nat)
    ensures forall k :: k in Children(rows, q, ws, lo, hi) ==> k in rows && rows[k].parentPath == q && rows[k].workspace.name == ws
    decreases hi - lo
  {
    if lo < hi {
      ChildrenAreChildren(rows, q, ws, lo + 1, hi);
    }
  }

  /** The child records of q in ws, in store order. */
  method ChildNodes(store: Store, q: string, ws: string) returns (cs: seq<Handle>)
    requires store.Valid()
    ensures cs == Children(store.rows, q, ws, 0, store.next)
  {
    cs := store.FindAll(ChildOf(q, ws));
    ChildrenMatch(store.rows, q, ws, 0, store.next);
  }

  /** walkNodes(h) on the records: the migrations at h, then the walk of every
      child found afterwards, in store order. The second component lists the
      handles in the order the migrations were considered at them. `fuel`
      bounds the recursion; DepthFits makes it sufficient. */
  ghost function Walk(rows: map<Handle, NodeData>, next: nat, h: Handle, rules: seq<Migration>, fuel: nat)
    : (map<Handle, NodeData>, seq<Handle>)
    decreases fuel, 1, 0
  {
    if fuel == 0 || h !in rows then (rows, [])
    else
      var applied := rows[h := ApplyRules(rules, rows[h])];
      var children := Children(applied, rows[h].path, rows[h].workspace.name, 0, next);
      var w := WalkList(applied, next, rows[h].path, rows[h].workspace.name, children, |children|, rules, fuel - 1);
      (w.0, [h] + w.1)
  }

  /** The recursive calls of walkNodes for the first i children cs of q, in order. */
  ghost function WalkList(rows: map<Handle, NodeData>, next: nat, q: string, ws: string, cs: seq<Handle>, i: nat,
                          rules: seq<Migration>, fuel: nat): (map<Handle, NodeData>, seq<Handle>)
    requires i <= |cs|
    decreases fuel, 2, i
  {
    if i == 0 then (rows, [])
    else
      var w := WalkList(rows, next, q, ws, cs, i - 1, rules, fuel);
      var v := Walk(w.0, next, cs[i - 1], rules, fuel);
      (v.0, w.1 + v.1)
  }

  /** The walk from h considers h first, then only records of h's workspace
      below h; it visits every child of h; it changes the content of the
      records it visits and nothing else, and leaves h as the migrations at h
      made it. */
  lemma {:induction false} WalkVisits(rows: map<Handle, NodeData>, next: nat, h: Handle, rules: seq<Migration>, fuel: nat)
    requires h in rows && Linked(rows) && forall k :: k in rows ==> k < next
    requires fuel >= 1 && DepthFits(rows, rows[h].path, rows[h].workspace.name, fuel)
    decreases fuel, 1, 0
    ensures SameTree(rows, Walk(rows, next, h, rules, fuel).0)
    ensures var t := Walk(rows, next, h, rules, fuel).1;
      |t| >= 1 && t[0] == h &&
      forall x :: x in t[1..] ==>
        x in rows && rows[x].workspace.name == rows[h].workspace.name && IsUnder(rows[x].path, rows[h].path)
    ensures forall k :: k in rows && k !in Walk(rows, next, h, rules, fuel).1 ==> Walk(rows, next, h, rules, fuel).0[k] == rows[k]
    ensures Walk(rows, next, h, rules, fuel).0[h] == ApplyRules(rules, rows[h])
    ensures forall k :: k in rows && rows[k].parentPath == rows[h].path && rows[k].workspace.name == rows[h].workspace.name ==>
      k in Walk(rows, next, h, rules, fuel).1
    ensures forall k :: Descends(rows, k, rows[h].path, rows[h].workspace.name) ==> k in Walk(rows, next, h, rules, fuel).1
  {
    var q := rows[h].path;
    var ws := rows[h].workspace.name;
    var applied := rows[h := ApplyRules(rules, rows[h])];
    ApplyRulesShape(rules, rows[h]);
    assert SameTree(rows, applied);
    SameTreeLinked(rows, applied);
    SameTreeFits(rows, applied, q, ws, fuel);
    var children := Children(applied, q, ws, 0, next);
    ChildrenAreChildren(applied, q, ws, 0, next);
    WalkListVisits(applied, next, q, ws, children, |children|, rules, fuel - 1);
    var w := WalkList(applied, next, q, ws, children, |children|, rules, fuel - 1);
    assert Walk(rows, next, h, rules, fuel) == (w.0, [h] + w.1);
    SameTreeTrans(rows, applied, w.0);
    var t := [h] + w.1;
    assert t[1..] == w.1;
    forall x | x in w.1
      ensures x in rows && rows[x].workspace.name == ws && IsUnder(rows[x].path, q)
    {
      assert SameShape(rows[x], applied[x]);
    }
    assert h !in w.1;
    forall k | k in rows && rows[k].parentPath == q && rows[k].workspace.name == ws
      ensures k in t
    {
      assert k != h;
      ChildrenMatch(applied, q, ws, 0, next);
      assert Hit(applied, ChildOf(q, ws), k);
      assert k in children;
      var j :| 0 <= j < |children| && children[j] == k;
      assert k in w.1;
    }
    forall k | Descends(rows, k, q, ws) ensures k in t {
      DescendsSplit(rows, k, q, ws);
      if rows[k].parentPath != q {
        var c :| c in rows && rows[c].workspace.name == ws && rows[c].parentPath == q && Descends(rows, k, rows[c].path, ws);
        ChildListed(rows, applied, next, q, ws, c);
        var j :| 0 <= j < |children| && children[j] == c;
        assert SameShape(rows[c], applied[c]);
        DescendsSameTree(rows, applied, k, rows[c].path, ws);
        assert k in w.1;
      }
    }
  }

  /** A child of q is listed among the children of q after the migrations at q. */
  lemma ChildListed(rows: map<Handle, NodeData>, applied: map<Handle, NodeData>, next: nat, q: string, ws: string, c: Handle)
    requires SameTree(rows, applied) && forall k :: k in rows ==> k < next
    requires c in rows && rows[c].parentPath == q && rows[c].workspace.name == ws
    ensures c in Children(applied, q, ws, 0, next)
  {
    assert SameShape(rows[c], applied[c]);
    ChildrenMatch(applied, q, ws, 0, next);
    assert Hit(applied, ChildOf(q, ws), c);
  }

  lemma {:induction false} WalkListVisits(rows: map<Handle, NodeData>, next: nat, q: string, ws: string, cs: seq<Handle>, i: nat,
                                          rules: seq<Migration>, fuel: nat)
    requires i <= |cs|
    requires Linked(rows) && q != "" && DepthFits(rows, q, ws, fuel + 1) && forall k :: k in rows ==> k < next
    requires forall j :: 0 <= j < i ==> cs[j] in rows && rows[cs[j]].parentPath == q && rows[cs[j]].workspace.name == ws
    decreases fuel, 2, i
    ensures ListVisited(rows, q, ws, cs, i, WalkList(rows, next, q, ws, cs, i, rules, fuel))
    ensures ListReached(rows, ws, cs, i, WalkList(rows, next, q, ws, cs, i, rules, fuel).1)
  {
    if i > 0 {
      var c := cs[i - 1];
      WalkListVisits(rows, next, q, ws, cs, i - 1, rules, fuel);
      var w := WalkList(rows, next, q, ws, cs, i - 1, rules, fuel);
      ChildFits(rows, w.0, q, ws, c, fuel + 1);
      assert forall k :: k in w.0 ==> k < next;
      WalkVisits(w.0, next, c, rules, fuel);
      var v := Walk(w.0, next, c, rules, fuel);
      assert WalkList(rows, next, q, ws, cs, i, rules, fuel) == (v.0, w.1 + v.1);
      ListVisitedStep(rows, q, ws, cs, i, w, v);
      ListReachedStep(rows, w.0, ws, cs, i, w.1, v.1);
    }
  }

  /** Walking the first i children cs reached the sub-tree of each of them. */
  ghost predicate ListReached(rows: map<Handle, NodeData>, ws: string, cs: seq<Handle>, i: nat, trace: seq<Handle>)
    requires i <= |cs|
  {
    forall j, k :: 0 <= j < i && cs[j] in rows && Descends(rows, k, rows[cs[j]].path, ws) ==> k in trace
  }

  /** One more child walked keeps ListReached. */
  lemma ListReachedStep(rows: map<Handle, NodeData>, S: map<Handle, NodeData>, ws: string, cs: seq<Handle>, i: nat,
                        done: seq<Handle>, more: seq<Handle>)
    requires 0 < i <= |cs| && ListReached(rows, ws, cs, i - 1, done) && SameTree(rows, S)
    requires cs[i - 1] in rows && forall k :: Descends(S, k, S[cs[i - 1]].path, ws) ==> k in more
    ensures ListReached(rows, ws, cs, i, done + more)
  {
    var c := cs[i - 1];
    assert SameShape(rows[c], S[c]);
    forall j, k | 0 <= j < i && cs[j] in rows && Descends(rows, k, rows[cs[j]].path, ws) ensures k in done + more {
      if j == i - 1 {
        DescendsSameTree(rows, S, k, rows[c].path, ws);
      }
    }
  }

  /** What walking the first i children of q leaves behind: the same tree,
      a trace of records of ws below q that includes those children, and
      every record outside the trace unchanged. */
  ghost predicate ListVisited(rows: map<Handle, NodeData>, q: string, ws: string, cs: seq<Handle>, i: nat,
                              r: (map<Handle, NodeData>, seq<Handle>))
    requires i <= |cs|
  {
    SameTree(rows, r.0) &&
    (forall t :: t in r.1 ==> t in rows && rows[t].workspace.name == ws && IsUnder(rows[t].path, q)) &&
    (forall k :: k in rows && k !in r.1 ==> r.0[k] == rows[k]) &&
    (forall j :: 0 <= j < i ==> cs[j] in r.1)
  }

  /** One more child walked keeps ListVisited. */
  lemma ListVisitedStep(rows: map<Handle, NodeData>, q: string, ws: string, cs: seq<Handle>, i: nat,
                        w: (map<Handle, NodeData>, seq<Handle>), v: (map<Handle, NodeData>, seq<Handle>))
    requires 0 < i <= |cs| && ListVisited(rows, q, ws, cs, i - 1, w)
    requires cs[i - 1] in rows && rows[cs[i - 1]].workspace.name == ws && IsUnder(rows[cs[i - 1]].path, q)
    requires SameTree(w.0, v.0) && |v.1| >= 1 && v.1[0] == cs[i - 1]
    requires forall x :: x in v.1[1..] ==>
      x in w.0 && w.0[x].workspace.name == ws && IsUnder(w.0[x].path, rows[cs[i - 1]].path)
    requires forall k :: k in w.0 && k !in v.1 ==> v.0[k] == w.0[k]
    ensures ListVisited(rows, q, ws, cs, i, (v.0, w.1 + v.1))
  {
    var c := cs[i - 1];
    var cp := rows[c].path;
    SameTreeTrans(rows, w.0, v.0);
    forall t | t in w.1 + v.1 ensures t in rows && rows[t].workspace.name == ws && IsUnder(rows[t].path, q) {
      if t !in w.1 && t != c {
        var x :| 0 <= x < |v.1| && v.1[x] == t;
        assert v.1[1..][x - 1] == t;
        assert SameShape(rows[t], w.0[t]);
        UnderChildUnder(rows[t].path, cp, q);
      }
    }
    forall j | 0 <= j < i ensures cs[j] in w.1 + v.1 {
      if j == i - 1 {
        assert cs[j] == v.1[0];
      }
    }
  }

  /** walkNodes, recursive like the source; the migration type is handed down
      unchanged and the ghost out-parameter records the visit order. */
  method WalkNodes(store: Store, h: Handle, rules: seq<Migration>, direction: Direction, ghost fuel: nat)
    returns (ghost trace: seq<Handle>)
    requires store.Valid() && Linked(store.rows) && h in store.rows && fuel >= 1
    requires DepthFits(store.rows, store.rows[h].path, store.rows[h].workspace.name, fuel)
    modifies store
    decreases fuel, 1, 0
    ensures store.Valid() && store.next == old(store.next) && SameTree(old(store.rows), store.rows)
    ensures (store.rows, trace) == Walk(old(store.rows), old(store.next), h, rules, fuel)
  {
    ghost var O := store.rows;
    var q := store.rows[h].path;
    var ws := store.rows[h].workspace.name;
    ApplyMigrations(store, h, rules);
    ghost var A := store.rows;
    ApplyRulesShape(rules, O[h]);
    assert SameTree(O, A);
    SameTreeLinked(O, A);
    SameTreeFits(O, A, q, ws, fuel);
    var children := ChildNodes(store, q, ws);
    ChildrenAreChildren(A, q, ws, 0, store.next);
    trace := [];
    var i := 0;
    while i < |children|
      invariant 0 <= i <= |children|
      invariant store.Valid() && store.next == old(store.next) && SameTree(A, store.rows)
      invariant (store.rows, trace) == WalkList(A, store.next, q, ws, children, i, rules, fuel - 1)
    {
      ghost var S := store.rows;
      var t := WalkChild(store, A, q, ws, children[i], rules, direction, fuel - 1);
      SameTreeTrans(A, S, store.rows);
      trace := trace + t;
      i := i + 1;
    }
    SameTreeTrans(O, A, store.rows);
    trace := [h] + trace;
  }

  /** One iteration of the second loop of walkNodes. */
  method WalkChild(store: Store, ghost A: map<Handle, NodeData>, q: string, ws: string, c: Handle,
                   rules: seq<Migration>, direction: Direction, ghost fuel: nat) returns (ghost trace: seq<Handle>)
    requires store.Valid() && Linked(A) && SameTree(A, store.rows) && q != "" && DepthFits(A, q, ws, fuel + 1)
    requires c in A && A[c].parentPath == q && A[c].workspace.name == ws
    modifies store
    decreases fuel, 2, 0
    ensures store.Valid() && store.next == old(store.next) && SameTree(old(store.rows), store.rows)
    ensures (store.rows, trace) == Walk(old(store.rows), old(store.next), c, rules, fuel)
  {
    ChildFits(A, store.rows, q, ws, c, fuel + 1);
    trace := WalkNodes(store, c, rules, direction, fuel);
  }

  // ---------------------------------------------------------------------
  // The migration service
  // ---------------------------------------------------------------------

  /** The longest stored path gives every walk enough fuel. */
  lemma AllDepthsFit(rows: map<Handle, NodeData>, next: nat, q: string, ws: string)
    requires forall k :: k in rows ==> k < next
    ensures DepthFits(rows, q, ws, MaxPathLength(rows, next) + 1)
  {
  }

  class NodeMigration {
    const workspaceName: string
    const configuration: seq<Migration>
    /** Memo of the resolved workspace. */
    var workspace: Option<Workspace>

    constructor (workspaceName: string, configuration: seq<Migration>)
      ensures this.workspaceName == workspaceName && this.configuration == configuration && workspace.None?
    {
      this.workspaceName := workspaceName;
      this.configuration := configuration;
      workspace := None;
    }

    /** getWorkspace: the memo when set; otherwise the workspace of that name,
        or MigrationException when there is none. */
    method GetWorkspace(repo: Contexts.WorkspaceRepository) returns (r: Result<Workspace, MigrationError>)
      modifies this
      ensures old(workspace).Some? ==> workspace == old(workspace) && r == Success(old(workspace).value)
      ensures old(workspace).None? ==> workspace == Contexts.FindByName(repo.workspaces, workspaceName)
      ensures r.Success? <==> workspace.Some?
      ensures r.Success? ==> r.value == workspace.value
      ensures r.Failure? ==> r.error == MissingWorkspace(workspaceName)
    {
      if workspace.None? {
        workspace := repo.FindOneByName(workspaceName);
        if workspace.None? {
          return Failure(MissingWorkspace(workspaceName));
        }
      }
      return Success(workspace.value);
    }

    /** migrateUp / migrateDown: resolve the workspace, find its "/" record and
        walk from there; the direction only travels down the walk. */
    method Migrate(repo: Contexts.WorkspaceRepository, store: Store, direction: Direction) returns (o: Outcome<MigrationError>)
      requires Good(store)
      modifies this, store
      ensures Good(store) && store.next == old(store.next)
      ensures old(workspace).Some? ==> workspace == old(workspace)
      ensures old(workspace).None? ==> workspace == Contexts.FindByName(repo.workspaces, workspaceName)
      ensures workspace.None? ==> o == Fail(MissingWorkspace(workspaceName)) && store.rows == old(store.rows)
      ensures workspace.Some? ==> (o, store.rows) == MigrationResult(old(store.rows), old(store.next), workspace.value, configuration)
    {
      var w := GetWorkspace(repo);
      if w.Failure? {
        return Fail(w.error);
      }
      o := MigrateWorkspace(store, w.value, configuration, direction);
    }
  }

  /** The outcome and the records after migrating the workspace ws: no "/"
      record means MissingRootNode and no change, otherwise the walk from the
      first one, with enough fuel for the deepest record. */
  ghost function MigrationResult(rows: map<Handle, NodeData>, next: nat, ws: Workspace, rules: seq<Migration>)
    : (Outcome<MigrationError>, map<Handle, NodeData>)
  {
    var root := FirstMatch(rows, AtPath("/", ws.name, None), 0, next);
    if root.None? then (Fail(MissingRootNode), rows)
    else (Pass, Walk(rows, next, root.value, rules, MaxPathLength(rows, next) + 1).0)
  }

  /** The part of migrateUp / migrateDown after the workspace is known. */
  method MigrateWorkspace(store: Store, ws: Workspace, rules: seq<Migration>, direction: Direction)
    returns (o: Outcome<MigrationError>)
    requires Good(store)
    modifies store
    ensures Good(store) && store.next == old(store.next)
    ensures (o, store.rows) == MigrationResult(old(store.rows), old(store.next), ws, rules)
  {
    var root := store.FindFirst(AtPath("/", ws.name, None));
    if root.None? {
      return Fail(MissingRootNode);
    }
    ghost var R0 := store.rows;
    WellFormedLinked(R0);
    WalkFromRoot(store, ws, root.value, rules, direction);
    SameTreeWellFormed(R0, store.rows);
    return Pass;
  }

  /** walkNodes on the first "/" record, with enough fuel for the deepest record. */
  method WalkFromRoot(store: Store, ws: Workspace, root: Handle, rules: seq<Migration>, direction: Direction)
    requires store.Valid() && Linked(store.rows)
    requires FirstMatch(store.rows, AtPath("/", ws.name, None), 0, store.next) == Some(root)
    modifies store
    ensures store.Valid() && store.next == old(store.next) && SameTree(old(store.rows), store.rows)
    ensures (Pass, store.rows) == MigrationResult(old(store.rows), old(store.next), ws, rules)
  {
    ghost var R0, N0 := store.rows, store.next;
    ghost var fuel := MaxPathLength(R0, N0) + 1;
    AllDepthsFit(R0, N0, R0[root].path, R0[root].workspace.name);
    assert root in R0 && fuel >= 1;
    var trace := WalkNodes(store, root, rules, direction, fuel);
    WalkIsResult(R0, N0, ws, rules, root, store.rows, trace);
  }

  lemma WalkIsResult(R0: map<Handle, NodeData>, N0: nat, ws: Workspace, rules: seq<Migration>, root: Handle,
                     R1: map<Handle, NodeData>, trace: seq<Handle>)
    requires FirstMatch(R0, AtPath("/", ws.name, None), 0, N0) == Some(root)
    requires (R1, trace) == Walk(R0, N0, root, rules, MaxPathLength(R0, N0) + 1)
    ensures (Pass, R1) == MigrationResult(R0, N0, ws, rules)
  {
    var w := Walk(R0, N0, root, rules, MaxPathLength(R0, N0) + 1);
    assert R1 == w.0;
  }

  /** A migration reaches the root record of the workspace first and applies
      the configured migrations to it, and it visits every top-level record
      of that workspace. */
  lemma MigrationStartsAtRoot(rows: map<Handle, NodeData>, next: nat, root: Handle, rules: seq<Migration>)
    requires Linked(rows) && forall k :: k in rows ==> k < next
    requires root in rows && rows[root].path == "/"
    ensures Walk(rows, next, root, rules, MaxPathLength(rows, next) + 1).1[0] == root
    ensures root in Walk(rows, next, root, rules, MaxPathLength(rows, next) + 1).0 &&
      Walk(rows, next, root, rules, MaxPathLength(rows, next) + 1).0[root] == ApplyRules(rules, rows[root])
    ensures forall k :: k in rows && rows[k].parentPath == "/" && rows[k].workspace.name == rows[root].workspace.name ==>
      k in Walk(rows, next, root, rules, MaxPathLength(rows, next) + 1).1
    ensures forall k :: Descends(rows, k, "/", rows[root].workspace.name) ==>
      k in Walk(rows, next, root, rules, MaxPathLength(rows, next) + 1).1
  {
    var fuel := MaxPathLength(rows, next) + 1;
    AllDepthsFit(rows, next, "/", rows[root].workspace.name);
    WalkVisits(rows, next, root, rules, fuel);
    var w := Walk(rows, next, root, rules, fuel);
    assert w.1[0] == root && w.0[root] == ApplyRules(rules, rows[root]);
    assert root in w.0;
  }
}
