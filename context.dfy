/** The context of the current content repository: lazy, memoised workspace
    resolution against the workspace repository, absolute node lookup, the
    visibility flags and the context string. */
module Contexts {
  import opened Wrappers
  import opened Strings
  import opened Repository
  import opened Paths
  import opened Workspaces
  import opened NodeDataModel
  import opened NodeDataOps
  import opened WorkspacePublishing

  // ---------------------------------------------------------------------
  // The workspace repository
  // ---------------------------------------------------------------------

  /** findOneByName over the workspaces in the order they were added. */
  function FindByName(known: seq<Workspace>, name: string): (r: Option<Workspace>)
    ensures r.Some? ==> r.value in known && r.value.name == name
    ensures r.None? <==> forall i :: 0 <= i < |known| ==> known[i].name != name
  {
    if |known| == 0 then None
    else if known[0].name == name then Some(known[0])
    else FindByName(known[1..], name)
  }

  /** A later addition does not hide a workspace found before it. */
  lemma {:induction false} FindByNameAppend(known: seq<Workspace>, extra: seq<Workspace>, name: string)
    ensures FindByName(known, name).Some? ==> FindByName(known + extra, name) == FindByName(known, name)
    ensures FindByName(known, name).None? ==> FindByName(known + extra, name) == FindByName(extra, name)
  {
    if |known| > 0 {
      assert (known + extra)[1..] == known[1..] + extra;
      FindByNameAppend(known[1..], extra, name);
    } else {
      assert known + extra == extra;
    }
  }

  class WorkspaceRepository {
    var workspaces: seq<Workspace>

    constructor ()
      ensures workspaces == []
    {
      workspaces := [];
    }

    method FindOneByName(name: string) returns (r: Option<Workspace>)
      ensures r == FindByName(workspaces, name)
    {
      var i := 0;
      while i < |workspaces|
        invariant 0 <= i <= |workspaces|
        invariant FindByName(workspaces[i..], name) == FindByName(workspaces, name)
      {
        if workspaces[i].name == name {
          return Some(workspaces[i]);
        }
        assert workspaces[i..][1..] == workspaces[i + 1..];
        i := i + 1;
      }
      return None;
    }

    method Add(w: Workspace)
      modifies this
      ensures workspaces == old(workspaces) + [w]
    {
      workspaces := workspaces + [w];
    }
  }

  // ---------------------------------------------------------------------
  // Workspace resolution
  // ---------------------------------------------------------------------

  /** The outcome of getWorkspace on an empty memo: the workspace (if any) and
      the workspaces created and added on the way, in order. */
  datatype Resolution = Resolution(result: Option<Workspace>, created: seq<Workspace>)

  function ResolveWorkspace(known: seq<Workspace>, name: string, create: bool): Resolution
  {
    match FindByName(known, name)
    case Some(w) => Resolution(Some(w), [])
    case None =>
      if !create then Resolution(None, [])
      else
        var live := FindByName(known, LiveName);
        var liveW := if live.Some? then live.value else Workspace(LiveName, None);
        var made := if live.Some? then [] else [liveW];
        if name == LiveName then Resolution(Some(liveW), made)
        else Resolution(Some(Workspace(name, Some(liveW))), made + [Workspace(name, Some(liveW))])
  }

  /** Resolution finds an existing workspace without creating anything, returns
      nothing only when creation is off, and otherwise yields a workspace of the
      requested name: live itself, or one based on the live workspace, which is
      then registered. Resolving again finds the same workspace and creates
      nothing, which is what the memo relies on. */
  lemma ResolveSpec(known: seq<Workspace>, name: string, create: bool)
    ensures FindByName(known, name).Some? ==> ResolveWorkspace(known, name, create) == Resolution(FindByName(known, name), [])
    ensures ResolveWorkspace(known, name, create).result.None? <==> !create && FindByName(known, name).None?
    ensures ResolveWorkspace(known, name, create).result.None? ==> ResolveWorkspace(known, name, create).created == []
    ensures ResolveWorkspace(known, name, create).result.Some? ==> ResolveWorkspace(known, name, create).result.value.name == name
    ensures ResolveWorkspace(known, name, create).result.Some? && name != LiveName && FindByName(known, name).None? ==>
      ResolveWorkspace(known, name, create).result.value.base ==
        FindByName(known + ResolveWorkspace(known, name, create).created, LiveName)
    ensures ResolveWorkspace(known, name, create).result.Some? ==>
      FindByName(known + ResolveWorkspace(known, name, create).created, name) == ResolveWorkspace(known, name, create).result
    ensures ResolveWorkspace(known, name, create).result.Some? ==>
      ResolveWorkspace(known + ResolveWorkspace(known, name, create).created, name, create) ==
        Resolution(ResolveWorkspace(known, name, create).result, [])
  {
    var r := ResolveWorkspace(known, name, create);
    if FindByName(known, name).None? && create {
      var live := FindByName(known, LiveName);
      FindByNameAppend(known, r.created, name);
      FindByNameAppend(known, r.created, LiveName);
      var liveW := if live.Some? then live.value else Workspace(LiveName, None);
      if live.None? {
        assert FindByName([liveW], LiveName) == Some(liveW);
        if name != LiveName {
          assert ([liveW] + [Workspace(name, Some(liveW))])[1..] == [Workspace(name, Some(liveW))];
        }
      } else if name != LiveName {
        assert FindByName([Workspace(name, Some(liveW))], name) == Some(Workspace(name, Some(liveW)));
      }
    } else if FindByName(known, name).Some? {
      assert known + [] == known;
    }
  }

  /** The store after the root records of the created workspaces were added, one
      per workspace, with consecutive handles and identifiers. */
  function WithRoots(rows: map<Handle, NodeData>, next: nat, created: seq<Workspace>, issued: nat): map<Handle, NodeData>
    decreases |created|
  {
    if |created| == 0 then rows
    else WithRoots(rows[next := RootRecord(created[0], GeneratedIdentifier(issued))], next + 1, created[1..], issued + 1)
  }

  /** Records present before keep their handle and contents. */
  lemma {:induction false} WithRootsKeeps(rows: map<Handle, NodeData>, next: nat, created: seq<Workspace>, issued: nat, k: Handle)
    requires k in rows && k < next
    ensures k in WithRoots(rows, next, created, issued) && WithRoots(rows, next, created, issued)[k] == rows[k]
    decreases |created|
  {
    if |created| > 0 {
      WithRootsKeeps(rows[next := RootRecord(created[0], GeneratedIdentifier(issued))], next + 1, created[1..], issued + 1, k);
    }
  }

  /** The i-th created workspace owns the root record at handle next + i. */
  lemma {:induction false} WithRootsAt(rows: map<Handle, NodeData>, next: nat, created: seq<Workspace>, issued: nat, i: nat)
    requires i < |created|
    ensures next + i in WithRoots(rows, next, created, issued)
    ensures WithRoots(rows, next, created, issued)[next + i] == RootRecord(created[i], GeneratedIdentifier(issued + i))
    decreases |created|
  {
    var R := rows[next := RootRecord(created[0], GeneratedIdentifier(issued))];
    assert WithRoots(rows, next, created, issued) == WithRoots(R, next + 1, created[1..], issued + 1);
    if i == 0 {
      WithRootsKeeps(R, next + 1, created[1..], issued + 1, next);
    } else {
      WithRootsAt(R, next + 1, created[1..], issued + 1, i - 1);
      assert created[1..][i - 1] == created[i];
      assert next + 1 + (i - 1) == next + i && issued + 1 + (i - 1) == issued + i;
    }
  }

  /** getNodesOnPath's repository query: the records of the workspace lying on the
      way from the starting point down to the end point. */
  function OnPath(start: string, end: string, ws: Option<Workspace>): NodeData -> bool
  {
    (n: NodeData) => ws.Some? && n.workspace.name == ws.value.name &&
      (n.path == start || IsUnder(n.path, start)) && (n.path == end || IsUnder(end, n.path))
  }

  /** A starting or end point of getNodesOnPath: a node or a path. */
  datatype Point = NodePoint(handle: Handle) | PathPoint(path: string)

  datatype ContextError =
    | NotAbsolute(path: string)          // InvalidArgumentException 1284975105
    | NoRootNode(workspace: string)      // the workspace has no root record to start from
    | LookupFailed(error: NodeError)

  /** What getNode returns for the given path in workspace ws. */
  function ContextLookup(rows: map<Handle, NodeData>, next: nat, ws: string, path: string): Result<Option<Handle>, ContextError>
  {
    if |path| == 0 || path[0] != '/' then Failure(NotAbsolute(path))
    else
      var root := FirstMatch(rows, AtPath("/", ws, None), 0, next);
      if path == "/" then Success(root)
      else if root.None? then Failure(NoRootNode(ws))
      else match NodeLookup(rows, next, "/", ws, path[1..])
        case Failure(e) => Failure(LookupFailed(e))
        case Success(r) => Success(r)
  }

  /** Looking up a valid absolute path from the root finds the record at exactly that path. */
  lemma ContextLookupValid(rows: map<Handle, NodeData>, next: nat, ws: string, path: string)
    requires ValidPath(path) && FirstMatch(rows, AtPath("/", ws, None), 0, next).Some?
    ensures ContextLookup(rows, next, ws, path) == Success(FirstMatch(rows, AtPath(path, ws, None), 0, next))
  {
    ValidPathShape(path);
    if path != "/" {
      var rel := path[1..];
      NormalizeValidPath("/", path);
      assert path == "/" + rel;
      assert Absolute("/", rel) == path;
      if rel == "." {
        ValidNoDots(path);
        SplitAround("", '/', ".");
        SplitNoSep(".", '/');
        SplitNoSep("", '/');
        assert false;
      }
      assert !HasDoubleSlash(rel);
    }
  }

  /** The context string is the workspace name followed by the path; for a name
      without "/" the two parts are recovered at the first "/". */
  lemma ContextStringSplits(name: string, path: string)
    requires '/' !in name && ValidPath(path)
    ensures (name + path)[..|name|] == name && (name + path)[|name|..] == path
    ensures (name + path)[|name|] == '/' && forall i :: 0 <= i < |name| ==> (name + path)[i] != '/'
  {
    ValidPathShape(path);
    forall i | 0 <= i < |name| ensures (name + path)[i] != '/' {
      assert (name + path)[i] == name[i];
      assert name[i] in name;
    }
  }

  // ---------------------------------------------------------------------
  // The context
  // ---------------------------------------------------------------------

  class Context {
    /** The memo: NULL until getWorkspace found or created the workspace. */
    var workspace: Option<Workspace>
    const workspaceName: string
    var currentDateTime: DateTime
    var currentNode: Option<Handle>
    var invisibleContentShown: bool
    var removedContentShown: bool
    var inaccessibleContentShown: bool

    /** The memoised workspace, once there, carries this context's workspace name. */
    ghost predicate Named()
      reads this
    {
      workspace.Some? ==> workspace.value.name == workspaceName
    }

    /** The current time is taken as an argument. */
    constructor (workspaceName: string, now: DateTime)
      ensures this.workspaceName == workspaceName && workspace.None? && currentNode.None? && Named()
      ensures currentDateTime == now
      ensures !invisibleContentShown && !removedContentShown && !inaccessibleContentShown
    {
      this.workspaceName := workspaceName;
      workspace := None;
      currentDateTime := now;
      currentNode := None;
      invisibleContentShown := false;
      removedContentShown := false;
      inaccessibleContentShown := false;
    }

    /** getWorkspace: resolves once and memoises; creating a workspace adds it to
        the workspace repository and adds its root record to the store. */
    method GetWorkspace(repo: WorkspaceRepository, store: Store, ids: IdentifierSource, create: bool)
      returns (w: Option<Workspace>)
      requires Good(store) && Named()
      modifies this, repo, store, ids
      ensures Good(store) && Named()
      ensures workspace == w && currentNode == old(currentNode) && currentDateTime == old(currentDateTime)
      ensures invisibleContentShown == old(invisibleContentShown) && removedContentShown == old(removedContentShown)
      ensures inaccessibleContentShown == old(inaccessibleContentShown)
      ensures old(workspace).Some? ==>
        w == old(workspace) && repo.workspaces == old(repo.workspaces) &&
        store.rows == old(store.rows) && store.next == old(store.next) && ids.issued == old(ids.issued)
      ensures old(workspace).None? ==>
        var r := ResolveWorkspace(old(repo.workspaces), workspaceName, create);
        w == r.result && repo.workspaces == old(repo.workspaces) + r.created &&
        store.rows == WithRoots(old(store.rows), old(store.next), r.created, old(ids.issued)) &&
        store.next == old(store.next) + |r.created| && ids.issued == old(ids.issued) + |r.created|
    {
      if workspace.Some? {
        return workspace;
      }
      var found := repo.FindOneByName(workspaceName);
      workspace := found;
      if found.Some? || !create {
        return found;
      }
      var created := CreateMissing(repo, store, ids, workspaceName);
      workspace := Some(created);
      w := workspace;
      ResolveSpec(old(repo.workspaces), workspaceName, create);
    }

    /** getNode: only absolute paths; "/" is the root record, anything else is
        looked up from the root. */
    method GetNode(repo: WorkspaceRepository, store: Store, ids: IdentifierSource, path: string)
      returns (r: Result<Option<Handle>, ContextError>)
      requires Good(store) && Named()
      modifies this, repo, store, ids
      ensures Good(store) && Named()
      ensures currentNode == old(currentNode) && currentDateTime == old(currentDateTime)
      ensures invisibleContentShown == old(invisibleContentShown) && removedContentShown == old(removedContentShown)
      ensures inaccessibleContentShown == old(inaccessibleContentShown)
      ensures |path| == 0 || path[0] != '/' ==> r == Failure(NotAbsolute(path)) && unchanged(this, repo, store, ids)
      ensures |path| > 0 && path[0] == '/' ==>
        workspace.Some? && r == ContextLookup(store.rows, store.next, workspaceName, path)
      ensures |path| > 0 && path[0] == '/' && old(workspace).Some? ==>
        workspace == old(workspace) && repo.workspaces == old(repo.workspaces) &&
        store.rows == old(store.rows) && store.next == old(store.next) && ids.issued == old(ids.issued)
      ensures |path| > 0 && path[0] == '/' && old(workspace).None? ==>
        var res := ResolveWorkspace(old(repo.workspaces), workspaceName, true);
        workspace == res.result && repo.workspaces == old(repo.workspaces) + res.created &&
        store.rows == WithRoots(old(store.rows), old(store.next), res.created, old(ids.issued)) &&
        store.next == old(store.next) + |res.created| && ids.issued == old(ids.issued) + |res.created|
    {
      if |path| == 0 || path[0] != '/' {
        return Failure(NotAbsolute(path));
      }
      var w := GetWorkspace(repo, store, ids, true);
      ResolveSpec(old(repo.workspaces), workspaceName, true);
      var root := store.FindFirst(AtPath("/", w.value.name, None));
      if path == "/" {
        return Success(root);
      }
      if root.None? {
        return Failure(NoRootNode(w.value.name));
      }
      var found := NodeDataOps.GetNode(store, root.value, path[1..]);
      ghost var n := store.rows[root.value];
      assert n.path == "/" && n.workspace.name == w.value.name;
      if found.Failure? {
        return Failure(LookupFailed(found.error));
      }
      return Success(found.value);
    }

    /** getNodesOnPath: the repository query with the memoised workspace (which
        may still be NULL, in which case nothing matches). */
    method GetNodesOnPath(store: Store, startingPoint: Point, endPoint: Point) returns (nodes: seq<Handle>)
      requires Good(store)
      requires startingPoint.NodePoint? ==> startingPoint.handle in store.rows
      requires endPoint.NodePoint? ==> endPoint.handle in store.rows
      ensures forall k :: k in nodes <==>
        k in store.rows && OnPath(PointPath(store.rows, startingPoint), PointPath(store.rows, endPoint), workspace)(store.rows[k])
    {
      var start := if startingPoint.NodePoint? then store.rows[startingPoint.handle].path else startingPoint.path;
      var end := if endPoint.NodePoint? then store.rows[endPoint.handle].path else endPoint.path;
      nodes := store.FindAll(OnPath(start, end, workspace));
    }

    method SetCurrentNode(node: Handle)
      modifies this
      ensures currentNode == Some(node)
      ensures workspace == old(workspace) && currentDateTime == old(currentDateTime)
      ensures invisibleContentShown == old(invisibleContentShown) && removedContentShown == old(removedContentShown)
      ensures inaccessibleContentShown == old(inaccessibleContentShown)
    {
      currentNode := Some(node);
    }

    method SetCurrentDateTime(now: DateTime)
      modifies this
      ensures currentDateTime == now
      ensures workspace == old(workspace) && currentNode == old(currentNode)
      ensures invisibleContentShown == old(invisibleContentShown) && removedContentShown == old(removedContentShown)
      ensures inaccessibleContentShown == old(inaccessibleContentShown)
    {
      currentDateTime := now;
    }

    method SetInvisibleContentShown(shown: bool)
      modifies this
      ensures invisibleContentShown == shown
      ensures workspace == old(workspace) && currentNode == old(currentNode) && currentDateTime == old(currentDateTime)
      ensures removedContentShown == old(removedContentShown) && inaccessibleContentShown == old(inaccessibleContentShown)
    {
      invisibleContentShown := shown;
    }

    method SetRemovedContentShown(shown: bool)
      modifies this
      ensures removedContentShown == shown
      ensures workspace == old(workspace) && currentNode == old(currentNode) && currentDateTime == old(currentDateTime)
      ensures invisibleContentShown == old(invisibleContentShown) && inaccessibleContentShown == old(inaccessibleContentShown)
    {
      removedContentShown := shown;
    }

    method SetInaccessibleContentShown(shown: bool)
      modifies this
      ensures inaccessibleContentShown == shown
      ensures workspace == old(workspace) && currentNode == old(currentNode) && currentDateTime == old(currentDateTime)
      ensures invisibleContentShown == old(invisibleContentShown) && removedContentShown == old(removedContentShown)
    {
      inaccessibleContentShown := shown;
    }

    /** __toString: the workspace name followed by the current node's path. */
    function ToString(rows: map<Handle, NodeData>): (s: string)
      requires currentNode.Some? && currentNode.value in rows
      reads this
      ensures |s| == |workspaceName| + |rows[currentNode.value].path|
      ensures s[..|workspaceName|] == workspaceName && s[|workspaceName|..] == rows[currentNode.value].path
    {
      workspaceName + rows[currentNode.value].path
    }
  }

  /** The live workspace getWorkspace bases a new workspace on: the registered
      one, or a new one that is registered together with its root record. */
  method LiveWorkspace(repo: WorkspaceRepository, store: Store, ids: IdentifierSource) returns (live: Workspace)
    requires Good(store)
    modifies repo, store, ids
    ensures Good(store)
    ensures var found := FindByName(old(repo.workspaces), LiveName);
      var made := if found.Some? then [] else [live];
      live == (if found.Some? then found.value else Workspace(LiveName, None)) &&
      repo.workspaces == old(repo.workspaces) + made &&
      store.rows == WithRoots(old(store.rows), old(store.next), made, old(ids.issued)) &&
      store.next == old(store.next) + |made| && ids.issued == old(ids.issued) + |made|
  {
    var found := repo.FindOneByName(LiveName);
    if found.Some? {
      live := found.value;
      assert repo.workspaces + [] == repo.workspaces;
    } else {
      var root: Handle;
      live, root := CreateWorkspace(store, ids, LiveName, None);
      repo.Add(live);
      WithRootsUnfold(old(store.rows), old(store.next), [live], old(ids.issued));
    }
  }

  /** getWorkspace when the name is not registered and creation is allowed. */
  method CreateMissing(repo: WorkspaceRepository, store: Store, ids: IdentifierSource, name: string) returns (w: Workspace)
    requires Good(store) && FindByName(repo.workspaces, name).None?
    modifies repo, store, ids
    ensures Good(store)
    ensures var r := ResolveWorkspace(old(repo.workspaces), name, true);
      r.result == Some(w) && repo.workspaces == old(repo.workspaces) + r.created &&
      store.rows == WithRoots(old(store.rows), old(store.next), r.created, old(ids.issued)) &&
      store.next == old(store.next) + |r.created| && ids.issued == old(ids.issued) + |r.created|
  {
    ghost var known := repo.workspaces;
    ghost var made := if FindByName(known, LiveName).Some? then [] else [Workspace(LiveName, None)];
    var live := LiveWorkspace(repo, store, ids);
    if name == LiveName {
      w := live;
    } else {
      w := CreateBased(repo, store, ids, name, live);
      WithRootsAppend(old(store.rows), old(store.next), made, [w], old(ids.issued));
      assert repo.workspaces == known + (made + [w]);
    }
  }

  /** A new workspace based on live, added to the repository, with its root record. */
  method CreateBased(repo: WorkspaceRepository, store: Store, ids: IdentifierSource, name: string, live: Workspace)
    returns (w: Workspace)
    requires Good(store)
    modifies repo, store, ids
    ensures Good(store)
    ensures w == Workspace(name, Some(live)) && repo.workspaces == old(repo.workspaces) + [w]
    ensures store.rows == WithRoots(old(store.rows), old(store.next), [w], old(ids.issued))
    ensures store.next == old(store.next) + 1 && ids.issued == old(ids.issued) + 1
  {
    var root: Handle;
    w, root := CreateWorkspace(store, ids, name, Some(live));
    repo.Add(w);
    WithRootsUnfold(old(store.rows), old(store.next), [w], old(ids.issued));
  }

  /** Adding the roots of two lists of workspaces in turn. */
  lemma {:induction false} WithRootsAppend(rows: map<Handle, NodeData>, next: nat, a: seq<Workspace>, b: seq<Workspace>, issued: nat)
    ensures WithRoots(rows, next, a + b, issued) ==
      WithRoots(WithRoots(rows, next, a, issued), next + |a|, b, issued + |a|)
    decreases |a|
  {
    if |a| == 0 {
      assert a + b == b;
    } else {
      var R := rows[next := RootRecord(a[0], GeneratedIdentifier(issued))];
      assert (a + b)[0] == a[0] && (a + b)[1..] == a[1..] + b;
      assert WithRoots(rows, next, a + b, issued) == WithRoots(R, next + 1, a[1..] + b, issued + 1);
      assert WithRoots(rows, next, a, issued) == WithRoots(R, next + 1, a[1..], issued + 1);
      WithRootsAppend(R, next + 1, a[1..], b, issued + 1);
      var W := WithRoots(R, next + 1, a[1..], issued + 1);
      assert next + 1 + |a[1..]| == next + |a| && issued + 1 + |a[1..]| == issued + |a|;
      assert WithRoots(R, next + 1, a[1..] + b, issued + 1) == WithRoots(W, next + |a|, b, issued + |a|);
    }
  }

  /** The path of a starting or end point. */
  function PointPath(rows: map<Handle, NodeData>, p: Point): string
    requires p.NodePoint? ==> p.handle in rows
  {
    if p.NodePoint? then rows[p.handle].path else p.path
  }

  /** WithRoots for at most two created workspaces, written out. */
  lemma WithRootsUnfold(rows: map<Handle, NodeData>, next: nat, created: seq<Workspace>, issued: nat)
    requires |created| <= 2
    ensures |created| == 1 ==> WithRoots(rows, next, created, issued) == rows[next := RootRecord(created[0], GeneratedIdentifier(issued))]
    ensures |created| == 2 ==>
      (WithRoots(rows, next, created, issued) ==
       rows[next := RootRecord(created[0], GeneratedIdentifier(issued))][next + 1 := RootRecord(created[1], GeneratedIdentifier(issued + 1))])
  {
    if |created| == 2 {
      var R := rows[next := RootRecord(created[0], GeneratedIdentifier(issued))];
      assert created[1..][1..] == [];
      assert WithRoots(R, next + 1, created[1..], issued + 1) ==
        WithRoots(R[next + 1 := RootRecord(created[1], GeneratedIdentifier(issued + 1))], next + 2, [], issued + 2);
    }
  }
}
