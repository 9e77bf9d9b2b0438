/** The node data record of the current content repository: its fields, the
    values derived from them, and the record-level predicates and updates. */
module NodeDataModel {
  import opened Wrappers
  import opened Strings
  import opened Paths
  import opened Dimensions
  import opened Workspaces

  /** A point in time; only compared for equality here. */
  datatype DateTime = DateTime(stamp: int)

  /** A property value. */
  datatype Value = NullValue | Text(text: string) | Number(number: int) | Flag(flag: bool)

  /** Reference to an external content object that can hold the properties. */
  datatype ObjectRef = ObjectRef(id: nat)

  /** The fields a record shares with every other kind of node data. */
  datatype NodeContent = NodeContent(
    properties: map<string, Value>,
    nodeType: Option<string>,
    hidden: bool,
    hiddenBeforeDateTime: Option<DateTime>,
    hiddenAfterDateTime: Option<DateTime>,
    hiddenInIndex: bool,
    accessRoles: seq<string>,
    contentObject: Option<ObjectRef>)

  const EmptyContent := NodeContent(map[], None, false, None, None, false, [], None)

  /** A node data record. `depth` is a cache that is filled on first read. */
  datatype NodeData = NodeData(
    path: string,
    parentPath: string,
    depth: Option<nat>,
    workspace: Workspace,
    identifier: string,
    index: Option<int>,
    removed: bool,
    dimensions: seq<NodeDimension>,
    dimensionValues: seq<DimensionEntry>,
    content: NodeContent)

  datatype NodeError =
    | InvalidPath(path: string)                  // InvalidArgumentException 1284369857
    | InvalidNodeName(name: string)              // InvalidArgumentException 1292428697
    | NodeExists(existing: string)               // NodeExistsException 1292503471
    | InvalidNodePath(error: PathError)          // InvalidArgumentException 1291371910
    | InvalidNodeContext(dimension: string)      // InvalidNodeContextException 1391686089

  /** The invariant every stored record keeps: the path is valid, the parent
      path is derived from it, the cached depth (if any) is the path's depth,
      and the cached dimension values are the canonical grouping. */
  predicate WellFormed(n: NodeData)
  {
    ValidPath(n.path) &&
    n.parentPath == ParentPathOf(n.path) &&
    (n.depth.None? || n.depth.value == DepthOf(n.path)) &&
    n.dimensionValues == Canonical(n.dimensions)
  }

  /** The record the constructor builds (setPath without recursion, then the dimensions). */
  function NewNodeData(path: string, ws: Workspace, identifier: string, dims: Option<seq<DimensionEntry>>): (r: Result<NodeData, NodeError>)
    ensures r.Failure? <==> !ValidPath(path)
    ensures r.Success? ==>
      (WellFormed(r.value) && r.value.path == path && r.value.workspace == ws &&
       r.value.identifier == identifier && !r.value.removed && r.value.index.None? && r.value.content == EmptyContent)
    ensures r.Success? ==> r.value.dimensions == if dims.Some? then Flatten(dims.value) else []
  {
    if !ValidPath(path) then Failure(InvalidPath(path))
    else
      var ds := if dims.Some? then Flatten(dims.value) else [];
      Success(NodeData(path, ParentPathOf(path), if path == "/" then Some(0) else None,
                       ws, identifier, None, false, ds, Canonical(ds), EmptyContent))
  }

  // ---------------------------------------------------------------------
  // Derived values
  // ---------------------------------------------------------------------

  function GetName(n: NodeData): string
  {
    NameOf(n.path)
  }

  /** path, followed by "@workspace" unless the workspace is live. */
  function ContextPathOf(path: string, workspaceName: string): string
  {
    if workspaceName != LiveName then path + "@" + workspaceName else path
  }

  function GetContextPath(n: NodeData): string
  {
    ContextPathOf(n.path, n.workspace.name)
  }

  /** Reads a context path back into node path and workspace name. */
  function ParseContextPath(cp: string): (string, string)
  {
    var parts := Split(cp, '@');
    (parts[0], if |parts| == 1 then LiveName else Join(parts[1..], '@'))
  }

  lemma ValidPathNoAt(p: string)
    requires ValidPath(p)
    ensures '@' !in p
  {
    SegmentsOfPath(p);
    var parts := [""] + Segments(p);
    forall i | 0 <= i < |parts| ensures '@' !in parts[i] {
      if i > 0 {
        var n := parts[i];
        assert ValidName(n);
        forall t | 0 <= t < |n| ensures n[t] != '@' {
          assert NameChar(n[t]);
        }
      }
    }
    JoinAvoids(parts, '/', '@');
  }

  /** The context path determines the record's path and workspace name. */
  lemma ContextPathRoundTrip(path: string, workspaceName: string)
    requires ValidPath(path)
    ensures ParseContextPath(ContextPathOf(path, workspaceName)) == (path, workspaceName)
  {
    ValidPathNoAt(path);
    SplitNoSep(path, '@');
    if workspaceName != LiveName {
      SplitAround(path, '@', workspaceName);
      assert path + "@" + workspaceName == path + ['@'] + workspaceName;
      JoinSplit(workspaceName, '@');
      assert ([path] + Split(workspaceName, '@'))[1..] == Split(workspaceName, '@');
    }
  }

  // ---------------------------------------------------------------------
  // setPath on one record
  // ---------------------------------------------------------------------

  /** The path fields after setPath: the parent path is derived from the new
      path and the depth cache starts over. */
  function WithPath(n: NodeData, p: string): (r: NodeData)
    ensures r == n.(path := p, parentPath := r.parentPath, depth := r.depth)
  {
    n.(path := p, parentPath := ParentPathOf(p), depth := if p == "/" then Some(0) else None)
  }

  /** setPath keeps a record well formed, and the new parent path is the
      path the new one is a child of. */
  lemma WithPathWellFormed(n: NodeData, p: string)
    requires WellFormed(n) && ValidPath(p)
    ensures WellFormed(WithPath(n, p))
    ensures p == "/" ==> WithPath(n, p).parentPath == "" && WithPath(n, p).depth == Some(0)
    ensures p != "/" ==> ValidPath(WithPath(n, p).parentPath) && p == ChildPath(WithPath(n, p).parentPath, NameOf(p))
  {
    if p != "/" {
      Decompose(p);
    }
  }

  /** setPath as written: the depth cache is only reset for the root path. */
  function WithPathAsWritten(n: NodeData, p: string): NodeData
  {
    n.(path := p, parentPath := ParentPathOf(p), depth := if p == "/" then Some(0) else n.depth)
  }

  lemma SamplePathAB()
    ensures ValidPath("/a/b") && ParentPathOf("/a/b") == "/a" && DepthOf("/a/b") == 2
  {
    assert ValidName("a") && ValidName("b");
    assert ChildPath("/", "a") == "/a";
    ChildPathFacts("/", "a");
    assert ChildPath("/a", "b") == "/a/b";
    ChildPathFacts("/a", "b");
  }

  lemma SamplePathC()
    ensures ValidPath("/c") && DepthOf("/c") == 1
  {
    ChildPathFacts("/", "c");
    assert ChildPath("/", "c") == "/c";
    assert "/c"[..1] == "/";
    assert "/"[..0] == "";
  }

  /** Moving a record whose depth was already read leaves the old depth in the cache. */
  lemma StaleDepthAsWritten()
    ensures var n := NodeData("/a/b", "/a", Some(2), Workspace(LiveName, None), "id", None, false, [], [], EmptyContent);
      WellFormed(n) && ValidPath("/c") && !WellFormed(WithPathAsWritten(n, "/c"))
  {
    SamplePathAB();
    SamplePathC();
    assert Canonical([]) == [];
  }

  // ---------------------------------------------------------------------
  // Visibility and access
  // ---------------------------------------------------------------------

  /** Only the hidden flag decides; the hidden-before/after dates are not consulted. */
  function IsVisible(n: NodeData): bool
  {
    !n.content.hidden
  }

  lemma VisibilityIgnoresDates(n: NodeData, before: Option<DateTime>, after: Option<DateTime>)
    ensures IsVisible(n.(content := n.content.(hiddenBeforeDateTime := before, hiddenAfterDateTime := after)))
         == IsVisible(n)
    ensures IsVisible(n) <==> !n.content.hidden
  {
  }

  function HasAccessRestrictions(roles: seq<string>): bool
  {
    if |roles| == 0 then false
    else if |roles| == 1 && "Everybody" in roles then false
    else true
  }

  /** isAccessible: unrestricted records are accessible; otherwise the first
      access role the security context holds grants access. */
  method IsAccessible(n: NodeData, hasRole: string -> bool) returns (r: bool)
    ensures r <==>
      (!HasAccessRestrictions(n.content.accessRoles) ||
       exists i :: 0 <= i < |n.content.accessRoles| && hasRole(n.content.accessRoles[i]))
  {
    var roles := n.content.accessRoles;
    if !HasAccessRestrictions(roles) {
      return true;
    }
    var i := 0;
    while i < |roles|
      invariant 0 <= i <= |roles|
      invariant forall j :: 0 <= j < i ==> !hasRole(roles[j])
    {
      if hasRole(roles[i]) {
        return true;
      }
      i := i + 1;
    }
    return false;
  }

  /** Restrictions exist unless the role list is empty or exactly ["Everybody"]. */
  lemma HasAccessRestrictionsIff(roles: seq<string>)
    ensures !HasAccessRestrictions(roles) <==> roles == [] || roles == ["Everybody"]
  {
    if |roles| == 1 && "Everybody" in roles {
      assert roles == [roles[0]];
    }
  }

  // ---------------------------------------------------------------------
  // Matching a workspace and dimensions
  // ---------------------------------------------------------------------

  function MatchesWorkspaceAndDimensions(n: NodeData, ws: Workspace, dims: Option<seq<DimensionEntry>>): bool
  {
    n.workspace.name == ws.name && (dims.None? || MatchesDimensions(n.dimensionValues, dims.value))
  }

  /** Workspace names equal and, if dimensions are requested, every requested
      dimension set on the record with a common value. */
  lemma MatchesWorkspaceAndDimensionsIff(n: NodeData, ws: Workspace, dims: Option<seq<DimensionEntry>>)
    ensures MatchesWorkspaceAndDimensions(n, ws, dims) <==>
      n.workspace.name == ws.name &&
      (dims.Some? ==> forall i :: 0 <= i < |dims.value| ==>
        Lookup(n.dimensionValues, dims.value[i].name).Some? &&
        Intersects(Lookup(n.dimensionValues, dims.value[i].name).value, dims.value[i].values))
  {
    if dims.Some? {
      MatchesDimensionsIff(n.dimensionValues, dims.value);
    }
  }

  // ---------------------------------------------------------------------
  // similarize
  // ---------------------------------------------------------------------

  /** What similarize copies from: another record (which also provides its
      index) or a template. */
  datatype SimilarSource = FromNodeData(index: Option<int>) | FromTemplate

  function Similarize(n: NodeData, source: NodeContent, kind: SimilarSource): (r: NodeData)
    ensures r.path == n.path && r.parentPath == n.parentPath && r.depth == n.depth &&
      r.workspace == n.workspace && r.identifier == n.identifier && r.removed == n.removed &&
      r.dimensions == n.dimensions && r.dimensionValues == n.dimensionValues
    ensures WellFormed(n) ==> WellFormed(r)
  {
    var c := n.content.(
      properties := source.properties,
      nodeType := source.nodeType,
      hidden := source.hidden,
      hiddenAfterDateTime := source.hiddenAfterDateTime,
      hiddenBeforeDateTime := source.hiddenBeforeDateTime,
      hiddenInIndex := source.hiddenInIndex,
      accessRoles := source.accessRoles,
      contentObject := if source.contentObject.Some? then source.contentObject else n.content.contentObject);
    n.(content := c, index := if kind.FromNodeData? then kind.index else n.index)
  }

  /** After similarize the record's content equals the source's, except that a
      source without content object leaves the record's own; making similar twice
      changes nothing more. */
  lemma SimilarizeSpec(n: NodeData, source: NodeContent, kind: SimilarSource)
    ensures Similarize(n, source, kind).content ==
      source.(contentObject := if source.contentObject.Some? then source.contentObject else n.content.contentObject)
    ensures Similarize(Similarize(n, source, kind), source, kind) == Similarize(n, source, kind)
  {
  }
}
