/** The older content repository: a node object that keeps its properties
    inline or hands them to an attached content object, the workspace it lives
    in, and the context that resolves that workspace and absolute paths. */
module Legacy {
  import opened Wrappers
  import opened Strings
  import opened Paths
  import opened Repository
  import opened NodeDataModel
  import opened Workspaces
  import NodeDataOps
  import Labels

  // ---------------------------------------------------------------------
  // Entities
  // ---------------------------------------------------------------------

  /** The content type a node has until setContentType is called. */
  const DefaultContentType := "unstructured"

  /** An object attached as a node's content: the names ObjectAccess can read and
      write on it, and the values it holds. */
  datatype ContentObject = ContentObject(className: string, gettable: set<string>, settable: set<string>, values: map<string, Value>)

  /** What setContentObject receives: an object, or any other PHP value. */
  datatype Argument = ObjectArgument(obj: ContentObject) | ScalarArgument(value: Value)

  datatype LegacyError =
    | IllegalPath(path: string)                          // InvalidArgumentException 1284369857
    | NotAnObject(given: Value)                          // InvalidArgumentException 1283522467
    | NoSuchProperty(name: string, className: string)    // NodeException 1291286995
    | UnknownContentType(contentType: string)            // NodeException 1285519999
    | RootNotMovable                                     // NodeException 1285005924
    | OtherLevel(path: string, referencePath: string)    // NodeException 1285005926
    | RelativePathError(error: PathError)                  // InvalidArgumentException 1291371910
    | NotAbsolute(path: string)                          // InvalidArgumentException 1284975105
    | NoRootNode(workspace: string)                      // the workspace has no root node to start from

  /** A workspace of the older model: its name and base are fixed at creation; the
      context is handed to it by the context that resolved it. */
  class LegacyWorkspace {
    const name: string
    const baseWorkspace: Option<LegacyWorkspace>
    var context: Option<LegacyContext>

    constructor (name: string, baseWorkspace: Option<LegacyWorkspace>)
      ensures this.name == name && this.baseWorkspace == baseWorkspace && context.None?
    {
      this.name := name;
      this.baseWorkspace := baseWorkspace;
      context := None;
    }

    method SetContext(c: LegacyContext)
      modifies this
      ensures context == Some(c)
    {
      context := Some(c);
    }
  }

  /** A node of the older model. `context` is the transient context the node was
      handed out by. */
  datatype LegacyNode = LegacyNode(
    path: string,
    depth: nat,
    workspace: LegacyWorkspace,
    identifier: string,
    index: Option<int>,
    properties: map<string, Value>,
    contentObject: Option<ContentObject>,
    contentType: string,
    removed: bool,
    context: Option<LegacyContext>)

  /** What setPath guarantees of every node: the path matches the path pattern
      and the depth is the one derived from it. */
  predicate LegacyWellFormed(n: LegacyNode)
  {
    ValidPath(n.path) && n.depth == DepthOf(n.path)
  }

  // ---------------------------------------------------------------------
  // Path, name and depth
  // ---------------------------------------------------------------------

  /** setPath: a path that does not match the pattern is rejected; otherwise the
      path is stored with depth 0 for "/" and the number of slashes otherwise. */
  function WithLegacyPath(n: LegacyNode, p: string): Result<LegacyNode, LegacyError>
  {
    if !ValidPath(p) then Failure(IllegalPath(p))
    else Success(n.(path := p, depth := if p == "/" then 0 else Count(p, '/')))
  }

  /** setPath accepts exactly the paths of the pattern, leaves a well-formed node
      whose depth is the number of names on the path, and changes nothing else. */
  lemma WithLegacyPathSpec(n: LegacyNode, p: string)
    ensures WithLegacyPath(n, p).Failure? <==> !ValidPath(p)
    ensures WithLegacyPath(n, p).Failure? ==> WithLegacyPath(n, p).error == IllegalPath(p)
    ensures WithLegacyPath(n, p).Success? ==>
      var r := WithLegacyPath(n, p).value;
      LegacyWellFormed(r) && r.path == p && r.depth == |Segments(p)| &&
      r.(path := n.path, depth := n.depth) == n
  {
    if ValidPath(p) {
      DepthIsLength(p);
    }
  }

  /** The node the constructor builds: setPath on a fresh node, then the
      workspace and the identifier. */
  function NewLegacyNode(p: string, ws: LegacyWorkspace, identifier: string): Result<LegacyNode, LegacyError>
  {
    var blank := LegacyNode("/", 0, ws, identifier, None, map[], None, DefaultContentType, false, None);
    WithLegacyPath(blank, p)
  }

  /** A new node has the given path, workspace and identifier, no index, no
      properties, no content object, the default content type and no context. */
  lemma NewLegacyNodeSpec(p: string, ws: LegacyWorkspace, identifier: string)
    ensures NewLegacyNode(p, ws, identifier).Failure? <==> !ValidPath(p)
    ensures NewLegacyNode(p, ws, identifier).Success? ==>
      var n := NewLegacyNode(p, ws, identifier).value;
      LegacyWellFormed(n) && n.path == p && n.workspace == ws && n.identifier == identifier &&
      n.index.None? && n.properties == map[] && n.contentObject.None? &&
      n.contentType == DefaultContentType && !n.removed && n.context.None?
  {
    WithLegacyPathSpec(LegacyNode("/", 0, ws, identifier, None, map[], None, DefaultContentType, false, None), p);
  }

  /** getName: "" for the root, otherwise what follows the last slash. */
  function LegacyName(n: LegacyNode): string
  {
    if n.path == "/" then "" else
      var i := LastIndex(n.path, '/');
      n.path[i + 1..]
  }

  /** The name of a node is the last name on its path, and a child path built
      from a name gives that name back. */
  lemma LegacyNameSpec(n: LegacyNode, q: string, name: string)
    requires LegacyWellFormed(n)
    ensures LegacyName(n) == NameOf(n.path)
    ensures n.path != "/" ==> ValidName(LegacyName(n)) && n.path == ChildPath(ParentPathOf(n.path), LegacyName(n))
    ensures ValidPath(q) && ValidName(name) && n.path == ChildPath(q, name) ==> LegacyName(n) == name
  {
    ValidPathShape(n.path);
    if n.path != "/" {
      Decompose(n.path);
    }
    if ValidPath(q) && ValidName(name) && n.path == ChildPath(q, name) {
      ChildPathFacts(q, name);
    }
  }

  /** substr(path, 0, strrpos(path, '/')): what moveBefore compares. */
  function Level(p: string): string
  {
    var i := LastIndex(p, '/');
    if i >= 0 then p[..i] else ""
  }

  /** For a valid path the compared prefix is the parent path without a trailing slash. */
  lemma LevelOfValid(p: string)
    requires ValidPath(p)
    ensures Level(p) == Stem(ParentPathOf(p))
  {
    if p == "/" {
      assert LastIndex(p, '/') == 0;
    } else {
      Decompose(p);
      var q, name := ParentPathOf(p), NameOf(p);
      ValidNameNoSlash(name);
      assert p == Stem(q) + ['/'] + name;
      LastIndexAfter(Stem(q), '/', name);
      assert p[..|Stem(q)|] == Stem(q);
    }
  }

  /** moveBefore's guards (the move itself is not implemented): the root cannot
      be moved, and the reference node must be on the same level. */
  function MoveBefore(p: string, referencePath: string): Outcome<LegacyError>
  {
    if p == "/" then Fail(RootNotMovable)
    else if Level(p) != Level(referencePath) then Fail(OtherLevel(p, referencePath))
    else Pass
  }

  /** For valid paths the guard lets through exactly the siblings of the moved
      node, and, for a top-level node, also the root itself. */
  lemma MoveBeforeSpec(p: string, referencePath: string)
    requires ValidPath(p) && ValidPath(referencePath)
    ensures p == "/" ==> MoveBefore(p, referencePath) == Fail(RootNotMovable)
    ensures MoveBefore(p, referencePath) == Pass <==>
      p != "/" &&
      (ParentPathOf(p) == ParentPathOf(referencePath) || (referencePath == "/" && ParentPathOf(p) == "/"))
  {
    LevelOfValid(p);
    LevelOfValid(referencePath);
    if p != "/" {
      Decompose(p);
      var pp := ParentPathOf(p);
      var rp := ParentPathOf(referencePath);
      if referencePath != "/" {
        Decompose(referencePath);
        ValidPathShape(pp);
        ValidPathShape(rp);
        if pp != "/" && rp != "/" {
          assert Stem(pp) == pp && Stem(rp) == rp;
        }
      } else {
        assert rp == "" && Stem(rp) == "";
        ValidPathShape(pp);
      }
    }
  }

  // ---------------------------------------------------------------------
  // The property bag
  // ---------------------------------------------------------------------

  /** ObjectAccess::getProperty on a gettable name. */
  function ObjectValue(o: ContentObject, name: string): Value
  {
    if name in o.values then o.values[name] else NullValue
  }

  /** setProperty: inline without a content object; with one, only a settable
      name is written, to the object, and any other name is ignored. */
  function WithProperty(n: LegacyNode, name: string, v: Value): (r: LegacyNode)
    ensures n.contentObject.None? ==> GetProperty(r, name) == Success(v) && r.contentObject.None?
    ensures n.contentObject.None? ==> forall m :: m != name ==> GetProperty(r, m) == GetProperty(n, m)
    ensures n.contentObject.None? ==> GetPropertyNames(r) == GetPropertyNames(n) + {name}
    ensures n.contentObject.Some? ==> r.properties == n.properties && r.contentObject.Some?
    ensures n.contentObject.Some? && name !in n.contentObject.value.settable ==> r == n
    ensures n.contentObject.Some? && name in n.contentObject.value.settable && name in n.contentObject.value.gettable ==>
      GetProperty(r, name) == Success(v)
  {
    match n.contentObject
    case None => n.(properties := n.properties[name := v])
    case Some(o) =>
      if name in o.settable then n.(contentObject := Some(o.(values := o.values[name := v]))) else n
  }

  /** hasProperty: isset on the inline bag (so a NULL value does not count), or
      gettability on the content object. */
  function HasProperty(n: LegacyNode, name: string): (r: bool)
    ensures r ==> GetProperty(n, name).Success?
    ensures n.contentObject.None? ==> (r <==> GetProperty(n, name) != Success(NullValue))
    ensures n.contentObject.Some? ==> (r <==> GetProperty(n, name).Success?)
    ensures n.contentObject.Some? && !r ==> GetProperty(n, name) == Failure(NoSuchProperty(name, n.contentObject.value.className))
  {
    match n.contentObject
    case None => name in n.properties && n.properties[name] != NullValue
    case Some(o) => name in o.gettable
  }

  /** getProperty: NULL for a missing inline name; with a content object, only a
      gettable name can be read. */
  function GetProperty(n: LegacyNode, name: string): Result<Value, LegacyError>
  {
    match n.contentObject
    case None => Success(if name in n.properties then n.properties[name] else NullValue)
    case Some(o) =>
      if name in o.gettable then Success(ObjectValue(o, name)) else Failure(NoSuchProperty(name, o.className))
  }

  /** getProperties: the inline bag, or the gettable properties of the object. */
  function GetProperties(n: LegacyNode): (r: map<string, Value>)
    ensures r.Keys == GetPropertyNames(n)
    ensures forall m :: m in r ==> GetProperty(n, m) == Success(r[m])
  {
    match n.contentObject
    case None => n.properties
    case Some(o) => map name | name in o.gettable :: ObjectValue(o, name)
  }

  /** getPropertyNames, as a set: the order of the names is not kept. */
  function GetPropertyNames(n: LegacyNode): (r: set<string>)
    ensures n.contentObject.Some? ==> forall m :: m in r <==> HasProperty(n, m)
    ensures n.contentObject.None? ==> forall m :: HasProperty(n, m) ==> m in r
  {
    match n.contentObject
    case None => n.properties.Keys
    case Some(o) => o.gettable
  }

  /** setContentObject: anything but an object is rejected. */
  function WithContentObject(n: LegacyNode, arg: Argument): Result<LegacyNode, LegacyError>
  {
    match arg
    case ScalarArgument(v) => Failure(NotAnObject(v))
    case ObjectArgument(o) => Success(n.(contentObject := Some(o)))
  }

  function WithoutContentObject(n: LegacyNode): LegacyNode
  {
    n.(contentObject := None)
  }

  /** Attaching an object and taking it off again restores inline behaviour with
      the inline bag as it was before; a non-object is refused. */
  lemma ContentObjectRoundTrip(n: LegacyNode, arg: Argument, name: string)
    ensures WithContentObject(n, arg).Failure? <==> arg.ScalarArgument?
    ensures arg.ObjectArgument? ==> WithContentObject(n, arg).value.contentObject == Some(arg.obj)
    ensures arg.ObjectArgument? ==> WithoutContentObject(WithContentObject(n, arg).value) == WithoutContentObject(n)
    ensures n.contentObject.None? ==> WithoutContentObject(n) == n
    ensures GetProperty(WithoutContentObject(n), name) ==
      Success(if name in n.properties then n.properties[name] else NullValue)
  {
  }

  /** setContentType: the type must be known to the content type manager. */
  function WithContentType(n: LegacyNode, contentType: string, hasContentType: string -> bool): Result<LegacyNode, LegacyError>
  {
    if !hasContentType(contentType) then Failure(UnknownContentType(contentType))
    else Success(n.(contentType := contentType))
  }

  lemma WithContentTypeSpec(n: LegacyNode, contentType: string, hasContentType: string -> bool)
    ensures WithContentType(n, contentType, hasContentType).Success? <==> hasContentType(contentType)
    ensures WithContentType(n, contentType, hasContentType).Failure? ==>
      WithContentType(n, contentType, hasContentType).error == UnknownContentType(contentType)
    ensures WithContentType(n, contentType, hasContentType).Success? ==>
      WithContentType(n, contentType, hasContentType).value == n.(contentType := contentType)
  {
  }

  /** getLabel: the title (through strip_tags) when the node has one, otherwise
      "(" content type ") " name, cropped to LABEL_MAXIMUM_CHARACTERS. */
  function NodeLabel(n: LegacyNode, stripTags: string -> string): (r: string)
    ensures |r| <= Labels.LabelMaximumCharacters + |Labels.Ellipsis|
    ensures HasProperty(n, "title") ==>
      r == Labels.Crop(stripTags(Labels.ValueString(GetProperty(n, "title").value)), Labels.LabelMaximumCharacters)
    ensures !HasProperty(n, "title") ==>
      r == Labels.Crop(Labels.TypeAndName(n.contentType, LegacyName(n)), Labels.LabelMaximumCharacters)
  {
    var title := if HasProperty(n, "title") && GetProperty(n, "title").Success? then Some(GetProperty(n, "title").value) else None;
    Labels.LegacyLabel(title, n.contentType, LegacyName(n), stripTags)
  }

  // ---------------------------------------------------------------------
  // The node repository
  // ---------------------------------------------------------------------

  type LegacyStore = Table<LegacyNode>

  ghost predicate AllLegacyWellFormed(rows: map<Handle, LegacyNode>)
  {
    forall k :: k in rows ==> LegacyWellFormed(rows[k])
  }

  ghost predicate Sound(store: LegacyStore)
    reads store
  {
    store.Valid() && AllLegacyWellFormed(store.rows)
  }

  /** findOneByPath(path, workspace) */
  function OnPathIn(path: string, ws: LegacyWorkspace): LegacyNode -> bool
  {
    (n: LegacyNode) => n.path == path && n.workspace == ws
  }

  /** countByParentAndContentType / findByParentAndContentType(parent, NULL, workspace):
      the nodes of the workspace whose parent path is q. */
  function ChildIn(q: string, ws: LegacyWorkspace): LegacyNode -> bool
  {
    (n: LegacyNode) => ParentPathOf(n.path) == q && n.workspace == ws
  }

  /** The node as treatNodeWithContext hands it out: with context c. */
  function HandedTo(n: LegacyNode, c: LegacyContext): LegacyNode
  {
    n.(context := Some(c))
  }

  /** The store after the node found (if any) was handed out with context c. */
  function Treated(rows: map<Handle, LegacyNode>, found: Option<Handle>, c: LegacyContext): (r: map<Handle, LegacyNode>)
    ensures r.Keys == rows.Keys
    ensures forall k :: k in rows ==> r[k] == if found == Some(k) then HandedTo(rows[k], c) else rows[k]
  {
    if found.Some? && found.value in rows then rows[found.value := HandedTo(rows[found.value], c)] else rows
  }

  /** Handing out nodes changes no path and no workspace, so no query answer. */
  lemma {:induction false} TreatedKeepsMatches(rows: map<Handle, LegacyNode>, found: Option<Handle>, c: LegacyContext,
                                              path: string, ws: LegacyWorkspace, lo: nat, hi: nat)
    ensures FirstMatch(Treated(rows, found, c), OnPathIn(path, ws), lo, hi) == FirstMatch(rows, OnPathIn(path, ws), lo, hi)
    ensures AllLegacyWellFormed(rows) ==> AllLegacyWellFormed(Treated(rows, found, c))
    decreases hi - lo
  {
    if lo < hi {
      TreatedKeepsMatches(rows, found, c, path, ws, lo + 1, hi);
    }
  }

  /** An upper bound of all stored path lengths below handle n. */
  ghost function MaxLegacyPathLength(rows: map<Handle, LegacyNode>, n: nat): (m: nat)
    ensures forall k :: k in rows && k < n ==> |rows[k].path| <= m
  {
    if n == 0 then 0
    else
      var rest := MaxLegacyPathLength(rows, n - 1);
      if n - 1 in rows && |rows[n - 1].path| > rest then |rows[n - 1].path| else rest
  }

  /** Adding a record at the next handle appends it to every query answer it matches. */
  lemma {:induction false} AllMatchingAdd(rows: map<Handle, LegacyNode>, p: LegacyNode -> bool, lo: nat, n: nat, x: LegacyNode)
    requires lo <= n && forall k :: k in rows ==> k < n
    ensures AllMatching(rows[n := x], p, lo, n + 1) == AllMatching(rows, p, lo, n) + (if p(x) then [n] else [])
    decreases n - lo
  {
    var R := rows[n := x];
    if lo == n {
      assert AllMatching(R, p, n + 1, n + 1) == [];
      assert AllMatching(rows, p, n, n) == [];
    } else {
      AllMatchingAdd(rows, p, lo + 1, n, x);
      var head := if Hit(rows, p, lo) then [lo] else [];
      assert Hit(R, p, lo) == Hit(rows, p, lo);
      assert AllMatching(R, p, lo, n + 1) == head + AllMatching(R, p, lo + 1, n + 1);
      assert AllMatching(rows, p, lo, n) == head + AllMatching(rows, p, lo + 1, n);
    }
  }

  // ---------------------------------------------------------------------
  // Setters
  // ---------------------------------------------------------------------

  method SetPath(store: LegacyStore, h: Handle, p: string) returns (o: Outcome<LegacyError>)
    requires store.Valid() && h in store.rows
    modifies store
    ensures store.Valid() && store.next == old(store.next)
    ensures !ValidPath(p) ==> o == Fail(IllegalPath(p)) && store.rows == old(store.rows)
    ensures ValidPath(p) ==> o == Pass && store.rows == old(store.rows)[h := WithLegacyPath(old(store.rows[h]), p).value]
  {
    var r := WithLegacyPath(store.rows[h], p);
    if r.Failure? {
      return Fail(r.error);
    }
    store.Update(h, r.value);
    return Pass;
  }

  method SetProperty(store: LegacyStore, h: Handle, name: string, v: Value)
    requires store.Valid() && h in store.rows
    modifies store
    ensures store.Valid() && store.next == old(store.next)
    ensures store.rows == old(store.rows)[h := WithProperty(old(store.rows[h]), name, v)]
  {
    store.Update(h, WithProperty(store.rows[h], name, v));
  }

  method SetContentObject(store: LegacyStore, h: Handle, arg: Argument) returns (o: Outcome<LegacyError>)
    requires store.Valid() && h in store.rows
    modifies store
    ensures store.Valid() && store.next == old(store.next)
    ensures arg.ScalarArgument? ==> o == Fail(NotAnObject(arg.value)) && store.rows == old(store.rows)
    ensures arg.ObjectArgument? ==> o == Pass && store.rows == old(store.rows)[h := WithContentObject(old(store.rows[h]), arg).value]
  {
    var r := WithContentObject(store.rows[h], arg);
    if r.Failure? {
      return Fail(r.error);
    }
    store.Update(h, r.value);
    return Pass;
  }

  method UnsetContentObject(store: LegacyStore, h: Handle)
    requires store.Valid() && h in store.rows
    modifies store
    ensures store.Valid() && store.next == old(store.next)
    ensures store.rows == old(store.rows)[h := WithoutContentObject(old(store.rows[h]))]
  {
    store.Update(h, WithoutContentObject(store.rows[h]));
  }

  /** setIndex: stores the index and touches nothing else. */
  method SetIndex(store: LegacyStore, h: Handle, index: int)
    requires store.Valid() && h in store.rows
    modifies store
    ensures store.Valid() && store.next == old(store.next)
    ensures store.rows == old(store.rows)[h := old(store.rows[h]).(index := Some(index))]
  {
    store.Update(h, store.rows[h].(index := Some(index)));
  }

  method SetContentType(store: LegacyStore, h: Handle, contentType: string, hasContentType: string -> bool)
    returns (o: Outcome<LegacyError>)
    requires store.Valid() && h in store.rows
    modifies store
    ensures store.Valid() && store.next == old(store.next)
    ensures !hasContentType(contentType) ==> o == Fail(UnknownContentType(contentType)) && store.rows == old(store.rows)
    ensures hasContentType(contentType) ==>
      o == Pass && store.rows == old(store.rows)[h := old(store.rows[h]).(contentType := contentType)]
  {
    var r := WithContentType(store.rows[h], contentType, hasContentType);
    if r.Failure? {
      return Fail(r.error);
    }
    store.Update(h, r.value);
    return Pass;
  }

  // ---------------------------------------------------------------------
  // Creation and lookup
  // ---------------------------------------------------------------------

  /** The node createNode adds: a new node at the child path in the context's
      workspace, with the sibling index, the content type if one was given, and
      the creating node's context. */
  function CreatedNode(path: string, ws: LegacyWorkspace, identifier: string, index: int,
                       contentType: Option<string>, c: LegacyContext): LegacyNode
    requires ValidPath(path)
  {
    NewLegacyNode(path, ws, identifier).value.(index := Some(index),
      contentType := if contentType.Some? then contentType.value else DefaultContentType, context := Some(c))
  }

  /** The created node is a well-formed child of q with the given name, one level
      deeper, and counts as a child of q from then on: the next node created below
      q receives the next index. */
  lemma CreatedNodeSpec(rows: map<Handle, LegacyNode>, next: nat, q: string, name: string, ws: LegacyWorkspace,
                        identifier: string, contentType: Option<string>, c: LegacyContext)
    requires ValidPath(q) && ValidName(name) && forall k :: k in rows ==> k < next
    ensures ValidPath(ChildPath(q, name))
    ensures var index := |AllMatching(rows, ChildIn(q, ws), 0, next)| + 1;
      var n := CreatedNode(ChildPath(q, name), ws, identifier, index, contentType, c);
      LegacyWellFormed(n) && LegacyName(n) == name && ParentPathOf(n.path) == q &&
      n.depth == DepthOf(q) + 1 && n.workspace == ws && n.identifier == identifier && n.index == Some(index) &&
      |AllMatching(rows[next := n], ChildIn(q, ws), 0, next + 1)| + 1 == index + 1
  {
    ChildPathFacts(q, name);
    var p := ChildPath(q, name);
    var index := |AllMatching(rows, ChildIn(q, ws), 0, next)| + 1;
    var n := CreatedNode(p, ws, identifier, index, contentType, c);
    NewLegacyNodeSpec(p, ws, identifier);
    LegacyNameSpec(n, q, name);
    AllMatchingAdd(rows, ChildIn(q, ws), 0, next, n);
  }

  /** What createNode(name, contentType) on a node at q leaves behind, given the
      store's rows and next handle and the number of identifiers issued so far:
      its result, the rows, the next handle and the identifiers issued. */
  ghost function Creation(rows: map<Handle, LegacyNode>, next: nat, issued: nat, q: string, name: string,
                          ws: LegacyWorkspace, c: LegacyContext, contentType: Option<string>, hasContentType: string -> bool)
    : (Result<Handle, LegacyError>, map<Handle, LegacyNode>, nat, nat)
  {
    var newPath := ChildPath(q, name);
    if !ValidPath(newPath) then (Failure(IllegalPath(newPath)), rows, next, issued)
    else if contentType.Some? && !hasContentType(contentType.value) then
      (Failure(UnknownContentType(contentType.value)), rows, next, issued + 1)
    else
      var index := |AllMatching(rows, ChildIn(q, ws), 0, next)| + 1;
      (Success(next), rows[next := CreatedNode(newPath, ws, NodeDataOps.GeneratedIdentifier(issued), index, contentType, c)],
       next + 1, issued + 1)
  }

  /** The node the constructor, setIndex, setContentType (when a type is given)
      and treatNodeWithContext make for a valid path: a failure exactly when the
      content type is unknown, and otherwise the node CreatedNode describes. */
  function BuildNode(path: string, ws: LegacyWorkspace, identifier: string, index: int, contentType: Option<string>,
                     hasContentType: string -> bool, c: LegacyContext): (r: Result<LegacyNode, LegacyError>)
    requires ValidPath(path)
    ensures r.Failure? <==> contentType.Some? && !hasContentType(contentType.value)
    ensures r.Failure? ==> r.error == UnknownContentType(contentType.value)
    ensures r.Success? ==> r.value == CreatedNode(path, ws, identifier, index, contentType, c)
  {
    var node := NewLegacyNode(path, ws, identifier).value.(index := Some(index));
    if contentType.None? then Success(HandedTo(node, c))
    else
      match WithContentType(node, contentType.value, hasContentType)
      case Failure(e) => Failure(e)
      case Success(typed) => Success(HandedTo(typed, c))
  }

  /** Whatever createNode does, the store stays sound. */
  lemma CreationSound(rows: map<Handle, LegacyNode>, next: nat, issued: nat, q: string, name: string,
                      ws: LegacyWorkspace, c: LegacyContext, contentType: Option<string>, hasContentType: string -> bool)
    requires AllLegacyWellFormed(rows) && forall k :: k in rows ==> k < next
    ensures var t := Creation(rows, next, issued, q, name, ws, c, contentType, hasContentType);
      AllLegacyWellFormed(t.1) && forall k :: k in t.1 ==> k < t.2
  {
    var p := ChildPath(q, name);
    if ValidPath(p) {
      NewLegacyNodeSpec(p, ws, NodeDataOps.GeneratedIdentifier(issued));
    }
  }

  /** createNode fails on an invalid child path before an identifier is drawn,
      and on an unknown content type after; a failure changes nothing else. */
  lemma CreationFailures(rows: map<Handle, LegacyNode>, next: nat, issued: nat, q: string, name: string,
                         ws: LegacyWorkspace, c: LegacyContext, contentType: Option<string>, hasContentType: string -> bool)
    ensures var t := Creation(rows, next, issued, q, name, ws, c, contentType, hasContentType);
      (t.0.Failure? <==> !ValidPath(ChildPath(q, name)) || (contentType.Some? && !hasContentType(contentType.value))) &&
      (t.0.Failure? ==> t.1 == rows && t.2 == next) &&
      (!ValidPath(ChildPath(q, name)) ==> t.0 == Failure(IllegalPath(ChildPath(q, name))) && t.3 == issued) &&
      (ValidPath(ChildPath(q, name)) ==> t.3 == issued + 1) &&
      (ValidPath(ChildPath(q, name)) && contentType.Some? && !hasContentType(contentType.value) ==>
        t.0 == Failure(UnknownContentType(contentType.value)))
  {
  }

  /** A successful createNode adds, under the next handle and nowhere else, a
      well-formed node at the child path with a fresh identifier, the creating
      context and the index one past the children q had; for a plain name that
      node is the child of q with that name. */
  lemma CreationAdds(rows: map<Handle, LegacyNode>, next: nat, issued: nat, q: string, name: string,
                     ws: LegacyWorkspace, c: LegacyContext, contentType: Option<string>, hasContentType: string -> bool)
    requires ValidPath(q) && forall k :: k in rows ==> k < next
    requires ValidPath(ChildPath(q, name)) && (contentType.None? || hasContentType(contentType.value))
    ensures var t := Creation(rows, next, issued, q, name, ws, c, contentType, hasContentType);
      t.0 == Success(next) && t.2 == next + 1 && t.1.Keys == rows.Keys + {next} &&
      (forall k :: k in rows ==> t.1[k] == rows[k]) &&
      LegacyWellFormed(t.1[next]) && t.1[next].path == ChildPath(q, name) && t.1[next].workspace == ws &&
      t.1[next].identifier == NodeDataOps.GeneratedIdentifier(issued) && t.1[next].context == Some(c) &&
      t.1[next].index == Some(|AllMatching(rows, ChildIn(q, ws), 0, next)| + 1) &&
      t.1[next].contentType == (if contentType.Some? then contentType.value else DefaultContentType) &&
      (ValidName(name) ==> LegacyName(t.1[next]) == name && ParentPathOf(t.1[next].path) == q)
  {
    var id := NodeDataOps.GeneratedIdentifier(issued);
    NewLegacyNodeSpec(ChildPath(q, name), ws, id);
    if ValidName(name) {
      CreatedNodeSpec(rows, next, q, name, ws, id, contentType, c);
    }
  }

  /** createNode(name, contentType): the child path of this node, an index one
      past the number of children in the context's workspace, the constructor's
      path check, a fresh identifier, and the content type check; the node is
      added only when every check passes. */
  method CreateNode(store: LegacyStore, ids: NodeDataOps.IdentifierSource, h: Handle, c: LegacyContext,
                    name: string, contentType: Option<string>, hasContentType: string -> bool)
    returns (r: Result<Handle, LegacyError>)
    requires Sound(store) && h in store.rows && store.rows[h].context == Some(c) && c.workspace.Some?
    modifies store, ids
    ensures Sound(store)
    ensures (r, store.rows, store.next, ids.issued) ==
      Creation(old(store.rows), old(store.next), old(ids.issued), old(store.rows[h].path), name, c.workspace.value, c,
               contentType, hasContentType)
  {
    ghost var R0, N0, I0 := store.rows, store.next, ids.issued;
    var q := store.rows[h].path;
    r := AddChild(store, ids, q, c.workspace.value, c, name, contentType, hasContentType);
    CreationSound(R0, N0, I0, q, name, c.workspace.value, c, contentType, hasContentType);
  }

  /** createNode once the parent's path q and the context's workspace ws are known. */
  method AddChild(store: LegacyStore, ids: NodeDataOps.IdentifierSource, q: string, ws: LegacyWorkspace, c: LegacyContext,
                  name: string, contentType: Option<string>, hasContentType: string -> bool)
    returns (r: Result<Handle, LegacyError>)
    requires store.Valid()
    modifies store, ids
    ensures store.Valid()
    ensures (r, store.rows, store.next, ids.issued) ==
      Creation(old(store.rows), old(store.next), old(ids.issued), q, name, ws, c, contentType, hasContentType)
  {
    var newPath := ChildPath(q, name);
    var siblings := store.CountAll(ChildIn(q, ws));
    if !ValidPath(newPath) {
      return Failure(IllegalPath(newPath));
    }
    var id := ids.Generate();
    var node := BuildNode(newPath, ws, id, siblings + 1, contentType, hasContentType, c);
    if node.Failure? {
      return Failure(node.error);
    }
    var k := store.Add(node.value);
    r := Success(k);
  }

  /** What getNode(p) finds from a node at `base`: the node at the normalized path
      in the context's workspace. */
  function LegacyLookup(rows: map<Handle, LegacyNode>, next: nat, base: string, ws: LegacyWorkspace, p: string)
    : Result<Option<Handle>, LegacyError>
  {
    match Normalized(base, p)
    case Failure(e) => Failure(RelativePathError(e))
    case Success(q) => Success(FirstMatch(rows, OnPathIn(q, ws), 0, next))
  }

  /** A name finds the child with that name, "." the node's own path, and an
      absolute valid path exactly that path. */
  lemma LegacyLookupSpec(rows: map<Handle, LegacyNode>, next: nat, base: string, ws: LegacyWorkspace, p: string)
    requires ValidPath(base)
    ensures ValidName(p) ==> LegacyLookup(rows, next, base, ws, p) == Success(FirstMatch(rows, OnPathIn(ChildPath(base, p), ws), 0, next))
    ensures p == "." ==> LegacyLookup(rows, next, base, ws, p) == Success(FirstMatch(rows, OnPathIn(base, ws), 0, next))
    ensures ValidPath(p) ==> LegacyLookup(rows, next, base, ws, p) == Success(FirstMatch(rows, OnPathIn(p, ws), 0, next))
    ensures HasDoubleSlash(p) && p != "." ==> LegacyLookup(rows, next, base, ws, p) == Failure(RelativePathError(ConsecutiveSlashes))
  {
    if ValidName(p) {
      NormalizeName(base, p);
    }
    if ValidPath(p) {
      NormalizeValidPath(base, p);
    }
  }

  /** getNode(p) on node h: the lookup in the context's workspace; the node found
      is handed out with the context. */
  method GetNodeFrom(store: LegacyStore, h: Handle, c: LegacyContext, p: string) returns (r: Result<Option<Handle>, LegacyError>)
    requires Sound(store) && h in store.rows && store.rows[h].context == Some(c) && c.workspace.Some?
    modifies store
    ensures Sound(store) && store.next == old(store.next)
    ensures r == LegacyLookup(old(store.rows), old(store.next), old(store.rows[h].path), c.workspace.value, p)
    ensures store.rows == Treated(old(store.rows), if r.Success? then r.value else None, c)
  {
    var q := NormalizePath(store.rows[h].path, p);
    if q.Failure? {
      return Failure(RelativePathError(q.error));
    }
    var found := store.FindFirst(OnPathIn(q.value, c.workspace.value));
    if found.Some? {
      store.Update(found.value, HandedTo(store.rows[found.value], c));
    }
    TreatedKeepsMatches(old(store.rows), found, c, q.value, c.workspace.value, 0, store.next);
    r := Success(found);
  }

  // ---------------------------------------------------------------------
  // Sub-trees reached through getChildNodes
  // ---------------------------------------------------------------------

  /** Path p leads up to q in workspace ws: p is q, or a node of ws sits at p
      and p's parent path leads up to q. */
  ghost predicate Reaches(O: map<Handle, LegacyNode>, p: string, q: string, ws: LegacyWorkspace)
    decreases |p|
  {
    p == q ||
    (|ParentPathOf(p)| < |p| && (exists j :: j in O && O[j].workspace == ws && O[j].path == p) &&
     Reaches(O, ParentPathOf(p), q, ws))
  }

  /** Node k belongs to the sub-tree of q in workspace ws: the recursive
      getChildNodes calls that start at q reach it. */
  ghost predicate Descends(O: map<Handle, LegacyNode>, k: Handle, q: string, ws: LegacyWorkspace)
  {
    k in O && O[k].workspace == ws && |ParentPathOf(O[k].path)| < |O[k].path| &&
    Reaches(O, ParentPathOf(O[k].path), q, ws)
  }

  /** Among well-formed nodes, a path that leads up to q is q or lies below it. */
  lemma {:induction false} ReachesUnder(O: map<Handle, LegacyNode>, p: string, q: string, ws: LegacyWorkspace)
    requires AllLegacyWellFormed(O) && q != "" && Reaches(O, p, q, ws)
    ensures p == q || IsUnder(p, q)
    decreases |p|
  {
    if p != q {
      var j :| j in O && O[j].workspace == ws && O[j].path == p;
      var pp := ParentPathOf(p);
      ReachesUnder(O, pp, q, ws);
      assert LegacyWellFormed(O[j]);
      assert p != "/";
      ChildIsUnder(p);
      if pp != q {
        UnderChildUnder(p, pp, q);
      }
    }
  }

  /** Among well-formed nodes, a node of q's sub-tree lies below q. */
  lemma DescendsUnder(O: map<Handle, LegacyNode>, k: Handle, q: string, ws: LegacyWorkspace)
    requires AllLegacyWellFormed(O) && q != "" && Descends(O, k, q, ws)
    ensures IsUnder(O[k].path, q)
  {
    var pp := ParentPathOf(O[k].path);
    ReachesUnder(O, pp, q, ws);
    assert LegacyWellFormed(O[k]);
    assert O[k].path != "/";
    ChildIsUnder(O[k].path);
    if pp != q {
      UnderChildUnder(O[k].path, pp, q);
    }
  }

  lemma {:induction false} ReachesTrans(O: map<Handle, LegacyNode>, p: string, r: string, q: string, ws: LegacyWorkspace)
    requires Reaches(O, p, r, ws) && Reaches(O, r, q, ws)
    ensures Reaches(O, p, q, ws)
    decreases |p|
  {
    if p != r {
      ReachesTrans(O, ParentPathOf(p), r, q, ws);
    }
  }

  /** A node below a node of q's sub-tree is in q's sub-tree. */
  lemma DescendsTrans(O: map<Handle, LegacyNode>, k: Handle, i: Handle, q: string, ws: LegacyWorkspace)
    requires i in O && Descends(O, k, O[i].path, ws) && Descends(O, i, q, ws)
    ensures Descends(O, k, q, ws)
  {
    assert Reaches(O, O[i].path, q, ws);
    ReachesTrans(O, ParentPathOf(O[k].path), O[i].path, q, ws);
  }

  /** A child node of q in ws is in q's sub-tree. */
  lemma ChildDescends(O: map<Handle, LegacyNode>, ch: Handle, q: string, ws: LegacyWorkspace)
    requires ch in O && LegacyWellFormed(O[ch]) && ParentPathOf(O[ch].path) == q && O[ch].workspace == ws
    ensures Descends(O, ch, q, ws)
  {
    if O[ch].path != "/" {
      ChildIsUnder(O[ch].path);
    }
  }

  /** A node of q's sub-tree is a child of q or in the sub-tree of one. */
  lemma {:induction false} DescendsSplit(O: map<Handle, LegacyNode>, k: Handle, q: string, ws: LegacyWorkspace)
    requires Descends(O, k, q, ws)
    ensures ParentPathOf(O[k].path) == q ||
      exists ch :: ch in O && O[ch].workspace == ws && ParentPathOf(O[ch].path) == q && Descends(O, k, O[ch].path, ws)
    decreases |O[k].path|
  {
    var pp := ParentPathOf(O[k].path);
    if pp != q {
      var j :| j in O && O[j].workspace == ws && O[j].path == pp;
      assert Descends(O, j, q, ws);
      assert Descends(O, k, O[j].path, ws);
      DescendsSplit(O, j, q, ws);
      if ParentPathOf(O[j].path) != q {
        var ch :| ch in O && O[ch].workspace == ws && ParentPathOf(O[ch].path) == q && Descends(O, j, O[ch].path, ws);
        DescendsTrans(O, k, j, O[ch].path, ws);
      }
    }
  }

  /** A chain of nodes that leads p up to r in O either survives unchanged in
      S, or passes through a node that S changed or dropped. */
  lemma {:induction false} ReachesKept(O: map<Handle, LegacyNode>, S: map<Handle, LegacyNode>, p: string, r: string,
                                       ws: LegacyWorkspace)
    requires Reaches(O, p, r, ws)
    ensures Reaches(S, p, r, ws) ||
      exists i :: i in O && O[i].workspace == ws && (i !in S || S[i] != O[i]) && Reaches(O, p, O[i].path, ws)
    decreases |p|
  {
    if p != r {
      var j :| j in O && O[j].workspace == ws && O[j].path == p;
      if j !in S || S[j] != O[j] {
        assert Reaches(O, p, O[j].path, ws);
      } else {
        ReachesKept(O, S, ParentPathOf(p), r, ws);
        if !Reaches(S, ParentPathOf(p), r, ws) {
          var i :| i in O && O[i].workspace == ws && (i !in S || S[i] != O[i]) &&
            Reaches(O, ParentPathOf(p), O[i].path, ws);
          assert Reaches(O, p, O[i].path, ws);
        }
      }
    }
  }

  /** The same for a node of r's sub-tree that S keeps. */
  lemma DescendsKept(O: map<Handle, LegacyNode>, S: map<Handle, LegacyNode>, k: Handle, r: string, ws: LegacyWorkspace)
    requires Descends(O, k, r, ws) && k in S && S[k] == O[k]
    ensures Descends(S, k, r, ws) ||
      exists i :: i in O && O[i].workspace == ws && (i !in S || S[i] != O[i]) && Descends(O, k, O[i].path, ws)
  {
    ReachesKept(O, S, ParentPathOf(O[k].path), r, ws);
  }

  /** A chain that leads p up to r in S runs through nodes that O holds at the
      same places, when every node of S sits where it sat in O. */
  lemma {:induction false} ReachesBack(S: map<Handle, LegacyNode>, O: map<Handle, LegacyNode>, p: string, r: string,
                                       ws: LegacyWorkspace)
    requires Reaches(S, p, r, ws)
    requires forall j :: j in S ==> j in O && O[j].path == S[j].path && O[j].workspace == S[j].workspace
    ensures Reaches(O, p, r, ws)
    decreases |p|
  {
    if p != r {
      var j :| j in S && S[j].workspace == ws && S[j].path == p;
      ReachesBack(S, O, ParentPathOf(p), r, ws);
      assert j in O && O[j].path == p;
    }
  }

  /** Record k is one of the children in `done` or in the sub-tree of one. */
  ghost predicate WithinDone(O: map<Handle, LegacyNode>, k: Handle, ws: LegacyWorkspace, done: seq<Handle>)
  {
    exists j :: 0 <= j < |done| && done[j] in O && (k == done[j] || Descends(O, k, O[done[j]].path, ws))
  }

  lemma WithinDoneGrows(O: map<Handle, LegacyNode>, k: Handle, ws: LegacyWorkspace, done: seq<Handle>, ch: Handle)
    requires WithinDone(O, k, ws, done)
    ensures WithinDone(O, k, ws, done + [ch])
  {
    var j :| 0 <= j < |done| && done[j] in O && (k == done[j] || Descends(O, k, O[done[j]].path, ws));
    assert (done + [ch])[j] == done[j];
  }

  lemma WithinDoneLast(O: map<Handle, LegacyNode>, k: Handle, ws: LegacyWorkspace, done: seq<Handle>, ch: Handle)
    requires ch in O && (k == ch || Descends(O, k, O[ch].path, ws))
    ensures WithinDone(O, k, ws, done + [ch])
  {
    assert (done + [ch])[|done|] == ch;
  }

  // ---------------------------------------------------------------------
  // Removal
  // ---------------------------------------------------------------------

  /** How remove leaves node k, once handed out with context c: gone from the
      store when its workspace has no base workspace, otherwise still there with
      the removed flag set. */
  ghost predicate Tomb(O: map<Handle, LegacyNode>, R: map<Handle, LegacyNode>, k: Handle, c: LegacyContext)
  {
    k in O &&
    if O[k].workspace.baseWorkspace.None? then k !in R else k in R && R[k] == HandedTo(O[k], c).(removed := true)
  }

  /** R is O after removing node h at q in context c whose workspace is ws:
      besides h only nodes of ws below q are affected, each one as Tomb says. */
  ghost predicate Removed(O: map<Handle, LegacyNode>, R: map<Handle, LegacyNode>, h: Handle, q: string,
                          ws: LegacyWorkspace, c: LegacyContext)
  {
    R.Keys <= O.Keys && Tomb(O, R, h, c) &&
    forall k :: k in O && k != h && (k !in R || R[k] != O[k]) ==>
      IsUnder(O[k].path, q) && O[k].workspace == ws && Tomb(O, R, k, c)
  }

  /** The state of remove's loop after the first i children were removed. */
  ghost predicate RemovalCascade(O: map<Handle, LegacyNode>, S: map<Handle, LegacyNode>, h: Handle, q: string,
                                 ws: LegacyWorkspace, c: LegacyContext, children: seq<Handle>, i: int)
  {
    0 <= i <= |children| &&
    S.Keys <= O.Keys && h in O && h in S && S[h] == O[h] && O[h].path == q &&
    (forall k :: k in O && (k !in S || S[k] != O[k]) ==>
      k != h && IsUnder(O[k].path, q) && O[k].workspace == ws && Tomb(O, S, k, c)) &&
    (forall j :: 0 <= j < i ==> Tomb(O, S, children[j], c)) &&
    (forall j :: i <= j < |children| ==> children[j] in S && S[children[j]] == O[children[j]])
  }

  /** The children of q in ws, each listed once. */
  ghost predicate ChildList(O: map<Handle, LegacyNode>, q: string, ws: LegacyWorkspace, children: seq<Handle>)
  {
    (forall j :: 0 <= j < |children| ==>
      children[j] in O && ParentPathOf(O[children[j]].path) == q && O[children[j]].workspace == ws) &&
    (forall a, b :: 0 <= a < b < |children| ==> children[a] != children[b])
  }

  /** Every node of ws below q has a path of at most `bound` characters. */
  ghost predicate LegacyPathsBounded(rows: map<Handle, LegacyNode>, q: string, ws: LegacyWorkspace, bound: nat)
  {
    forall k :: (k in rows && IsUnder(rows[k].path, q) && rows[k].workspace == ws) ==> |rows[k].path| <= bound
  }

  lemma TombStable(O: map<Handle, LegacyNode>, S: map<Handle, LegacyNode>, T: map<Handle, LegacyNode>, k: Handle, c: LegacyContext)
    requires Tomb(O, S, k, c) && T.Keys <= S.Keys
    requires k in S && (k !in T || T[k] != S[k]) ==> Tomb(S, T, k, c)
    ensures Tomb(O, T, k, c)
  {
  }

  /** Removal so far keeps every remaining node's path and workspace. */
  lemma CascadeKeepsPaths(O: map<Handle, LegacyNode>, S: map<Handle, LegacyNode>, h: Handle, q: string,
                          ws: LegacyWorkspace, c: LegacyContext, children: seq<Handle>, i: int)
    requires RemovalCascade(O, S, h, q, ws, c, children, i)
    ensures forall k :: k in S ==> k in O && S[k].path == O[k].path && S[k].workspace == O[k].workspace
  {
    forall k | k in S ensures k in O && S[k].path == O[k].path && S[k].workspace == O[k].workspace {
      if S[k] != O[k] {
        assert Tomb(O, S, k, c);
      }
    }
  }

  /** Child ch of q satisfies what removing its own sub-tree needs. */
  lemma PrepareRemoval(O: map<Handle, LegacyNode>, S: map<Handle, LegacyNode>, q: string, ws: LegacyWorkspace,
                       ch: Handle, bound: nat)
    requires ch in O && LegacyWellFormed(O[ch]) && ParentPathOf(O[ch].path) == q && O[ch].workspace == ws && ValidPath(q)
    requires LegacyPathsBounded(O, q, ws, bound)
    requires forall k :: k in S ==> k in O && S[k].path == O[k].path && S[k].workspace == O[k].workspace
    ensures |q| < |O[ch].path| <= bound
    ensures LegacyPathsBounded(S, O[ch].path, ws, bound)
  {
    var cp := O[ch].path;
    ValidPathShape(q);
    ChildIsUnder(cp);
    Decompose(cp);
    forall k | k in S && IsUnder(S[k].path, cp) && S[k].workspace == ws
      ensures |S[k].path| <= bound
    {
      UnderChildUnder(O[k].path, cp, q);
    }
  }

  /** What one round of remove's loop knows: child i was removed, as Removed says. */
  ghost predicate RemovalStepContext(O: map<Handle, LegacyNode>, S: map<Handle, LegacyNode>, T: map<Handle, LegacyNode>,
                                     h: Handle, q: string, ws: LegacyWorkspace, c: LegacyContext, children: seq<Handle>, i: int)
  {
    AllLegacyWellFormed(O) && ValidPath(q) &&
    ChildList(O, q, ws, children) && RemovalCascade(O, S, h, q, ws, c, children, i) && i < |children| &&
    children[i] in S && S[children[i]] == O[children[i]] && |q| < |O[children[i]].path| &&
    Removed(S, T, children[i], O[children[i]].path, ws, c)
  }

  lemma RemovalTouched(O: map<Handle, LegacyNode>, S: map<Handle, LegacyNode>, T: map<Handle, LegacyNode>,
                       h: Handle, q: string, ws: LegacyWorkspace, c: LegacyContext, children: seq<Handle>, i: int, k: Handle)
    requires RemovalStepContext(O, S, T, h, q, ws, c, children, i)
    requires k in O && (k !in T || T[k] != O[k])
    ensures k != h && IsUnder(O[k].path, q) && O[k].workspace == ws && Tomb(O, T, k, c)
  {
    var cp := O[children[i]].path;
    if k in S && S[k] == O[k] {
      ValidPathShape(q);
      ChildIsUnder(cp);
      Decompose(cp);
      if k != children[i] {
        UnderChildUnder(O[k].path, cp, q);
      }
    } else {
      TombStable(O, S, T, k, c);
    }
  }

  lemma RemovalPending(O: map<Handle, LegacyNode>, S: map<Handle, LegacyNode>, T: map<Handle, LegacyNode>,
                       h: Handle, q: string, ws: LegacyWorkspace, c: LegacyContext, children: seq<Handle>, i: int, j: int)
    requires RemovalStepContext(O, S, T, h, q, ws, c, children, i)
    requires i + 1 <= j < |children|
    ensures children[j] in T && T[children[j]] == O[children[j]]
  {
    var cp := O[children[i]].path;
    var d := children[j];
    ValidPathShape(q);
    Decompose(cp);
    Decompose(O[d].path);
    SiblingsNotNested(q, NameOf(O[d].path), NameOf(cp));
  }

  lemma RemovalTouchedAll(O: map<Handle, LegacyNode>, S: map<Handle, LegacyNode>, T: map<Handle, LegacyNode>,
                          h: Handle, q: string, ws: LegacyWorkspace, c: LegacyContext, children: seq<Handle>, i: int)
    requires RemovalStepContext(O, S, T, h, q, ws, c, children, i)
    ensures forall k :: k in O && (k !in T || T[k] != O[k]) ==>
      k != h && IsUnder(O[k].path, q) && O[k].workspace == ws && Tomb(O, T, k, c)
  {
    forall k | k in O && (k !in T || T[k] != O[k])
      ensures k != h && IsUnder(O[k].path, q) && O[k].workspace == ws && Tomb(O, T, k, c)
    {
      RemovalTouched(O, S, T, h, q, ws, c, children, i, k);
    }
  }

  lemma RemovalDoneAll(O: map<Handle, LegacyNode>, S: map<Handle, LegacyNode>, T: map<Handle, LegacyNode>,
                       children: seq<Handle>, i: int, cp: string, ws: LegacyWorkspace, c: LegacyContext)
    requires 0 <= i < |children| && children[i] in O && children[i] in S && S[children[i]] == O[children[i]]
    requires forall a, b :: 0 <= a < b < |children| ==> children[a] != children[b]
    requires forall j :: 0 <= j < i ==> Tomb(O, S, children[j], c)
    requires Removed(S, T, children[i], cp, ws, c)
    ensures forall j :: 0 <= j < i + 1 ==> Tomb(O, T, children[j], c)
  {
    forall j | 0 <= j < i + 1 ensures Tomb(O, T, children[j], c) {
      if j < i {
        TombStable(O, S, T, children[j], c);
      }
    }
  }

  lemma RemovalPendingAll(O: map<Handle, LegacyNode>, S: map<Handle, LegacyNode>, T: map<Handle, LegacyNode>,
                          h: Handle, q: string, ws: LegacyWorkspace, c: LegacyContext, children: seq<Handle>, i: int)
    requires RemovalStepContext(O, S, T, h, q, ws, c, children, i)
    ensures forall j :: i + 1 <= j < |children| ==> children[j] in T && T[children[j]] == O[children[j]]
  {
    forall j | i + 1 <= j < |children| ensures children[j] in T && T[children[j]] == O[children[j]] {
      RemovalPending(O, S, T, h, q, ws, c, children, i, j);
    }
  }

  lemma RemovalStep(O: map<Handle, LegacyNode>, S: map<Handle, LegacyNode>, T: map<Handle, LegacyNode>,
                    h: Handle, q: string, ws: LegacyWorkspace, c: LegacyContext, children: seq<Handle>, i: int)
    requires RemovalStepContext(O, S, T, h, q, ws, c, children, i)
    ensures RemovalCascade(O, T, h, q, ws, c, children, i + 1)
  {
    RemovalTouchedAll(O, S, T, h, q, ws, c, children, i);
    RemovalDoneAll(O, S, T, children, i, O[children[i]].path, ws, c);
    RemovalPendingAll(O, S, T, h, q, ws, c, children, i);
    assert h in T by {
      if h !in T {
        RemovalTouched(O, S, T, h, q, ws, c, children, i, h);
      }
    }
  }

  lemma FinishRemoval(O: map<Handle, LegacyNode>, S: map<Handle, LegacyNode>, R: map<Handle, LegacyNode>,
                      h: Handle, q: string, ws: LegacyWorkspace, c: LegacyContext, children: seq<Handle>)
    requires ChildList(O, q, ws, children) && RemovalCascade(O, S, h, q, ws, c, children, |children|)
    requires forall k :: (k in O && ParentPathOf(O[k].path) == q && O[k].workspace == ws) ==> k in children
    requires R == if O[h].workspace.baseWorkspace.None? then S - {h} else S[h := HandedTo(O[h], c).(removed := true)]
    ensures Removed(O, R, h, q, ws, c)
    ensures forall k :: (k in O && k != h && ParentPathOf(O[k].path) == q && O[k].workspace == ws) ==> Tomb(O, R, k, c)
  {
    forall k | k in O && k != h && ParentPathOf(O[k].path) == q && O[k].workspace == ws ensures Tomb(O, R, k, c) {
      var j :| 0 <= j < |children| && children[j] == k;
      assert Tomb(O, S, k, c);
    }
  }

  /** R is O after removing the sub-tree of q in ws with context c: every node
      of the sub-tree is left as Tomb says, and no node outside it but h changed. */
  ghost predicate SubtreeRemoved(O: map<Handle, LegacyNode>, R: map<Handle, LegacyNode>, h: Handle, q: string,
                                 ws: LegacyWorkspace, c: LegacyContext)
  {
    R.Keys <= O.Keys &&
    (forall k :: Descends(O, k, q, ws) ==> Tomb(O, R, k, c)) &&
    (forall k :: k in O && k != h && (k !in R || R[k] != O[k]) ==> Descends(O, k, q, ws))
  }

  /** The deep part of remove's loop after the first i children were removed. */
  ghost predicate DeepRemoval(O: map<Handle, LegacyNode>, S: map<Handle, LegacyNode>, ws: LegacyWorkspace,
                              c: LegacyContext, children: seq<Handle>, i: int)
  {
    0 <= i <= |children| && S.Keys <= O.Keys &&
    (forall k :: k in O && (k !in S || S[k] != O[k]) ==> WithinDone(O, k, ws, children[..i])) &&
    (forall j, k :: 0 <= j < i && children[j] in O && Descends(O, k, O[children[j]].path, ws) ==> Tomb(O, S, k, c))
  }

  /** What one round of remove's loop knows about the sub-tree of child i. */
  ghost predicate DeepRemovalContext(O: map<Handle, LegacyNode>, S: map<Handle, LegacyNode>, T: map<Handle, LegacyNode>,
                                     h: Handle, q: string, ws: LegacyWorkspace, c: LegacyContext, children: seq<Handle>, i: int)
  {
    RemovalStepContext(O, S, T, h, q, ws, c, children, i) && AllLegacyWellFormed(S) &&
    DeepRemoval(O, S, ws, c, children, i) && SubtreeRemoved(S, T, children[i], O[children[i]].path, ws, c)
  }

  lemma DeepRemovalChanged(O: map<Handle, LegacyNode>, S: map<Handle, LegacyNode>, T: map<Handle, LegacyNode>,
                           h: Handle, q: string, ws: LegacyWorkspace, c: LegacyContext, children: seq<Handle>, i: int, k: Handle)
    requires DeepRemovalContext(O, S, T, h, q, ws, c, children, i)
    requires k in O && (k !in T || T[k] != O[k])
    ensures WithinDone(O, k, ws, children[..i + 1])
  {
    var ch, cp := children[i], O[children[i]].path;
    NodeDataOps.SliceNext(children, i);
    if k !in S || S[k] != O[k] {
      WithinDoneGrows(O, k, ws, children[..i], ch);
    } else {
      if k != ch {
        assert Descends(S, k, cp, ws);
        CascadeKeepsPaths(O, S, h, q, ws, c, children, i);
        ReachesBack(S, O, ParentPathOf(S[k].path), cp, ws);
      }
      WithinDoneLast(O, k, ws, children[..i], ch);
    }
  }

  /** A node in the sub-tree of one of the first i + 1 children is left as Tomb says. */
  lemma DeepRemovalTomb(O: map<Handle, LegacyNode>, S: map<Handle, LegacyNode>, T: map<Handle, LegacyNode>,
                        h: Handle, q: string, ws: LegacyWorkspace, c: LegacyContext, children: seq<Handle>, i: int,
                        j: int, k: Handle)
    requires DeepRemovalContext(O, S, T, h, q, ws, c, children, i)
    requires 0 <= j <= i && Descends(O, k, O[children[j]].path, ws)
    ensures Tomb(O, T, k, c)
  {
    var cp := O[children[i]].path;
    if j == i && k in S && S[k] == O[k] {
      DescendsKept(O, S, k, cp, ws);
      if Descends(S, k, cp, ws) {
        assert Tomb(S, T, k, c);
        return;
      }
      var e :| e in O && O[e].workspace == ws && (e !in S || S[e] != O[e]) && Descends(O, k, O[e].path, ws);
      TombBelowEarlier(O, S, ws, c, children, i, e, k);
    } else {
      TombSoFar(O, S, h, q, ws, c, children, i, j, k);
    }
    TombStable(O, S, T, k, c);
  }

  lemma TombSoFar(O: map<Handle, LegacyNode>, S: map<Handle, LegacyNode>, h: Handle, q: string, ws: LegacyWorkspace,
                  c: LegacyContext, children: seq<Handle>, i: int, j: int, k: Handle)
    requires RemovalCascade(O, S, h, q, ws, c, children, i) && DeepRemoval(O, S, ws, c, children, i)
    requires 0 <= j <= i && j < |children| && children[j] in O && Descends(O, k, O[children[j]].path, ws)
    requires j < i || k !in S || S[k] != O[k]
    ensures Tomb(O, S, k, c)
  {
  }

  /** A node below one that remove's loop already changed is already left as Tomb says. */
  lemma TombBelowEarlier(O: map<Handle, LegacyNode>, S: map<Handle, LegacyNode>, ws: LegacyWorkspace, c: LegacyContext,
                         children: seq<Handle>, i: int, e: Handle, k: Handle)
    requires DeepRemoval(O, S, ws, c, children, i)
    requires e in O && (e !in S || S[e] != O[e]) && Descends(O, k, O[e].path, ws)
    ensures Tomb(O, S, k, c)
  {
    assert WithinDone(O, e, ws, children[..i]);
    var d :| 0 <= d < i && children[..i][d] in O &&
      (e == children[..i][d] || Descends(O, e, O[children[..i][d]].path, ws));
    assert children[..i][d] == children[d];
    if e != children[d] {
      DescendsTrans(O, k, e, O[children[d]].path, ws);
    }
  }

  lemma DeepRemovalStep(O: map<Handle, LegacyNode>, S: map<Handle, LegacyNode>, T: map<Handle, LegacyNode>,
                        h: Handle, q: string, ws: LegacyWorkspace, c: LegacyContext, children: seq<Handle>, i: int)
    requires DeepRemovalContext(O, S, T, h, q, ws, c, children, i)
    ensures DeepRemoval(O, T, ws, c, children, i + 1)
  {
    forall k | k in O && (k !in T || T[k] != O[k])
      ensures WithinDone(O, k, ws, children[..i + 1])
    {
      DeepRemovalChanged(O, S, T, h, q, ws, c, children, i, k);
    }
    forall j, k | 0 <= j < i + 1 && children[j] in O && Descends(O, k, O[children[j]].path, ws)
      ensures Tomb(O, T, k, c)
    {
      DeepRemovalTomb(O, S, T, h, q, ws, c, children, i, j, k);
    }
  }

  /** Once every child is removed and h itself, the whole sub-tree is removed. */
  lemma FinishDeepRemoval(O: map<Handle, LegacyNode>, S: map<Handle, LegacyNode>, R: map<Handle, LegacyNode>,
                          h: Handle, q: string, ws: LegacyWorkspace, c: LegacyContext, children: seq<Handle>)
    requires AllLegacyWellFormed(O) && ValidPath(q) && ChildList(O, q, ws, children)
    requires RemovalCascade(O, S, h, q, ws, c, children, |children|) && DeepRemoval(O, S, ws, c, children, |children|)
    requires forall k :: (k in O && ParentPathOf(O[k].path) == q && O[k].workspace == ws) ==> k in children
    requires R == if O[h].workspace.baseWorkspace.None? then S - {h} else S[h := HandedTo(O[h], c).(removed := true)]
    ensures SubtreeRemoved(O, R, h, q, ws, c)
  {
    forall k | Descends(O, k, q, ws)
      ensures Tomb(O, R, k, c)
    {
      FinishRemovalDescendant(O, S, R, h, q, ws, c, children, k);
    }
    forall k | k in O && k != h && (k !in R || R[k] != O[k])
      ensures Descends(O, k, q, ws)
    {
      assert k !in S || S[k] != O[k];
      FinishRemovalChanged(O, S, q, ws, c, children, k);
    }
  }

  /** A node that remove's loop changed is in the sub-tree of q. */
  lemma FinishRemovalChanged(O: map<Handle, LegacyNode>, S: map<Handle, LegacyNode>, q: string, ws: LegacyWorkspace,
                             c: LegacyContext, children: seq<Handle>, k: Handle)
    requires AllLegacyWellFormed(O) && ChildList(O, q, ws, children)
    requires DeepRemoval(O, S, ws, c, children, |children|)
    requires k in O && (k !in S || S[k] != O[k])
    ensures Descends(O, k, q, ws)
  {
    assert children[..|children|] == children;
    assert WithinDone(O, k, ws, children);
    var j :| 0 <= j < |children| && children[j] in O &&
      (k == children[j] || Descends(O, k, O[children[j]].path, ws));
    ChildDescends(O, children[j], q, ws);
    if k != children[j] {
      DescendsTrans(O, k, children[j], q, ws);
    }
  }

  lemma FinishRemovalDescendant(O: map<Handle, LegacyNode>, S: map<Handle, LegacyNode>, R: map<Handle, LegacyNode>,
                                h: Handle, q: string, ws: LegacyWorkspace, c: LegacyContext, children: seq<Handle>, k: Handle)
    requires AllLegacyWellFormed(O) && ValidPath(q) && ChildList(O, q, ws, children)
    requires RemovalCascade(O, S, h, q, ws, c, children, |children|) && DeepRemoval(O, S, ws, c, children, |children|)
    requires forall k :: (k in O && ParentPathOf(O[k].path) == q && O[k].workspace == ws) ==> k in children
    requires R == if O[h].workspace.baseWorkspace.None? then S - {h} else S[h := HandedTo(O[h], c).(removed := true)]
    requires Descends(O, k, q, ws)
    ensures Tomb(O, R, k, c)
  {
    DescendsUnder(O, k, q, ws);
    assert k != h;
    DescendsSplit(O, k, q, ws);
    if ParentPathOf(O[k].path) == q {
      var j :| 0 <= j < |children| && children[j] == k;
      assert Tomb(O, S, k, c);
    } else {
      var ch :| ch in O && O[ch].workspace == ws && ParentPathOf(O[ch].path) == q && Descends(O, k, O[ch].path, ws);
      var j :| 0 <= j < |children| && children[j] == ch;
      assert Tomb(O, S, k, c);
    }
  }

  /** getChildNodes() as remove uses it: the children of q in workspace ws. */
  method LegacyChildren(store: LegacyStore, q: string, ws: LegacyWorkspace) returns (cs: seq<Handle>)
    requires store.Valid()
    ensures forall k :: k in cs <==> k in store.rows && ParentPathOf(store.rows[k].path) == q && store.rows[k].workspace == ws
    ensures forall i, j :: 0 <= i < j < |cs| ==> cs[i] != cs[j]
  {
    cs := store.FindAll(ChildIn(q, ws));
  }

  /** One round of remove's loop: removes the sub-tree of child i of q. */
  method RemoveChild(store: LegacyStore, ghost O: map<Handle, LegacyNode>, h: Handle, q: string, ws: LegacyWorkspace,
                     c: LegacyContext, children: seq<Handle>, i: nat, ghost bound: nat)
    requires Sound(store) && AllLegacyWellFormed(O) && ValidPath(q) && ChildList(O, q, ws, children)
    requires RemovalCascade(O, store.rows, h, q, ws, c, children, i) && i < |children|
    requires |q| <= bound && LegacyPathsBounded(O, q, ws, bound)
    requires DeepRemoval(O, store.rows, ws, c, children, i)
    modifies store
    decreases bound - |q|, 0
    ensures Sound(store) && store.next == old(store.next)
    ensures RemovalCascade(O, store.rows, h, q, ws, c, children, i + 1)
    ensures DeepRemoval(O, store.rows, ws, c, children, i + 1)
  {
    ghost var S := store.rows;
    CascadeKeepsPaths(O, S, h, q, ws, c, children, i);
    PrepareRemoval(O, S, q, ws, children[i], bound);
    RemoveTree(store, children[i], c, ws, bound);
    RemovalStep(O, S, store.rows, h, q, ws, c, children, i);
    DeepRemovalStep(O, S, store.rows, h, q, ws, c, children, i);
  }

  /** remove on node h handed out with context c (whose workspace is ws): every
      child in ws is handed out with c and removed first, then h itself. */
  method RemoveTree(store: LegacyStore, h: Handle, c: LegacyContext, ws: LegacyWorkspace, ghost bound: nat)
    requires Sound(store) && h in store.rows
    requires |store.rows[h].path| <= bound
    requires LegacyPathsBounded(store.rows, store.rows[h].path, ws, bound)
    modifies store
    decreases bound - |store.rows[h].path|, 2
    ensures Sound(store) && store.next == old(store.next)
    ensures Removed(old(store.rows), store.rows, h, old(store.rows[h].path), ws, c)
    ensures forall k ::
      (k in old(store.rows) && k != h && ParentPathOf(old(store.rows[k]).path) == old(store.rows[h].path) &&
       old(store.rows[k]).workspace == ws) ==> Tomb(old(store.rows), store.rows, k, c)
    ensures SubtreeRemoved(old(store.rows), store.rows, h, old(store.rows[h].path), ws, c)
  {
    ghost var O := store.rows;
    var q := store.rows[h].path;
    var children := LegacyChildren(store, q, ws);
    assert LegacyWellFormed(O[h]);
    RemoveChildren(store, h, q, ws, c, children, bound);
    RemoveSelf(store, O, h, q, ws, c, children);
  }

  /** The loop of remove over the children of node h at q. */
  method RemoveChildren(store: LegacyStore, h: Handle, q: string, ws: LegacyWorkspace, c: LegacyContext,
                        children: seq<Handle>, ghost bound: nat)
    requires Sound(store) && h in store.rows && store.rows[h].path == q
    requires ValidPath(q) && ChildList(store.rows, q, ws, children)
    requires |q| <= bound && LegacyPathsBounded(store.rows, q, ws, bound)
    modifies store
    decreases bound - |q|, 1
    ensures Sound(store) && store.next == old(store.next)
    ensures RemovalCascade(old(store.rows), store.rows, h, q, ws, c, children, |children|)
    ensures DeepRemoval(old(store.rows), store.rows, ws, c, children, |children|)
  {
    ghost var O := store.rows;
    var i := 0;
    while i < |children|
      invariant 0 <= i <= |children|
      invariant Sound(store) && store.next == old(store.next)
      invariant RemovalCascade(O, store.rows, h, q, ws, c, children, i)
      invariant DeepRemoval(O, store.rows, ws, c, children, i)
    {
      RemoveChild(store, O, h, q, ws, c, children, i, bound);
      i := i + 1;
    }
  }

  /** The last step of remove: the node itself, once its children are gone. */
  method RemoveSelf(store: LegacyStore, ghost O: map<Handle, LegacyNode>, h: Handle, q: string, ws: LegacyWorkspace,
                    c: LegacyContext, ghost children: seq<Handle>)
    requires Sound(store) && ChildList(O, q, ws, children) && RemovalCascade(O, store.rows, h, q, ws, c, children, |children|)
    requires forall k :: (k in O && ParentPathOf(O[k].path) == q && O[k].workspace == ws) ==> k in children
    requires AllLegacyWellFormed(O) && ValidPath(q) && DeepRemoval(O, store.rows, ws, c, children, |children|)
    modifies store
    ensures Sound(store) && store.next == old(store.next)
    ensures Removed(O, store.rows, h, q, ws, c)
    ensures forall k :: (k in O && k != h && ParentPathOf(O[k].path) == q && O[k].workspace == ws) ==> Tomb(O, store.rows, k, c)
    ensures SubtreeRemoved(O, store.rows, h, q, ws, c)
  {
    ghost var S := store.rows;
    var n := store.rows[h];
    if n.workspace.baseWorkspace.None? {
      store.Remove(h);
    } else {
      store.Update(h, HandedTo(n, c).(removed := true));
    }
    FinishRemoval(O, S, store.rows, h, q, ws, c, children);
    FinishDeepRemoval(O, S, store.rows, h, q, ws, c, children);
  }

  /** remove(): the sub-tree below the node first, in its context's workspace,
      then the node itself (see Tomb). */
  method Remove(store: LegacyStore, h: Handle, c: LegacyContext)
    requires Sound(store) && h in store.rows && store.rows[h].context == Some(c) && c.workspace.Some?
    modifies store
    ensures Sound(store) && store.next == old(store.next)
    ensures Removed(old(store.rows), store.rows, h, old(store.rows[h].path), c.workspace.value, c)
    ensures old(store.rows[h]).workspace.baseWorkspace.Some? ==>
      h in store.rows && store.rows[h] == old(store.rows[h]).(removed := true)
    ensures SubtreeRemoved(old(store.rows), store.rows, h, old(store.rows[h].path), c.workspace.value, c)
  {
    ghost var bound := MaxLegacyPathLength(store.rows, store.next);
    RemoveTree(store, h, c, c.workspace.value, bound);
  }

  /** A node removed from a workspace without base is found by no query any more. */
  lemma RemovedNotFound(O: map<Handle, LegacyNode>, R: map<Handle, LegacyNode>, h: Handle, q: string,
                        ws: LegacyWorkspace, c: LegacyContext, p: LegacyNode -> bool, next: nat)
    requires Removed(O, R, h, q, ws, c) && O[h].workspace.baseWorkspace.None?
    ensures FirstMatch(R, p, 0, next) != Some(h)
    ensures h !in AllMatching(R, p, 0, next)
  {
  }

  // ---------------------------------------------------------------------
  // The workspace repository
  // ---------------------------------------------------------------------

  /** findOneByName over the workspaces in the order they were added. */
  function FindWorkspace(known: seq<LegacyWorkspace>, name: string): (r: Option<LegacyWorkspace>)
    ensures r.Some? ==> r.value in known && r.value.name == name
    ensures r.None? <==> forall i :: 0 <= i < |known| ==> known[i].name != name
  {
    if |known| == 0 then None
    else if known[0].name == name then Some(known[0])
    else FindWorkspace(known[1..], name)
  }

  /** A later addition does not hide a workspace found before it. */
  lemma {:induction false} FindWorkspaceAppend(known: seq<LegacyWorkspace>, extra: seq<LegacyWorkspace>, name: string)
    ensures FindWorkspace(known, name).Some? ==> FindWorkspace(known + extra, name) == FindWorkspace(known, name)
    ensures FindWorkspace(known, name).None? ==> FindWorkspace(known + extra, name) == FindWorkspace(extra, name)
  {
    if |known| > 0 {
      assert (known + extra)[1..] == known[1..] + extra;
      FindWorkspaceAppend(known[1..], extra, name);
    } else {
      assert known + extra == extra;
    }
  }

  class LegacyWorkspaceRepository {
    var workspaces: seq<LegacyWorkspace>

    constructor ()
      ensures workspaces == []
    {
      workspaces := [];
    }

    method FindOneByName(name: string) returns (r: Option<LegacyWorkspace>)
      ensures r == FindWorkspace(workspaces, name)
    {
      var i := 0;
      while i < |workspaces|
        invariant 0 <= i <= |workspaces|
        invariant FindWorkspace(workspaces[i..], name) == FindWorkspace(workspaces, name)
      {
        if workspaces[i].name == name {
          return Some(workspaces[i]);
        }
        assert workspaces[i..][1..] == workspaces[i + 1..];
        i := i + 1;
      }
      return None;
    }

    method Add(w: LegacyWorkspace)
      modifies this
      ensures workspaces == old(workspaces) + [w]
    {
      workspaces := workspaces + [w];
    }
  }

  // ---------------------------------------------------------------------
  // The context
  // ---------------------------------------------------------------------

  /** A starting or end point of getNodesOnPath: a node or a path. */
  datatype Point = NodePoint(handle: Handle) | PathPoint(path: string)

  function PointPath(rows: map<Handle, LegacyNode>, p: Point): string
    requires p.NodePoint? ==> p.handle in rows
  {
    if p.NodePoint? then rows[p.handle].path else p.path
  }

  /** findOnPath(start, end, workspace): the nodes of the workspace on the way from
      the starting point down to the end point; nothing matches a NULL workspace. */
  function OnLegacyPath(start: string, end: string, ws: Option<LegacyWorkspace>): LegacyNode -> bool
  {
    (n: LegacyNode) => ws.Some? && n.workspace == ws.value &&
      (n.path == start || IsUnder(n.path, start)) && (n.path == end || IsUnder(end, n.path))
  }

  /** The store after every node in hs was handed out with context c. */
  ghost predicate HandedOut(O: map<Handle, LegacyNode>, R: map<Handle, LegacyNode>, hs: seq<Handle>, c: LegacyContext)
  {
    R.Keys == O.Keys && forall k :: k in O ==> R[k] == if k in hs then HandedTo(O[k], c) else O[k]
  }

  /** Handing out nodes keeps every node well-formed. */
  lemma HandedOutSound(O: map<Handle, LegacyNode>, R: map<Handle, LegacyNode>, hs: seq<Handle>, c: LegacyContext)
    requires HandedOut(O, R, hs, c) && AllLegacyWellFormed(O)
    ensures AllLegacyWellFormed(R)
  {
    forall k | k in R ensures LegacyWellFormed(R[k]) {
      assert LegacyWellFormed(O[k]);
    }
  }

  /** The loop of getNodesOnPath: setContext on every node found. */
  method HandOut(store: LegacyStore, hs: seq<Handle>, c: LegacyContext)
    requires store.Valid()
    modifies store
    ensures store.Valid() && store.next == old(store.next)
    ensures HandedOut(old(store.rows), store.rows, hs, c)
  {
    ghost var O := store.rows;
    var i := 0;
    while i < |hs|
      invariant 0 <= i <= |hs|
      invariant store.Valid() && store.next == old(store.next)
      invariant HandedOut(O, store.rows, hs[..i], c)
    {
      assert hs[..i + 1] == hs[..i] + [hs[i]];
      if hs[i] in store.rows {
        store.Update(hs[i], HandedTo(store.rows[hs[i]], c));
      }
      i := i + 1;
    }
    assert hs[..i] == hs;
  }

  /** What getNode(path) returns, and the store afterwards, once the workspace ws
      is resolved: the root node for "/", otherwise the lookup of the rest of the
      path from the root; the nodes handed out receive context c. */
  ghost function ContextLookup(rows: map<Handle, LegacyNode>, next: nat, ws: LegacyWorkspace, c: LegacyContext, path: string)
    : (Result<Option<Handle>, LegacyError>, map<Handle, LegacyNode>)
  {
    var root := FirstMatch(rows, OnPathIn("/", ws), 0, next);
    if |path| == 0 || path[0] != '/' then (Failure(NotAbsolute(path)), rows)
    else if path == "/" then (Success(root), Treated(rows, root, c))
    else if root.None? then (Failure(NoRootNode(ws.name)), rows)
    else
      var R := Treated(rows, root, c);
      var r := LegacyLookup(R, next, "/", ws, path[1..]);
      (r, Treated(R, if r.Success? then r.value else None, c))
  }

  /** Context.getNode hands the rest of a valid path after its leading slash to
      the root node, and seen from the root that rest normalizes back to the path. */
  lemma RestFromRoot(path: string)
    requires ValidPath(path) && path != "/"
    ensures |path| > 1 && path[0] == '/' && Normalized("/", path[1..]) == Success(path)
  {
    ValidPathShape(path);
    var rel := path[1..];
    NormalizeValidPath("/", path);
    assert path == "/" + rel;
    assert Absolute("/", rel) == path;
    if rel == "." {
      ValidNoDots(path);
      SplitAround("", '/', ".");
      SplitNoSep(".", '/');
      SplitNoSep("", '/');
      assert false;
    }
    assert !HasDoubleSlash(rel);
  }

  /** A valid absolute path finds exactly the node at that path, when the
      workspace has a root node. */
  lemma ContextLookupValid(rows: map<Handle, LegacyNode>, next: nat, ws: LegacyWorkspace, c: LegacyContext, path: string)
    requires ValidPath(path) && FirstMatch(rows, OnPathIn("/", ws), 0, next).Some?
    ensures ContextLookup(rows, next, ws, c, path).0 == Success(FirstMatch(rows, OnPathIn(path, ws), 0, next))
  {
    ValidPathShape(path);
    var root := FirstMatch(rows, OnPathIn("/", ws), 0, next);
    TreatedKeepsMatches(rows, root, c, path, ws, 0, next);
    if path != "/" {
      RestFromRoot(path);
    }
  }

  class LegacyContext {
    const workspaceName: string
    /** The memo: NULL until getWorkspace found or created the workspace. */
    var workspace: Option<LegacyWorkspace>
    var currentNode: Option<Handle>
    var currentDateTime: DateTime
    var hiddenShown: bool
    var removedShown: bool

    /** The memoised workspace, once there, carries this context's workspace name. */
    ghost predicate Named()
      reads this
    {
      workspace.Some? ==> workspace.value.name == workspaceName
    }

    /** The current time is taken as an argument. */
    constructor (workspaceName: string, now: DateTime)
      ensures this.workspaceName == workspaceName && workspace.None? && currentNode.None? && currentDateTime == now
      ensures !hiddenShown && !removedShown && Named()
    {
      this.workspaceName := workspaceName;
      workspace := None;
      currentNode := None;
      currentDateTime := now;
      hiddenShown := false;
      removedShown := false;
    }

    /** getWorkspace: resolves once and memoises. A missing workspace is created
        when allowed: live is created and registered if needed, and any other
        name gets a new workspace based on live, which is not registered. Every
        workspace resolved here receives this context. */
    method GetWorkspace(repo: LegacyWorkspaceRepository, create: bool) returns (w: Option<LegacyWorkspace>)
      requires Named()
      modifies this, repo, repo.workspaces
      ensures Named() && workspace == w && currentNode == old(currentNode) && currentDateTime == old(currentDateTime)
      ensures hiddenShown == old(hiddenShown) && removedShown == old(removedShown)
      ensures forall x :: x in old(repo.workspaces) && Some(x) != w ==> x.context == old(x.context)
      ensures old(workspace).Some? ==>
        w == old(workspace) && repo.workspaces == old(repo.workspaces) && w.value.context == old(w.value.context)
      ensures old(workspace).None? && FindWorkspace(old(repo.workspaces), workspaceName).Some? ==>
        w == FindWorkspace(old(repo.workspaces), workspaceName) && repo.workspaces == old(repo.workspaces) &&
        w.value.context == Some(this)
      ensures old(workspace).None? && FindWorkspace(old(repo.workspaces), workspaceName).None? && !create ==>
        w.None? && repo.workspaces == old(repo.workspaces)
      ensures old(workspace).None? && FindWorkspace(old(repo.workspaces), workspaceName).None? && create ==>
        w.Some? && w.value.name == workspaceName && w.value.context == Some(this) &&
        (FindWorkspace(old(repo.workspaces), LiveName).Some? ==> repo.workspaces == old(repo.workspaces)) &&
        (FindWorkspace(old(repo.workspaces), LiveName).None? ==>
          |repo.workspaces| == |old(repo.workspaces)| + 1 && repo.workspaces[..|old(repo.workspaces)|] == old(repo.workspaces) &&
          fresh(repo.workspaces[|old(repo.workspaces)|]) && repo.workspaces[|old(repo.workspaces)|].baseWorkspace.None?) &&
        FindWorkspace(repo.workspaces, LiveName).Some? &&
        (workspaceName == LiveName ==> w == FindWorkspace(repo.workspaces, LiveName)) &&
        (workspaceName != LiveName ==>
          fresh(w.value) && w.value.baseWorkspace == FindWorkspace(repo.workspaces, LiveName) &&
          FindWorkspace(repo.workspaces, workspaceName).None?)
    {
      if workspace.Some? {
        return workspace;
      }
      ghost var known := repo.workspaces;
      var found := repo.FindOneByName(workspaceName);
      workspace := found;
      if found.None? {
        if !create {
          return None;
        }
        var live := repo.FindOneByName(LiveName);
        if live.None? {
          var made := new LegacyWorkspace(LiveName, None);
          repo.Add(made);
          live := Some(made);
          FindWorkspaceAppend(known, [made], LiveName);
          FindWorkspaceAppend(known, [made], workspaceName);
        } else {
          assert repo.workspaces == known;
        }
        if workspaceName == LiveName {
          workspace := live;
        } else {
          var created := new LegacyWorkspace(workspaceName, live);
          workspace := Some(created);
        }
      }
      workspace.value.SetContext(this);
      w := workspace;
    }

    /** getNode(path): only absolute paths; the workspace is resolved (and created
        if necessary) first. */
    method GetNode(repo: LegacyWorkspaceRepository, store: LegacyStore, path: string)
      returns (r: Result<Option<Handle>, LegacyError>)
      requires Sound(store) && Named()
      modifies this, repo, repo.workspaces, store
      ensures Sound(store) && Named() && store.next == old(store.next)
      ensures currentNode == old(currentNode) && currentDateTime == old(currentDateTime)
      ensures hiddenShown == old(hiddenShown) && removedShown == old(removedShown)
      ensures |path| == 0 || path[0] != '/' ==>
        r == Failure(NotAbsolute(path)) && unchanged(this, repo, store) && unchanged(repo.workspaces)
      ensures |path| > 0 && path[0] == '/' ==>
        workspace.Some? && workspace.value.name == workspaceName &&
        (r, store.rows) == ContextLookup(old(store.rows), old(store.next), workspace.value, this, path)
      ensures |path| > 0 && path[0] == '/' ==>
        forall x :: x in old(repo.workspaces) && Some(x) != workspace ==> x.context == old(x.context)
      ensures |path| > 0 && path[0] == '/' && old(workspace).Some? ==>
        workspace == old(workspace) && repo.workspaces == old(repo.workspaces)
      ensures |path| > 0 && path[0] == '/' && old(workspace).None? ==> workspace.value.context == Some(this)
      ensures |path| > 0 && path[0] == '/' && old(workspace).None? && FindWorkspace(old(repo.workspaces), workspaceName).Some? ==>
        workspace == FindWorkspace(old(repo.workspaces), workspaceName) && repo.workspaces == old(repo.workspaces)
      ensures |path| > 0 && path[0] == '/' && old(workspace).None? && FindWorkspace(old(repo.workspaces), workspaceName).None? ==>
        (FindWorkspace(old(repo.workspaces), LiveName).Some? ==> repo.workspaces == old(repo.workspaces)) &&
        (FindWorkspace(old(repo.workspaces), LiveName).None? ==>
          |repo.workspaces| == |old(repo.workspaces)| + 1 && repo.workspaces[..|old(repo.workspaces)|] == old(repo.workspaces) &&
          fresh(repo.workspaces[|old(repo.workspaces)|]) && repo.workspaces[|old(repo.workspaces)|].baseWorkspace.None?) &&
        FindWorkspace(repo.workspaces, LiveName).Some? &&
        (workspaceName == LiveName ==> workspace == FindWorkspace(repo.workspaces, LiveName)) &&
        (workspaceName != LiveName ==>
          fresh(workspace.value) && workspace.value.baseWorkspace == FindWorkspace(repo.workspaces, LiveName) &&
          FindWorkspace(repo.workspaces, workspaceName).None?)
    {
      if |path| == 0 || path[0] != '/' {
        return Failure(NotAbsolute(path));
      }
      var w := GetWorkspace(repo, true);
      r := LookupFromRoot(store, w.value, path);
    }

    /** The part of getNode after the workspace is known: "/" is the root node,
        anything else is looked up from it. */
    method LookupFromRoot(store: LegacyStore, ws: LegacyWorkspace, path: string)
      returns (r: Result<Option<Handle>, LegacyError>)
      requires Sound(store) && workspace == Some(ws) && |path| > 0 && path[0] == '/'
      modifies store
      ensures Sound(store) && store.next == old(store.next)
      ensures (r, store.rows) == ContextLookup(old(store.rows), old(store.next), ws, this, path)
    {
      ghost var O := store.rows;
      var root := store.FindFirst(OnPathIn("/", ws));
      if root.Some? {
        store.Update(root.value, HandedTo(store.rows[root.value], this));
      }
      TreatedKeepsMatches(O, root, this, "/", ws, 0, store.next);
      if path == "/" {
        return Success(root);
      }
      if root.None? {
        return Failure(NoRootNode(ws.name));
      }
      r := GetNodeFrom(store, root.value, this, path[1..]);
    }

    /** getNodesOnPath: the repository query with the memoised workspace (which
        may still be NULL, in which case nothing matches); every node found is
        handed out with this context. */
    method GetNodesOnPath(store: LegacyStore, startingPoint: Point, endPoint: Point) returns (nodes: seq<Handle>)
      requires Sound(store)
      requires startingPoint.NodePoint? ==> startingPoint.handle in store.rows
      requires endPoint.NodePoint? ==> endPoint.handle in store.rows
      modifies store
      ensures Sound(store) && store.next == old(store.next)
      ensures forall k :: k in nodes <==>
        (k in old(store.rows) &&
         OnLegacyPath(PointPath(old(store.rows), startingPoint), PointPath(old(store.rows), endPoint), workspace)(old(store.rows)[k]))
      ensures HandedOut(old(store.rows), store.rows, nodes, this)
    {
      var start := if startingPoint.NodePoint? then store.rows[startingPoint.handle].path else startingPoint.path;
      var end := if endPoint.NodePoint? then store.rows[endPoint.handle].path else endPoint.path;
      nodes := store.FindAll(OnLegacyPath(start, end, workspace));
      HandOut(store, nodes, this);
      HandedOutSound(old(store.rows), store.rows, nodes, this);
    }

    method SetCurrentNode(node: Handle)
      modifies this
      ensures currentNode == Some(node)
      ensures workspace == old(workspace) && currentDateTime == old(currentDateTime)
      ensures hiddenShown == old(hiddenShown) && removedShown == old(removedShown)
    {
      currentNode := Some(node);
    }

    method SetCurrentDateTime(now: DateTime)
      modifies this
      ensures currentDateTime == now
      ensures workspace == old(workspace) && currentNode == old(currentNode)
      ensures hiddenShown == old(hiddenShown) && removedShown == old(removedShown)
    {
      currentDateTime := now;
    }

    /** showHidden(flag) */
    method ShowHidden(shown: bool)
      modifies this
      ensures hiddenShown == shown && ShouldShowHidden() == shown
      ensures workspace == old(workspace) && currentNode == old(currentNode) && currentDateTime == old(currentDateTime)
      ensures removedShown == old(removedShown)
    {
      hiddenShown := shown;
    }

    function ShouldShowHidden(): bool
      reads this
    {
      hiddenShown
    }

    /** showRemoved(flag) */
    method ShowRemoved(shown: bool)
      modifies this
      ensures removedShown == shown && ShouldShowRemoved() == shown
      ensures workspace == old(workspace) && currentNode == old(currentNode) && currentDateTime == old(currentDateTime)
      ensures hiddenShown == old(hiddenShown)
    {
      removedShown := shown;
    }

    function ShouldShowRemoved(): bool
      reads this
    {
      removedShown
    }

    /** __toString: the workspace name followed by the current node's path. */
    function ToString(rows: map<Handle, LegacyNode>): (s: string)
      requires currentNode.Some? && currentNode.value in rows
      reads this
      ensures |s| == |workspaceName| + |rows[currentNode.value].path|
      ensures s[..|workspaceName|] == workspaceName && s[|workspaceName|..] == rows[currentNode.value].path
    {
      workspaceName + rows[currentNode.value].path
    }
  }
}
