/** Workspace operations on the record store: creating a workspace with its
    root record, publishing records to a base workspace, counting records. */
module WorkspacePublishing {
  import opened Wrappers
  import opened Repository
  import opened Paths
  import opened Dimensions
  import opened Workspaces
  import opened NodeDataModel
  import opened NodeDataOps

  // ---------------------------------------------------------------------
  // Creation and counting
  // ---------------------------------------------------------------------

  /** The root record a brand-new workspace receives. */
  function RootRecord(w: Workspace, identifier: string): (r: NodeData)
    ensures r.path == "/" && r.workspace == w && r.identifier == identifier && !r.removed
  {
    assert Canonical([]) == [];
    NewNodeData("/", w, identifier, None).value
  }

  /** The root record is a well-formed record. */
  lemma RootRecordWellFormed(w: Workspace, identifier: string)
    ensures WellFormed(RootRecord(w, identifier))
  {
    assert Canonical([]) == [];
  }

  /** new Workspace(name, base) followed by initializeObject(CREATED): the
      workspace and one root record owned by it. */
  method CreateWorkspace(store: Store, ids: IdentifierSource, name: string, base: Option<Workspace>)
    returns (w: Workspace, root: Handle)
    requires Good(store)
    modifies store, ids
    ensures Good(store)
    ensures w == Workspace(name, base)
    ensures root == old(store.next) && root !in old(store.rows)
    ensures store.rows == old(store.rows)[root := RootRecord(w, GeneratedIdentifier(old(ids.issued)))]
    ensures store.next == old(store.next) + 1 && ids.issued == old(ids.issued) + 1
  {
    w := Workspace(name, base);
    var id := ids.Generate();
    var record := RootRecord(w, id);
    RootRecordWellFormed(w, id);
    AddKeepsWellFormed(store.rows, store.next, record);
    root := store.Add(record);
  }

  /** getNodeCount: the number of records owned by the workspace. */
  method GetNodeCount(store: Store, w: Workspace) returns (n: nat)
    requires Good(store)
    ensures n == |AllMatching(store.rows, InWorkspace(w.name), 0, store.next)|
    ensures n >= 1 <==> exists k :: k in store.rows && store.rows[k].workspace.name == w.name
  {
    n := store.CountAll(InWorkspace(w.name));
    CountPositive(store.rows, store.next, w.name);
  }

  /** The count is positive exactly when some record is owned by the workspace. */
  lemma CountPositive(rows: map<Handle, NodeData>, next: nat, ws: string)
    requires forall k :: k in rows ==> k < next
    ensures |AllMatching(rows, InWorkspace(ws), 0, next)| >= 1 <==> exists k :: k in rows && rows[k].workspace.name == ws
  {
    var all := AllMatching(rows, InWorkspace(ws), 0, next);
    if |all| >= 1 {
      assert all[0] in all;
    }
    if k :| k in rows && rows[k].workspace.name == ws {
      assert Hit(rows, InWorkspace(ws), k);
      assert k in all;
    }
  }

  /** A workspace just created counts its root record, so its count starts at one or more. */
  lemma CreatedWorkspaceCounted(rows: map<Handle, NodeData>, next: nat, w: Workspace, identifier: string)
    requires forall k :: k in rows ==> k < next
    ensures |AllMatching(rows[next := RootRecord(w, identifier)], InWorkspace(w.name), 0, next + 1)| >= 1
  {
    var R := rows[next := RootRecord(w, identifier)];
    assert next in R && R[next].workspace.name == w.name;
    CountPositive(R, next + 1, w.name);
  }

  // ---------------------------------------------------------------------
  // Publishing
  // ---------------------------------------------------------------------

  /** The target record with the same identifier that publishing h removes first. */
  function TargetTwin(rows: map<Handle, NodeData>, next: nat, h: Handle, target: Workspace): Option<Handle>
    requires h in rows
  {
    FirstMatch(rows, WithIdentifier(rows[h].identifier, target.name), 0, next)
  }

  /** One iteration of publishNodes: the root record is skipped; otherwise the
      target record with the same identifier is removed, then a live source
      record moves to the target and a tombstoned one is deleted. */
  function PublishStep(rows: map<Handle, NodeData>, next: nat, h: Handle, target: Workspace): map<Handle, NodeData>
  {
    if h !in rows || rows[h].path == "/" then rows
    else
      var twin := TargetTwin(rows, next, h, target);
      var rest := if twin.Some? then rows - {twin.value} else rows;
      if h !in rest then rest
      else if !rest[h].removed then rest[h := rest[h].(workspace := target)]
      else rest - {h}
  }

  /** The records after publishing the handles in order. */
  function PublishAll(rows: map<Handle, NodeData>, next: nat, nodes: seq<Handle>, target: Workspace): map<Handle, NodeData>
  {
    if |nodes| == 0 then rows
    else PublishStep(PublishAll(rows, next, nodes[..|nodes| - 1], target), next, nodes[|nodes| - 1], target)
  }

  /** A step only removes records or moves the published one, with its other
      fields intact, to the target; the root and tombstoned records never move. */
  lemma PublishStepChanges(rows: map<Handle, NodeData>, next: nat, h: Handle, target: Workspace)
    ensures PublishStep(rows, next, h, target).Keys <= rows.Keys
    ensures forall k :: k in PublishStep(rows, next, h, target) ==>
      PublishStep(rows, next, h, target)[k] == rows[k] ||
      (k == h && rows[k].path != "/" && !rows[k].removed &&
       PublishStep(rows, next, h, target)[k] == rows[k].(workspace := target))
    ensures forall k :: k in rows && k !in PublishStep(rows, next, h, target) ==>
      h in rows && rows[h].path != "/" &&
      ((k == h && rows[k].removed) || (rows[k].workspace.name == target.name && rows[k].identifier == rows[h].identifier))
  {
  }

  /** The first record of the target with the published record's identifier is gone
      afterwards, and a live published record now belongs to the target. */
  lemma PublishStepTarget(rows: map<Handle, NodeData>, next: nat, h: Handle, target: Workspace)
    requires h in rows && rows[h].path != "/"
    ensures TargetTwin(rows, next, h, target).Some? ==> TargetTwin(rows, next, h, target).value !in PublishStep(rows, next, h, target)
    ensures TargetTwin(rows, next, h, target) != Some(h) && !rows[h].removed ==>
      h in PublishStep(rows, next, h, target) && PublishStep(rows, next, h, target)[h] == rows[h].(workspace := target)
    ensures rows[h].removed ==> h !in PublishStep(rows, next, h, target)
  {
  }

  /** Over a whole publication: every surviving record is unchanged or is a
      published, live, non-root record moved to the target; every deleted record
      was in the target or is a published non-root record. */
  lemma {:induction false} PublishAllChanges(rows: map<Handle, NodeData>, next: nat, nodes: seq<Handle>, target: Workspace)
    ensures PublishAll(rows, next, nodes, target).Keys <= rows.Keys
    ensures forall k :: k in PublishAll(rows, next, nodes, target) ==>
      PublishAll(rows, next, nodes, target)[k] == rows[k] ||
      (k in nodes && rows[k].path != "/" && !rows[k].removed &&
       PublishAll(rows, next, nodes, target)[k] == rows[k].(workspace := target))
    ensures forall k :: k in rows && k !in PublishAll(rows, next, nodes, target) ==>
      rows[k].workspace.name == target.name || (k in nodes && rows[k].path != "/")
  {
    if |nodes| > 0 {
      var init := nodes[..|nodes| - 1];
      var h := nodes[|nodes| - 1];
      var S := PublishAll(rows, next, init, target);
      PublishAllChanges(rows, next, init, target);
      PublishStepChanges(S, next, h, target);
      assert nodes == init + [h];
      assert forall k :: k in init ==> k in nodes;
      var R := PublishAll(rows, next, nodes, target);
      forall k | k in rows && k !in R
        ensures rows[k].workspace.name == target.name || (k in nodes && rows[k].path != "/")
      {
        if k in S {
          assert S[k] == rows[k] || S[k] == rows[k].(workspace := target);
        }
      }
    }
  }

  /** A tombstoned record never reaches the target, and a root record is never moved. */
  lemma PublishNeverMovesRootOrTombstone(rows: map<Handle, NodeData>, next: nat, nodes: seq<Handle>, target: Workspace, k: Handle)
    requires k in rows && (rows[k].removed || rows[k].path == "/") && rows[k].workspace != target
    ensures k in PublishAll(rows, next, nodes, target) ==> PublishAll(rows, next, nodes, target)[k] == rows[k]
    ensures rows[k].path == "/" && rows[k].workspace.name != target.name ==> k in PublishAll(rows, next, nodes, target)
  {
    PublishAllChanges(rows, next, nodes, target);
  }

  /** publishNodes, one record. */
  method PublishOne(store: Store, h: Handle, target: Workspace)
    requires Good(store)
    modifies store
    ensures Good(store) && store.next == old(store.next)
    ensures store.rows == PublishStep(old(store.rows), old(store.next), h, target)
  {
    if h !in store.rows || store.rows[h].path == "/" {
      return;
    }
    var twin := store.FindFirst(WithIdentifier(store.rows[h].identifier, target.name));
    if twin.Some? {
      store.Remove(twin.value);
    }
    if h in store.rows {
      if !store.rows[h].removed {
        SetWorkspace(store, h, target);
      } else {
        store.Remove(h);
      }
    }
  }

  /** publishNodes: resolves the target first, so an invalid target leaves the store alone. */
  method PublishNodes(store: Store, source: Workspace, nodes: seq<Handle>, targetName: string)
    returns (o: Outcome<WorkspaceError>)
    requires Good(store)
    modifies store
    ensures Good(store) && store.next == old(store.next)
    ensures o.Fail? <==> PublishingTarget(source, targetName).Failure?
    ensures o.Fail? ==> o.error == PublishingTarget(source, targetName).error && store.rows == old(store.rows)
    ensures o.Pass? ==>
      store.rows == PublishAll(old(store.rows), store.next, nodes, PublishingTarget(source, targetName).value)
  {
    var t := GetPublishingTargetWorkspace(source, targetName);
    if t.Failure? {
      return Fail(t.error);
    }
    var target := t.value;
    ghost var O := store.rows;
    var i := 0;
    while i < |nodes|
      invariant 0 <= i <= |nodes|
      invariant Good(store) && store.next == old(store.next)
      invariant store.rows == PublishAll(O, store.next, nodes[..i], target)
    {
      assert nodes[..i + 1][..i] == nodes[..i];
      PublishOne(store, nodes[i], target);
      i := i + 1;
    }
    assert nodes[..|nodes|] == nodes;
    return Pass;
  }

  /** publish: publishes exactly the records the workspace owns. */
  method Publish(store: Store, source: Workspace, targetName: string) returns (o: Outcome<WorkspaceError>)
    requires Good(store)
    modifies store
    ensures Good(store) && store.next == old(store.next)
    ensures o.Fail? <==> PublishingTarget(source, targetName).Failure?
    ensures o.Fail? ==> store.rows == old(store.rows)
    ensures o.Pass? ==>
      store.rows == PublishAll(old(store.rows), store.next, AllMatching(old(store.rows), InWorkspace(source.name), 0, store.next),
                               PublishingTarget(source, targetName).value)
  {
    var nodes := store.FindAll(InWorkspace(source.name));
    o := PublishNodes(store, source, nodes, targetName);
  }
}
