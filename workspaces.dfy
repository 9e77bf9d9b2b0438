/** Workspaces and their base-workspace chains, and the resolution of a
    publishing target along that chain. */
module Workspaces {
  import opened Wrappers

  /** A workspace and the workspace it is based on. The chain of bases is
      finite by construction. */
  datatype Workspace = Workspace(name: string, base: Option<Workspace>)

  const LiveName := "live"

  datatype WorkspaceError =
    | NullBaseWorkspace                 // the base workspace is dereferenced although there is none
    | NotABaseWorkspace(target: string) // WorkspaceException 1289499117

  /** The workspaces this one is based on, nearest first. */
  function Ancestors(w: Workspace): seq<Workspace>
    decreases w
  {
    match w.base
    case None => []
    case Some(b) => [b] + Ancestors(b)
  }

  /** The first workspace named `name` on the chain starting at w (w included). */
  function FindInChain(w: Workspace, name: string): Result<Workspace, WorkspaceError>
    decreases w
  {
    if w.name == name then Success(w)
    else match w.base
      case None => Failure(NotABaseWorkspace(name))
      case Some(b) => FindInChain(b, name)
  }

  /** The workspace getPublishingTargetWorkspace returns or the error it raises. */
  function PublishingTarget(source: Workspace, name: string): Result<Workspace, WorkspaceError>
  {
    match source.base
    case None => Failure(NullBaseWorkspace)
    case Some(b) => FindInChain(b, name)
  }

  /** Walks the base chain from the base workspace until the name matches. */
  method GetPublishingTargetWorkspace(source: Workspace, name: string) returns (r: Result<Workspace, WorkspaceError>)
    ensures r == PublishingTarget(source, name)
  {
    if source.base.None? {
      return Failure(NullBaseWorkspace);
    }
    var target := source.base.value;
    while name != target.name
      invariant PublishingTarget(source, name) == FindInChain(target, name)
      decreases target
    {
      if target.base.None? {
        return Failure(NotABaseWorkspace(name));
      }
      target := target.base.value;
    }
    return Success(target);
  }

  /** w followed by the workspaces it is based on. */
  function Chain(w: Workspace): seq<Workspace>
  {
    [w] + Ancestors(w)
  }

  lemma {:induction false} FindInChainFirst(w: Workspace, name: string)
    ensures FindInChain(w, name).Success? <==> exists i :: 0 <= i < |Chain(w)| && Chain(w)[i].name == name
    ensures FindInChain(w, name).Failure? ==> FindInChain(w, name).error == NotABaseWorkspace(name)
    ensures FindInChain(w, name).Success? ==>
      exists i :: 0 <= i < |Chain(w)| && Chain(w)[i] == FindInChain(w, name).value && FindInChain(w, name).value.name == name &&
        forall j :: 0 <= j < i ==> Chain(w)[j].name != name
    decreases w
  {
    var chain := Chain(w);
    assert chain[0] == w;
    if w.name != name {
      match w.base
      case None =>
        assert chain == [w];
      case Some(b) =>
        FindInChainFirst(b, name);
        var tail := Chain(b);
        assert chain == [w] + tail;
        assert forall i :: 1 <= i < |chain| ==> chain[i] == tail[i - 1];
        if FindInChain(b, name).Success? {
          var i :| 0 <= i < |tail| && tail[i] == FindInChain(b, name).value && FindInChain(b, name).value.name == name &&
            forall j :: 0 <= j < i ==> tail[j].name != name;
          assert chain[i + 1] == tail[i];
          assert forall j :: 1 <= j < i + 1 ==> chain[j].name == tail[j - 1].name;
        } else {
          forall i | 0 <= i < |chain| ensures chain[i].name != name {
            if i > 0 {
              assert chain[i] == tail[i - 1];
            }
          }
        }
    }
  }

  /** The target is a workspace this one is based on, and the nearest with the requested
      name; the error cases are exactly a missing base and a name absent from the chain. */
  lemma PublishingTargetSpec(source: Workspace, name: string)
    ensures PublishingTarget(source, name) == Failure(NullBaseWorkspace) <==> source.base.None?
    ensures PublishingTarget(source, name) == Failure(NotABaseWorkspace(name)) <==>
      source.base.Some? && forall i :: 0 <= i < |Ancestors(source)| ==> Ancestors(source)[i].name != name
    ensures PublishingTarget(source, name).Success? ==>
      exists i :: 0 <= i < |Ancestors(source)| && Ancestors(source)[i] == PublishingTarget(source, name).value &&
        PublishingTarget(source, name).value.name == name &&
        forall j :: 0 <= j < i ==> Ancestors(source)[j].name != name
  {
    if source.base.Some? {
      var b := source.base.value;
      FindInChainFirst(b, name);
      assert Ancestors(source) == Chain(b);
    }
  }
}
