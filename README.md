# TYPO3CR content repository: a Dafny model

This project models the node and workspace core of the TYPO3 content
repository (TYPO3CR) and proves properties of that model. A content
repository is a tree of nodes. Each node has a path such as `/sites/home`.
It lives in a workspace. Workspaces form a chain of bases that ends in
`live`.

The current model of the repository consists of:

- **The node data record** (`NodeData.php`). The model covers:
  - path derivations: name, parent path, depth and context path;
  - `setPath` and its cascade to the children;
  - node creation: `createSingleNode`, `createNode` and `createNodeFromTemplate`, which probes `name`, `name-1`, `name-2`, … for a free name;
  - `remove` and `setRemoved`;
  - the visibility and access checks;
  - dimension canonicalisation and dimension matching, `adjustToContext` and `similarize`;
  - relative path normalisation.
- **Workspace** (`Workspace.php`): the root record made at creation, resolution of the publishing target along the base chain, `publish`, `publishNodes` and `getNodeCount`.
- **Context** (`Domain/Service/Context.php`): memoised workspace resolution that creates `live` when needed, the absolute-path guard of `getNode`, `getNodesOnPath`, the visibility flags and `__toString`.
- **NodeMigration**: the pre-order walk from the root record that applies ordered filter/transformation rules.
- **DefaultNodeLabelGenerator**: the title, then text, then "(type) name" fallback, followed by cropping.

The older model of the repository consists of:

- **Node** (`Classes/Domain/Model/Node.php`):
  - `setPath`, `getName` and `getLabel`;
  - the property bag, which is inline or delegated to a content object;
  - `setContentType`;
  - `createNode`, whose index is the number of siblings plus one;
  - `getNode` with path normalisation;
  - the `moveBefore` guards;
  - `remove`.
- **The older Context**: its `getWorkspace` hands the context to the workspace; `getNodesOnPath` hands the context to every node it returns.
- **ContentTypeManager**: the lazily filled cache, super-type merging and sub-type filtering.

## How the model is built

The repository behind every node is modelled as the class
`Repository.Table`. The table maps handles to record values and keeps a
counter for the next handle. `findOneByPath` becomes "the first record, in
handle order, that matches a predicate". The methods `Add`, `Remove` and
`Update` reassign the map.

A PHP method that mutates a node record becomes a method over the table
and the record's handle. Its contract states the new map in terms of the
old one. `setPath` cascades over the children and `remove` loops over
them. Both are recursive methods with a ghost bound on path length, and
their postconditions are spelled out as predicates: `Cascade`/`Moved` for
`setPath`, `RemovalCascade`/`Removed`/`Tomb` for `remove`.

Classes whose fields the source memoises are Dafny classes with the same
fields: `Context`, `LegacyContext`, `NodeMigration`, `ContentTypeManager`,
the two workspace repositories and the older workspace. The new
`Workspace` never changes after construction, so it is a datatype.

Pure logic is written as functions, with lemmas about them: paths,
dimensions, labels, content-type loading, publishing steps and migration
results. Each method is proved against the function that specifies it.

Collaborators the source calls but does not show are parameters:

- `strip_tags` is a function argument `stripTags`;
- `securityContext->hasRole` is a predicate `hasRole`;
- the content type manager's `hasContentType`, as the older node sees it, is a predicate `hasContentType`;
- a node type is a datatype holding its auto-created children;
- UUID generation is the counter class `NodeDataOps.IdentifierSource`;
- the current time is a constructor argument.

In two places the code does not do what it evidently intends, and the model follows the intended behaviour:

- The depth cache. `NodeData.php:247-250` resets it only for `/`, and `getDepth` (`NodeData.php:298-300`) recomputes it only when it is NULL, so a moved record can report its old depth. `WithPath` clears the cache on every path change. The code's behaviour is kept in `WithPathAsWritten`, and `StaleDepthAsWritten` exhibits it; this is the finding below.
- `normalizePath`. The model uses stack semantics: `.` is dropped, `..` drops itself and the segment before it, and an empty result is `/`. The code's early stop on paths that climb above the root is listed under "Left out".

## Model

| member | source | states |
|---|---|---|
| Repository.FirstMatch | Classes/TYPO3/TYPO3CR/Domain/Model/NodeData.php:480 | the first handle in [lo, hi) whose record matches, and None exactly when no handle in that range matches |
| Repository.AllMatching | Classes/TYPO3/TYPO3CR/Domain/Model/Workspace.php:131 | exactly the matching handles of [lo, hi), in increasing order |
| Repository.Table.constructor | Classes/TYPO3/TYPO3CR/Domain/Model/NodeData.php:438 | an empty store whose next handle is 0 |
| Repository.Table.FindFirst | Classes/TYPO3/TYPO3CR/Domain/Model/NodeData.php:433 | the first match, and that one exists iff some stored record matches |
| Repository.Table.FindAll | Classes/TYPO3/TYPO3CR/Domain/Model/NodeData.php:489 | a handle is returned iff its record is stored and matches |
| Repository.Table.CountAll | Classes/TYPO3/TYPO3CR/Domain/Model/Workspace.php:176 | the number of matching records |
| Repository.Table.Add | Classes/TYPO3/TYPO3CR/Domain/Model/NodeData.php:438 | the record is stored under a handle not used before, and nothing else changes |
| Repository.Table.Remove | Classes/TYPO3/TYPO3CR/Domain/Model/NodeData.php:516 | only that handle leaves the store |
| Repository.Table.Update | Classes/TYPO3/TYPO3CR/Domain/Model/NodeData.php:519 | only that handle's record is replaced |
| Strings.JoinSplit | Classes/TYPO3/TYPO3CR/Domain/Model/NodeData.php:667-688 | joining the pieces of a split gives back the string |
| Strings.SplitJoin | Classes/TYPO3/TYPO3CR/Domain/Model/NodeData.php:667-688 | splitting a join of separator-free pieces gives back the pieces |
| Strings.LastIndex | Classes/TYPO3/TYPO3CR/Domain/Model/NodeData.php:253 | strrpos: the position of the last occurrence of the character, or -1 when it does not occur |
| Strings.SortSpec | Classes/TYPO3/TYPO3CR/Domain/Model/NodeData.php:712 | sort returns a sorted permutation of its input |
| Strings.SortedUnique | Classes/TYPO3/TYPO3CR/Domain/Model/NodeData.php:712 | two sorted permutations of each other are equal |
| Strings.SortIgnoresOrder | Classes/TYPO3/TYPO3CR/Domain/Model/NodeData.php:712 | the sorted result depends only on the multiset of values |
| Strings.NatToStringInjective | Classes/TYPO3/TYPO3CR/Domain/Model/NodeData.php:463 | different counters give different decimal suffixes |
| Paths.SegmentsOfPath | Classes/Domain/Model/Node.php:34 | a path that matches the path pattern is "/" followed by its names joined with "/", and each name is valid |
| Paths.PathOfSegments | Classes/Domain/Model/Node.php:34 | joining valid names gives a valid path whose names are those names |
| Paths.ValidPathShape | Classes/Domain/Model/Node.php:34 | a valid path starts with "/" and, unless it is "/", does not end with "/" |
| Paths.ChildPathFacts | Classes/TYPO3/TYPO3CR/Domain/Model/NodeData.php:215-217 | the child path of q and a valid name is valid; its name is that name, its parent path is q and its depth is one more than q's |
| Paths.Decompose | Classes/TYPO3/TYPO3CR/Domain/Model/NodeData.php:247-254 | every valid path other than "/" is the child path of its parent path and its name |
| Paths.DepthIsLength | Classes/TYPO3/TYPO3CR/Domain/Model/NodeData.php:297-302 | the depth of a valid path (0 for "/", otherwise the number of slashes) is the number of names on it |
| Paths.ParentPathShorter | Classes/TYPO3/TYPO3CR/Domain/Model/NodeData.php:247-254 | a path is never its own parent path |
| Paths.SiblingsNotNested | Classes/TYPO3/TYPO3CR/Domain/Model/NodeData.php:236-241 | one child of q is never below another child of q |
| Paths.AncestorMoveRevisits | Classes/TYPO3/TYPO3CR/Domain/Model/NodeData.php:236-241 | moving "/a/b" to its ancestor "/a" is not a disjoint move, and the cascade rebases "/a/b/b/c/x" below the not yet moved child "/a/b/c", which then moves it on to "/a/c/x" |
| Paths.RebaseChild | Classes/TYPO3/TYPO3CR/Domain/Model/NodeData.php:238-240 | moving q to np sends q's child with name n to np's child with name n |
| Paths.RebaseCompose | Classes/TYPO3/TYPO3CR/Domain/Model/NodeData.php:236-241 | the cascade's per-level renames compose into one rename of the whole sub-tree |
| Paths.ResolveSegments | Classes/TYPO3/TYPO3CR/Domain/Model/NodeData.php:677-687 | the loop over the segments keeps exactly the stack Resolve specifies: "." dropped and ".." popping the segment before it |
| Paths.NormalizePath | Classes/TYPO3/TYPO3CR/Domain/Model/NodeData.php:657-690 | the normalised path equals Normalized: a relative path is put below the base, "//" fails, and an empty result is "/" |
| Paths.ResolveKeepsInput | Classes/TYPO3/TYPO3CR/Domain/Model/NodeData.php:677-687 | every kept segment comes from the input and is neither "." nor ".." |
| Paths.ResolveClean | Classes/TYPO3/TYPO3CR/Domain/Model/NodeData.php:677-687 | segments without dots are kept unchanged |
| Paths.NormalizedHasNoDots | Classes/TYPO3/TYPO3CR/Domain/Model/NodeData.php:657-690 | a successful normalisation contains no "." or ".." segment |
| Paths.NormalizeValidPath | Classes/TYPO3/TYPO3CR/Domain/Model/NodeData.php:657-690 | normalising a valid absolute path returns it unchanged (idempotence on valid paths) |
| Paths.NormalizeName | Classes/TYPO3/TYPO3CR/Domain/Model/NodeData.php:657-690 | a name relative to a valid base normalises to the base's child path |
| Paths.NormalizeUpAndBack | Classes/TYPO3/TYPO3CR/Domain/Model/NodeData.php:677-687 | "../" followed by the base's own name leads back to the base |
| Paths.NormalizedSuffix | Classes/TYPO3/TYPO3CR/Domain/Model/NodeData.php:460-466 | normalising name + "-j" gives the normalised name's stem + "-j", or the "//" failure |
| Dimensions.Names | Classes/TYPO3/TYPO3CR/Domain/Model/NodeData.php:796-804 | the dimension names in order |
| Dimensions.SortEach | Classes/TYPO3/TYPO3CR/Domain/Model/NodeData.php:796-804 | each dimension keeps its name and position; its values are sorted |
| Dimensions.BuildDimensionValues | Classes/TYPO3/TYPO3CR/Domain/Model/NodeData.php:706-716 | the loop result is the canonical form: values grouped by name in order of first appearance, each group sorted |
| Dimensions.GroupValues | Classes/TYPO3/TYPO3CR/Domain/Model/NodeData.php:708-710 | the grouping loop builds Group |
| Dimensions.SortGroups | Classes/TYPO3/TYPO3CR/Domain/Model/NodeData.php:711-714 | the sorting loop sorts each group's values in place, keeping the names |
| Dimensions.LookupGroup | Classes/TYPO3/TYPO3CR/Domain/Model/NodeData.php:708-710 | the group of a name holds exactly that name's values in order, and exists iff the name occurs |
| Dimensions.GroupDistinct | Classes/TYPO3/TYPO3CR/Domain/Model/NodeData.php:708-710 | each name appears in at most one group |
| Dimensions.CanonicalLookup | Classes/TYPO3/TYPO3CR/Domain/Model/NodeData.php:706-716 | each canonical entry belongs to a name that occurs, and holds that name's values sorted |
| Dimensions.CanonicalIgnoresValueOrder | Classes/TYPO3/TYPO3CR/Domain/Model/NodeData.php:794-805 | the canonical form, and so the hash, ignores the order of values within a dimension |
| Dimensions.NameOrderMatters | Classes/TYPO3/TYPO3CR/Domain/Model/NodeData.php:796-804 | the canonical form keeps dimension names in insertion order, so reordering the names changes it |
| Dimensions.MatchesDimensionsIff | Classes/TYPO3/TYPO3CR/Domain/Model/NodeData.php:752-759 | the dimension check holds iff every requested dimension exists on the record with a value in common |
| Workspaces.GetPublishingTargetWorkspace | Classes/TYPO3/TYPO3CR/Domain/Model/Workspace.php:187-196 | the while loop over the base chain returns PublishingTarget |
| Workspaces.FindInChainFirst | Classes/TYPO3/TYPO3CR/Domain/Model/Workspace.php:189-194 | the search succeeds iff some workspace on the chain has the name; it returns the first such workspace, and otherwise fails with NotABaseWorkspace |
| Workspaces.PublishingTargetSpec | Classes/TYPO3/TYPO3CR/Domain/Model/Workspace.php:187-196 | no base gives the NULL-base error; otherwise the result is the first ancestor with the name, or NotABaseWorkspace when no ancestor has it |
| NodeDataModel.NewNodeData | Classes/TYPO3/TYPO3CR/Domain/Model/NodeData.php:193-208 | the constructor fails iff the path is invalid; otherwise the record is well formed, has the given path, workspace and identifier, is not removed, has no index, and has the flattened dimensions |
| NodeDataModel.ValidPathNoAt | Classes/TYPO3/TYPO3CR/Domain/Model/NodeData.php:282-289 | a valid path contains no "@" |
| NodeDataModel.ContextPathRoundTrip | Classes/TYPO3/TYPO3CR/Domain/Model/NodeData.php:282-289 | the context path (the path, plus "@workspace" unless the workspace is live) splits back into the path and the workspace name |
| NodeDataModel.WithPath | Classes/TYPO3/TYPO3CR/Domain/Model/NodeData.php:244-254 | setPath on one record changes only the path fields |
| NodeDataModel.WithPathWellFormed | Classes/TYPO3/TYPO3CR/Domain/Model/NodeData.php:247-254 | setPath keeps a record well formed; the parent path is "" for "/" and otherwise the path the new one is a child of |
| NodeDataModel.StaleDepthAsWritten | Classes/TYPO3/TYPO3CR/Domain/Model/NodeData.php:247-250 | as written, moving "/a/b" whose depth was read to "/c" leaves depth 2 cached for a depth-1 path |
| NodeDataModel.VisibilityIgnoresDates | Classes/TYPO3/TYPO3CR/Domain/Model/NodeData.php:553-559 | visibility is the negated hidden flag and does not depend on the hidden-before/after dates |
| NodeDataModel.IsAccessible | Classes/TYPO3/TYPO3CR/Domain/Model/NodeData.php:566-578 | the loop answers true iff the roles impose no restriction or some role is held |
| NodeDataModel.HasAccessRestrictionsIff | Classes/TYPO3/TYPO3CR/Domain/Model/NodeData.php:586-594 | there is no restriction iff the roles are empty or exactly ["Everybody"] |
| NodeDataModel.MatchesWorkspaceAndDimensionsIff | Classes/TYPO3/TYPO3CR/Domain/Model/NodeData.php:748-761 | true iff the workspace names agree and, when dimensions are given, each exists on the record with a common value |
| NodeDataModel.Similarize | Classes/TYPO3/TYPO3CR/Domain/Model/NodeData.php:627-648 | similarize changes no path, workspace, identifier, removed flag or dimension, and keeps a record well formed |
| NodeDataModel.SimilarizeSpec | Classes/TYPO3/TYPO3CR/Domain/Model/NodeData.php:627-648 | the content is the source's, except that the record keeps its own content object when the source has none; applying it twice is the same as once |
| NodeDataOps.GeneratedIdentifiersDistinct | Classes/TYPO3/TYPO3CR/Domain/Model/NodeData.php:437 | distinct draws give distinct identifiers |
| NodeDataOps.IdentifierSource.Generate | Classes/TYPO3/TYPO3CR/Domain/Model/NodeData.php:437 | the identifier of the current draw, and the counter moves on by one |
| NodeDataOps.GetChildNodeData | Classes/TYPO3/TYPO3CR/Domain/Model/NodeData.php:488-490 | exactly the records whose parent path is q in the workspace, each once |
| NodeDataOps.ReachesUnder | Classes/TYPO3/TYPO3CR/Domain/Model/NodeData.php:236-239 | among well-formed records, a path the child queries lead up to q is q or lies below q |
| NodeDataOps.DescendsUnder | Classes/TYPO3/TYPO3CR/Domain/Model/NodeData.php:236-239 | a record reached from q lies below q |
| NodeDataOps.DescendsSplit | Classes/TYPO3/TYPO3CR/Domain/Model/NodeData.php:236-239 | a record reached from q is a child of q or is reached from one child of q |
| NodeDataOps.DescendsTrans | Classes/TYPO3/TYPO3CR/Domain/Model/NodeData.php:236-239 | a record reached from one reached from q is reached from q |
| NodeDataOps.DescendsKept | Classes/TYPO3/TYPO3CR/Domain/Model/NodeData.php:236-239 | a record reached from r that a step left alone is still reached from r, or is reached from a record the step changed or dropped |
| NodeDataOps.MoveTree | Classes/TYPO3/TYPO3CR/Domain/Model/NodeData.php:236-254 | for a destination disjoint from the sub-tree: the record gets the new path; every record that the recursive getChildNodeData calls reach from its path, at any depth, gets its path rebased onto the new path and keeps everything else; no other record changes |
| NodeDataOps.MoveChildren | Classes/TYPO3/TYPO3CR/Domain/Model/NodeData.php:236-241 | for a destination disjoint from the sub-tree, after the loop every changed record is one of the children or reached from one, and every record reached from a child, at any depth, has its rebased path |
| NodeDataOps.MoveChild | Classes/TYPO3/TYPO3CR/Domain/Model/NodeData.php:239 | one round of the loop: the child and every record reached from it get their rebased paths, and a changed record is a child already moved or reached from one |
| NodeDataOps.MoveSelf | Classes/TYPO3/TYPO3CR/Domain/Model/NodeData.php:243-254 | once the children are moved, the record itself gets the new path, and the whole sub-tree reached from the old path is moved |
| NodeDataOps.FinishDeep | Classes/TYPO3/TYPO3CR/Domain/Model/NodeData.php:236-254 | once the loop has moved every child's sub-tree, giving the record the new path completes the move of the whole sub-tree |
| NodeDataOps.SetPath | Classes/TYPO3/TYPO3CR/Domain/Model/NodeData.php:227-262 | an invalid path fails and changes nothing; an unchanged path changes nothing; non-recursive, only the record gets the path; recursive with a destination disjoint from the sub-tree, every record reached from the old path, at any depth, is rebased and nothing outside that sub-tree changes |
| NodeDataOps.GetDepth | Classes/TYPO3/TYPO3CR/Domain/Model/NodeData.php:297-302 | the depth of the path, and the depth cache of that record is filled |
| NodeDataOps.SetWorkspace | Classes/TYPO3/TYPO3CR/Domain/Model/NodeData.php:311-316 | only the record's workspace changes |
| NodeDataOps.SetIndex | Classes/TYPO3/TYPO3CR/Domain/Model/NodeData.php:350-355 | only the record's index changes |
| NodeDataOps.GetNode | Classes/TYPO3/TYPO3CR/Domain/Model/NodeData.php:479-481 | the first record at the normalised path in the record's workspace, or the normalisation error |
| NodeDataOps.LookupChildName | Classes/TYPO3/TYPO3CR/Domain/Model/NodeData.php:479-481 | a plain name finds the child at the child path |
| NodeDataOps.NextSiblingIndex | Classes/TYPO3/TYPO3CR/Domain/Model/NodeData.php:439 | the index is above every sibling's index, and it is 1 or one more than some sibling's index |
| NodeDataOps.PathIsTaken | Classes/TYPO3/TYPO3CR/Domain/Model/NodeData.php:433 | true iff a record exists at the path in the workspace with matching dimensions |
| NodeDataOps.SingleRecord | Classes/TYPO3/TYPO3CR/Domain/Model/NodeData.php:436-437 | the new record is well formed, at the child path, in the workspace, with the node type, the index and empty content |
| NodeDataOps.CreateSingleNode | Classes/TYPO3/TYPO3CR/Domain/Model/NodeData.php:426-445 | fails iff the name is invalid (InvalidNodeName) or the path is taken (NodeExists), and then changes nothing; otherwise it adds exactly one record at the child path in the given or the parent's workspace, last among its siblings |
| NodeDataOps.CreateAutoChildren | Classes/TYPO3/TYPO3CR/Domain/Model/NodeData.php:405-408 | on success every auto-created child of the type exists below the node |
| NodeDataOps.CreateTypedNode | Classes/TYPO3/TYPO3CR/Domain/Model/NodeData.php:399-411 | an invalid name fails with InvalidNodeName, and a taken child path with NodeExists, adding nothing and drawing no identifier; otherwise the record is added under the next handle with the type's defaults, its identifier, dimensions and an index after its siblings, and it stays even when an auto-created child then fails; on success every auto-created child exists |
| NodeDataOps.CreateNode | Classes/TYPO3/TYPO3CR/Domain/Model/NodeData.php:399-411 | an invalid name fails with InvalidNodeName, and a taken child path with NodeExists, changing nothing; otherwise the record is added under the next handle with its content, identifier, dimensions and an index after its siblings; without a type the call succeeds exactly then and adds only that record; with a type, success means every auto-created child exists |
| NodeDataOps.CandidatesDistinct | Classes/TYPO3/TYPO3CR/Domain/Model/NodeData.php:460-466 | different counters give different candidate names |
| NodeDataOps.CandidatePath | Classes/TYPO3/TYPO3CR/Domain/Model/NodeData.php:460-466 | candidate name-j normalises to the stem + "-j" |
| NodeDataOps.FreeName | Classes/TYPO3/TYPO3CR/Domain/Model/NodeData.php:460-466 | the while loop returns the first candidate for which getNode finds nothing, or the lookup error hit on the way |
| NodeDataOps.TemplateEndsAt | Classes/TYPO3/TYPO3CR/Domain/Model/NodeData.php:460-466 | the round in which the name loop stops is unique |
| NodeDataOps.TemplateContent | Classes/TYPO3/TYPO3CR/Domain/Model/NodeData.php:627-648 | what similarize copies from a template: its properties, hidden flags and access roles, with the name of its node type as the type |
| NodeDataOps.CreateFromTemplateAt | Classes/TYPO3/TYPO3CR/Domain/Model/NodeData.php:467-468 | createNode under the chosen name and similarize: createNode's failures with nothing changed, and on success the record at the child path with the template's content |
| NodeDataOps.CreateNodeFromTemplate | Classes/TYPO3/TYPO3CR/Domain/Model/NodeData.php:457-469 | the name loop ends in some round; a getNode error in that round is returned with nothing changed; when the round is free but the name is invalid or the path taken, createNode's InvalidNodeName or NodeExists is returned with nothing changed; with no node type it succeeds exactly when the free name is valid and untaken; on success the new record, under the next handle, sits at the first free candidate path and carries the template's content with the template's node type |
| NodeDataOps.RemoveTree | Classes/TYPO3/TYPO3CR/Domain/Model/NodeData.php:509-521 | every record that the recursive getChildNodeData calls reach from the record's path, at any depth, is deleted when its workspace has no base and otherwise flagged removed; so is the record; no other record changes |
| NodeDataOps.RemoveChild | Classes/TYPO3/TYPO3CR/Domain/Model/NodeData.php:511-513 | one round of the loop: every record reached from the child, at any depth, is deleted or flagged, and a changed record is a child already removed or reached from one |
| NodeDataOps.RemoveChildren | Classes/TYPO3/TYPO3CR/Domain/Model/NodeData.php:511-513 | the loop over the children: each child's sub-tree, at any depth, is deleted or flagged, and only those records change |
| NodeDataOps.RemoveSelf | Classes/TYPO3/TYPO3CR/Domain/Model/NodeData.php:515-520 | once the children's sub-trees are gone, the record itself is deleted when its workspace has no base and flagged removed otherwise, and the whole sub-tree is removed |
| NodeDataOps.FinishDeepRemoval | Classes/TYPO3/TYPO3CR/Domain/Model/NodeData.php:509-521 | once every child's sub-tree is removed, removing the record itself completes the removal of the whole sub-tree |
| NodeDataOps.Remove | Classes/TYPO3/TYPO3CR/Domain/Model/NodeData.php:509-521 | remove as RemoveTree states it: the whole sub-tree reached from the record is deleted or flagged, and nothing else changes |
| NodeDataOps.RemovedNotFound | Classes/TYPO3/TYPO3CR/Domain/Model/NodeData.php:515-516 | a record removed from a base-less workspace is found by no query |
| NodeDataOps.SetRemoved | Classes/TYPO3/TYPO3CR/Domain/Model/NodeData.php:529-533 | setRemoved(true) is remove, with the whole sub-tree deleted or flagged; setRemoved(false) changes nothing |
| NodeDataOps.TargetDimensions | Classes/TYPO3/TYPO3CR/Domain/Model/NodeData.php:729-736 | fails at the first context dimension without a target value, and otherwise pairs each dimension with its target value |
| NodeDataOps.CollectTargetDimensions | Classes/TYPO3/TYPO3CR/Domain/Model/NodeData.php:729-736 | the loop computes TargetDimensions |
| NodeDataOps.WithDimensions | Classes/TYPO3/TYPO3CR/Domain/Model/NodeData.php:601-605 | only the dimensions and their cached values change, and the record stays well formed |
| NodeDataOps.SetDimensions | Classes/TYPO3/TYPO3CR/Domain/Model/NodeData.php:601-605 | the record gets the dimensions and their canonical values |
| NodeDataOps.AdjustToContext | Classes/TYPO3/TYPO3CR/Domain/Model/NodeData.php:726-739 | the workspace is always set; the dimensions are replaced when every target exists, and otherwise the missing one is reported |
| WorkspacePublishing.RootRecord | Classes/TYPO3/TYPO3CR/Domain/Model/Workspace.php:87 | the root record is at "/", in the workspace, not removed |
| WorkspacePublishing.RootRecordWellFormed | Classes/TYPO3/TYPO3CR/Domain/Model/Workspace.php:87 | the root record is well formed |
| WorkspacePublishing.CreateWorkspace | Classes/TYPO3/TYPO3CR/Domain/Model/Workspace.php:72-90 | a new workspace adds exactly its root record under a fresh handle |
| WorkspacePublishing.GetNodeCount | Classes/TYPO3/TYPO3CR/Domain/Model/Workspace.php:175-177 | the number of records of the workspace, which is at least 1 iff the workspace owns a record |
| WorkspacePublishing.CreatedWorkspaceCounted | Classes/TYPO3/TYPO3CR/Domain/Model/Workspace.php:162-177 | right after creation the count is at least 1 |
| WorkspacePublishing.PublishStepChanges | Classes/TYPO3/TYPO3CR/Domain/Model/Workspace.php:148-157 | one step only removes the target twin or the tombstoned record, or moves the record to the target; nothing else changes |
| WorkspacePublishing.PublishStepTarget | Classes/TYPO3/TYPO3CR/Domain/Model/Workspace.php:149-157 | the target twin is gone; a live record moves to the target; a removed record is gone |
| WorkspacePublishing.PublishAllChanges | Classes/TYPO3/TYPO3CR/Domain/Model/Workspace.php:147-159 | over all records: each leaves the store only as a twin in the target or as a listed non-root record, and each kept record is unchanged or a listed record moved to the target |
| WorkspacePublishing.PublishNeverMovesRootOrTombstone | Classes/TYPO3/TYPO3CR/Domain/Model/Workspace.php:147-148 | a root record or a tombstone is never moved, and a root outside the target is never deleted |
| WorkspacePublishing.PublishOne | Classes/TYPO3/TYPO3CR/Domain/Model/Workspace.php:148-157 | one round of the loop is PublishStep |
| WorkspacePublishing.PublishNodes | Classes/TYPO3/TYPO3CR/Domain/Model/Workspace.php:145-160 | fails iff the target is not found, and then changes nothing; otherwise the store is PublishAll over the given records |
| WorkspacePublishing.Publish | Classes/TYPO3/TYPO3CR/Domain/Model/Workspace.php:130-133 | publishNodes over exactly the records of this workspace |
| Contexts.FindByName | Classes/TYPO3/TYPO3CR/Domain/Service/Context.php:95 | a found workspace is known and has the name, and none is found iff no known workspace has it |
| Contexts.FindByNameAppend | Classes/TYPO3/TYPO3CR/Domain/Service/Context.php:103 | adding a workspace does not hide one found before |
| Contexts.WorkspaceRepository.constructor | Classes/TYPO3/TYPO3CR/Domain/Service/Context.php:95 | an empty repository |
| Contexts.WorkspaceRepository.FindOneByName | Classes/TYPO3/TYPO3CR/Domain/Service/Context.php:95 | the loop returns FindByName |
| Contexts.WorkspaceRepository.Add | Classes/TYPO3/TYPO3CR/Domain/Service/Context.php:103 | the workspace is appended |
| Contexts.ResolveSpec | Classes/TYPO3/TYPO3CR/Domain/Service/Context.php:93-114 | a known workspace is returned and nothing is created; the result is absent iff creation is off and the name is unknown; a created non-live workspace is based on live; the result is then found; resolving again creates nothing |
| Contexts.WithRootsKeeps | Classes/TYPO3/TYPO3CR/Domain/Model/Workspace.php:85-90 | creating workspaces keeps every existing record |
| Contexts.WithRootsAt | Classes/TYPO3/TYPO3CR/Domain/Model/Workspace.php:85-90 | the i-th created workspace's root record is at handle next + i |
| Contexts.WithRootsAppend | Classes/TYPO3/TYPO3CR/Domain/Model/Workspace.php:85-90 | creating a + b is creating a, then b |
| Contexts.WithRootsUnfold | Classes/TYPO3/TYPO3CR/Domain/Model/Workspace.php:85-90 | creating one or two workspaces adds one or two root records at the next handles |
| Contexts.ContextLookupValid | Classes/TYPO3/TYPO3CR/Domain/Service/Context.php:182-187 | with a root node present, a valid absolute path finds the record at that path |
| Contexts.ContextStringSplits | Classes/TYPO3/TYPO3CR/Domain/Service/Context.php:282-284 | the context string splits back into the workspace name and the node path |
| Contexts.Context.constructor | Classes/TYPO3/TYPO3CR/Domain/Service/Context.php:60-84 | no memoised workspace, the given time, and all three flags FALSE |
| Contexts.Context.GetWorkspace | Classes/TYPO3/TYPO3CR/Domain/Service/Context.php:93-114 | a memoised workspace is returned and nothing changes; otherwise the result is ResolveWorkspace, the created workspaces are added with their root records, and the flags stay |
| Contexts.LiveWorkspace | Classes/TYPO3/TYPO3CR/Domain/Service/Context.php:100-104 | the known live workspace, or a new base-less live workspace that is added with its root record |
| Contexts.CreateMissing | Classes/TYPO3/TYPO3CR/Domain/Service/Context.php:100-110 | the missing workspace is created as ResolveWorkspace says |
| Contexts.CreateBased | Classes/TYPO3/TYPO3CR/Domain/Service/Context.php:108-109 | a new workspace based on live is added with its root record |
| Contexts.Context.GetNode | Classes/TYPO3/TYPO3CR/Domain/Service/Context.php:182-187 | a path not starting with "/" fails and changes nothing; otherwise the result is ContextLookup in the workspace named by the context: "/" gives the root, another path the root's getNode of the rest. A memoised workspace leaves the store, the repository and the identifier counter unchanged; without a memo they change exactly as ResolveWorkspace with creation says. The memo keeps the context's name, and the current node, the time and the flags are kept |
| Contexts.Context.GetNodesOnPath | Classes/TYPO3/TYPO3CR/Domain/Service/Context.php:198-204 | exactly the records on the way between the two points, in the memoised workspace |
| Contexts.Context.SetCurrentNode | Classes/TYPO3/TYPO3CR/Domain/Service/Context.php:133-135 | only the current node changes |
| Contexts.Context.SetCurrentDateTime | Classes/TYPO3/TYPO3CR/Domain/Service/Context.php:170-172 | only the current time changes |
| Contexts.Context.SetInvisibleContentShown | Classes/TYPO3/TYPO3CR/Domain/Service/Context.php:214-216 | only that flag changes, to the argument |
| Contexts.Context.SetRemovedContentShown | Classes/TYPO3/TYPO3CR/Domain/Service/Context.php:237-239 | only that flag changes, to the argument |
| Contexts.Context.SetInaccessibleContentShown | Classes/TYPO3/TYPO3CR/Domain/Service/Context.php:261-263 | only that flag changes, to the argument |
| Contexts.Context.ToString | Classes/TYPO3/TYPO3CR/Domain/Service/Context.php:282-284 | the workspace name followed by the current node's path |
| NodeMigrations.ApplyRulesShape | Classes/TYPO3/TYPO3CR/Migration/Service/NodeMigration.php:109-113 | applying the rules changes only a record's content |
| NodeMigrations.ApplyRulesInOrder | Classes/TYPO3/TYPO3CR/Migration/Service/NodeMigration.php:109-113 | the rules are applied in configuration order, each transformation iff its filters match the record at that point |
| NodeMigrations.ApplyFirstNoMatch | Classes/TYPO3/TYPO3CR/Migration/Service/NodeMigration.php:110 | a record no filter matches is left as it is |
| NodeMigrations.ApplyMigration | Classes/TYPO3/TYPO3CR/Migration/Service/NodeMigration.php:110-112 | one rule changes only that record, as Step says |
| NodeMigrations.ApplyMigrations | Classes/TYPO3/TYPO3CR/Migration/Service/NodeMigration.php:109-113 | the rule loop leaves the record as ApplyRules |
| NodeMigrations.ChildNodes | Classes/TYPO3/TYPO3CR/Migration/Service/NodeMigration.php:114 | the children of the record, in handle order |
| NodeMigrations.WalkVisits | Classes/TYPO3/TYPO3CR/Migration/Service/NodeMigration.php:108-118 | the walk visits the node first and then only records below it, touches no unvisited record, applies the rules to the node, and visits every record reached from the node's path by the getChildNodes calls, at any depth |
| NodeMigrations.DescendsSameTree | Classes/TYPO3/TYPO3CR/Migration/Service/NodeMigration.php:108-118 | migrations change contents only, so the records reached from a path stay the same while the walk goes on |
| NodeMigrations.ListReachedStep | Classes/TYPO3/TYPO3CR/Migration/Service/NodeMigration.php:115-117 | walking one more child adds every record reached from that child to the trace |
| NodeMigrations.WalkNodes | Classes/TYPO3/TYPO3CR/Migration/Service/NodeMigration.php:108-118 | the recursive method's store and visit order are the Walk function's, and the tree shape is kept |
| NodeMigrations.WalkChild | Classes/TYPO3/TYPO3CR/Migration/Service/NodeMigration.php:114-116 | one child's walk, with the direction passed on unchanged |
| NodeMigrations.MigrationStartsAtRoot | Classes/TYPO3/TYPO3CR/Migration/Service/NodeMigration.php:85-98 | the walk starts at the root record, applies the rules to it first, and visits every record of the workspace reached from "/" by the getChildNodes calls, at any depth |
| NodeMigrations.NodeMigration.constructor | Classes/TYPO3/TYPO3CR/Migration/Service/NodeMigration.php:75-78 | the workspace name and configuration, no memoised workspace |
| NodeMigrations.NodeMigration.GetWorkspace | Classes/TYPO3/TYPO3CR/Migration/Service/NodeMigration.php:126-134 | memoised; fails with MissingWorkspace iff the named workspace is not found |
| NodeMigrations.NodeMigration.Migrate | Classes/TYPO3/TYPO3CR/Migration/Service/NodeMigration.php:85-98 | migrateUp/migrateDown: a missing workspace fails and changes nothing; otherwise the store is MigrationResult |
| NodeMigrations.MigrateWorkspace | Classes/TYPO3/TYPO3CR/Migration/Service/NodeMigration.php:85-88 | the walk from the workspace's "/" record produces exactly MigrationResult |
| NodeMigrations.WalkFromRoot | Classes/TYPO3/TYPO3CR/Migration/Service/NodeMigration.php:87 | the walk from the found root record passes and its store is MigrationResult |
| Labels.Crop | Classes/TYPO3/TYPO3CR/Domain/Model/DefaultNodeLabelGenerator.php:38-39 | a short string is unchanged; a long one is cut to max characters followed by " …"; the result is never longer than max + 2 |
| Labels.CropSpec | Classes/TYPO3/TYPO3CR/Domain/Model/DefaultNodeLabelGenerator.php:38-39 | the first max characters are kept, and the string is unchanged exactly when it is short enough or already ends in the ellipsis at max |
| Labels.DefaultLabelSpec | Classes/TYPO3/TYPO3CR/Domain/Model/DefaultNodeLabelGenerator.php:29-40 | a usable title wins, then a usable text, then "(type) name"; the label is at most max + 2 long |
| Labels.LegacyLabel | Classes/Domain/Model/Node.php:197-201 | the title when present, otherwise "(content type) name", cropped to 30 characters |
| Labels.LegacyLabelEmptyTitle | Classes/Domain/Model/Node.php:197-201 | the older label takes an empty title as it is, where the default generator falls back to "(type) name" |
| Legacy.LegacyWorkspace.constructor | Classes/Domain/Service/Context.php:131-135 | a workspace with the name and base, and no context yet |
| Legacy.LegacyWorkspace.SetContext | Classes/Domain/Service/Context.php:137 | the workspace gets the context |
| Legacy.WithLegacyPathSpec | Classes/Domain/Model/Node.php:152-158 | setPath fails iff the path does not match the pattern; otherwise the node is well formed with that path and its depth, and nothing else changes |
| Legacy.NewLegacyNodeSpec | Classes/Domain/Model/Node.php:136-140 | the constructor fails iff the path is invalid; otherwise the node is fresh, with the default content type |
| Legacy.LegacyNameSpec | Classes/Domain/Model/Node.php:187-189 | the name is what follows the last slash ("" for "/"), and the name given to createNode is the created node's name |
| Legacy.MoveBeforeSpec | Classes/Domain/Model/Node.php:298-309 | the root cannot move, and the guards pass exactly for a reference node with the same parent path |
| Legacy.WithProperty | Classes/Domain/Model/Node.php:322-328 | without an object the value is stored inline and read back; with one, a non-settable name is ignored and a settable and gettable name reads back |
| Legacy.HasProperty | Classes/Domain/Model/Node.php:340-346 | inline: isset (a NULL value does not count); with an object: iff getProperty succeeds |
| Legacy.GetProperties | Classes/Domain/Model/Node.php:377-383 | exactly the property names, each with getProperty's value |
| Legacy.GetPropertyNames | Classes/Domain/Model/Node.php:391-397 | with an object, exactly the names hasProperty accepts; inline, every name hasProperty accepts |
| Legacy.ContentObjectRoundTrip | Classes/Domain/Model/Node.php:406-431 | a non-object is rejected; attaching an object and detaching it again restores inline behaviour |
| Legacy.WithContentTypeSpec | Classes/Domain/Model/Node.php:440-445 | setContentType succeeds iff the type is known, and then changes only the type |
| Legacy.NodeLabel | Classes/Domain/Model/Node.php:197-201 | the node's title (through strip_tags) when it has one, otherwise "(content type) name", cropped to 30 characters |
| Legacy.SetPath | Classes/Domain/Model/Node.php:152-158 | the stored node is WithLegacyPath's, or IllegalPath and nothing changes |
| Legacy.SetProperty | Classes/Domain/Model/Node.php:322-328 | only that node changes, as WithProperty |
| Legacy.SetContentObject | Classes/Domain/Model/Node.php:406-411 | a non-object fails and changes nothing; an object is attached |
| Legacy.UnsetContentObject | Classes/Domain/Model/Node.php:429-431 | the object is detached |
| Legacy.SetIndex | Classes/Domain/Model/Node.php:259-261 | only the node's index changes |
| Legacy.SetContentType | Classes/Domain/Model/Node.php:440-445 | an unknown type fails and changes nothing; otherwise only the type changes |
| Legacy.CreatedNodeSpec | Classes/Domain/Model/Node.php:465-479 | the created node is a well-formed child of q with the name, one level deeper, with index equal to the number of siblings plus one |
| Legacy.BuildNode | Classes/Domain/Model/Node.php:470-476 | fails only for an unknown content type; otherwise the created node |
| Legacy.CreationSound | Classes/Domain/Model/Node.php:465-479 | createNode keeps every stored node well formed |
| Legacy.CreationFailures | Classes/Domain/Model/Node.php:465-479 | fails iff the child path is invalid or the type is unknown, and then adds nothing; an invalid path fails before an identifier is drawn |
| Legacy.CreationAdds | Classes/Domain/Model/Node.php:465-479 | on success exactly one node is added under the next handle, with the child path, the context's workspace, a fresh identifier, the context, and index = number of siblings + 1 |
| Legacy.CreateNode | Classes/Domain/Model/Node.php:465-479 | the result, store and identifier counter are Creation's for this node's path and its context's workspace |
| Legacy.AddChild | Classes/Domain/Model/Node.php:466-478 | the same Creation outcome, once the parent path and workspace are known |
| Legacy.LegacyLookupSpec | Classes/Domain/Model/Node.php:488-495 | a name finds the child, "." the node itself, an absolute path that path; "//" fails |
| Legacy.GetNodeFrom | Classes/Domain/Model/Node.php:488-495 | the lookup result, and only the node found gets the context |
| Legacy.LegacyChildren | Classes/Domain/Model/Node.php:522-525 | exactly the children of q in the workspace, each once |
| Legacy.ReachesUnder | Classes/Domain/Model/Node.php:522-525 | among well-formed nodes, a path the child queries lead up to q is q or lies below q |
| Legacy.DescendsUnder | Classes/Domain/Model/Node.php:522-525 | a node reached from q lies below q |
| Legacy.DescendsSplit | Classes/Domain/Model/Node.php:522-525 | a node reached from q is a child of q or is reached from one child of q |
| Legacy.DescendsTrans | Classes/Domain/Model/Node.php:522-525 | a node reached from one reached from q is reached from q |
| Legacy.RemoveTree | Classes/Domain/Model/Node.php:533-543 | every node that the recursive getChildNodes calls reach from the node's path in its workspace, at any depth, is deleted when the workspace has no base and otherwise flagged removed; so is the node; no other node changes |
| Legacy.RemoveChild | Classes/Domain/Model/Node.php:534-536 | one round of the loop: every node reached from the child, at any depth, is deleted or flagged, and a changed node is a child already removed or reached from one |
| Legacy.RemoveChildren | Classes/Domain/Model/Node.php:534-536 | the loop over the children: each child's sub-tree, at any depth, is deleted or flagged, and only those nodes change |
| Legacy.FinishDeepRemoval | Classes/Domain/Model/Node.php:533-543 | once every child's sub-tree is removed, removing the node itself completes the removal of the whole sub-tree |
| Legacy.RemoveSelf | Classes/Domain/Model/Node.php:537-542 | once the children's sub-trees are gone, the node itself is deleted or flagged, and the whole sub-tree is removed |
| Legacy.Remove | Classes/Domain/Model/Node.php:533-543 | remove: the whole sub-tree reached from the node is deleted or flagged and nothing else changes; in a workspace with a base the node stays flagged removed |
| Legacy.RemovedNotFound | Classes/Domain/Model/Node.php:538-539 | a node removed from live is found by no later query |
| Legacy.FindWorkspace | Classes/Domain/Service/Context.php:125 | a found workspace is known and has the name, and none is found iff no known workspace has it |
| Legacy.FindWorkspaceAppend | Classes/Domain/Service/Context.php:133 | adding a workspace does not hide one found before |
| Legacy.LegacyWorkspaceRepository.constructor | Classes/Domain/Service/Context.php:125 | an empty repository |
| Legacy.LegacyWorkspaceRepository.FindOneByName | Classes/Domain/Service/Context.php:125 | the loop returns FindWorkspace |
| Legacy.LegacyWorkspaceRepository.Add | Classes/Domain/Service/Context.php:133 | the workspace is appended |
| Legacy.HandedOutSound | Classes/Domain/Model/Node.php:624-630 | handing nodes out keeps them well formed |
| Legacy.HandOut | Classes/Domain/Model/Node.php:624-630 | every listed node gets the context |
| Legacy.ContextLookupValid | Classes/Domain/Service/Context.php:207-212 | with a root node present, a valid absolute path finds the node at that path |
| Legacy.LegacyContext.constructor | Classes/Domain/Service/Context.php:84-87 | the name, the time, no workspace yet, and both flags FALSE |
| Legacy.LegacyContext.GetWorkspace | Classes/Domain/Service/Context.php:123-140 | memoised; a found workspace gets this context; a missing one is NULL without creation, and otherwise live is added if needed and any other name is a new, unregistered workspace based on live that gets this context |
| Legacy.LegacyContext.GetNode | Classes/Domain/Service/Context.php:207-212 | a path not starting with "/" fails and changes nothing; otherwise the lookup is ContextLookup in the memoised workspace, which has the context's name. The workspace is the memoised one with the repository unchanged, the one found by name, or a created one, with live registered when missing; a workspace resolved now gets this context, and no other known workspace's context changes. The current node, the time and the flags are kept |
| Legacy.LegacyContext.LookupFromRoot | Classes/Domain/Service/Context.php:211 | once the workspace is memoised, "/" gives its root node and another path the root's getNode of the rest, each found node handed this context, as ContextLookup says |
| Legacy.LegacyContext.GetNodesOnPath | Classes/Domain/Service/Context.php:223-232 | exactly the nodes on the way between the two points, each handed this context |
| Legacy.LegacyContext.SetCurrentNode | Classes/Domain/Service/Context.php:159-161 | only the current node changes |
| Legacy.LegacyContext.SetCurrentDateTime | Classes/Domain/Service/Context.php:196-198 | only the current time changes |
| Legacy.LegacyContext.ShowHidden | Classes/Domain/Service/Context.php:249-259 | the flag takes the argument and its getter returns it |
| Legacy.LegacyContext.ShowRemoved | Classes/Domain/Service/Context.php:266-276 | the flag takes the argument and its getter returns it |
| Legacy.LegacyContext.ToString | Classes/Domain/Service/Context.php:240-242 | the workspace name followed by the current node's path |
| ContentTypes.LoadSuperTypes | Classes/Domain/Service/ContentTypeManager.php:156-161 | a loaded type has its name and, in declaration order, its loaded super types |
| ContentTypes.LoadFails | Classes/Domain/Service/ContentTypeManager.php:148-158 | loading fails iff the name is not configured or one of its super types fails |
| ContentTypes.LoadConfiguration | Classes/Domain/Service/ContentTypeManager.php:154-166 | own keys win; "superTypes" is present iff the type declares it; any other key comes from the last super type that has it |
| ContentTypes.LoadIsOfSupers | Classes/Domain/Service/ContentTypeManager.php:156-166 | a loaded type is of its own type and of each declared super type |
| ContentTypes.LoadIsOfType | Classes/Domain/Service/ContentTypeManager.php:64 | a type is of type s iff it is s or one of its super types is of type s |
| ContentTypes.LoadAllSpec | Classes/Domain/Service/ContentTypeManager.php:131-135 | loading all passes iff every configured type loads, and otherwise fails with the first error |
| ContentTypes.CreateContentType | Classes/Domain/Service/ContentTypeManager.php:104-106 | always fails with the creation-not-supported error for the name |
| ContentTypes.ContentTypeManager.constructor | Classes/Domain/Service/ContentTypeManager.php:36-48 | the settings and an empty cache |
| ContentTypes.ContentTypeManager.CachedDeclared | Classes/Domain/Service/ContentTypeManager.php:168 | only configured types are cached |
| ContentTypes.ContentTypeManager.LoadContentType | Classes/Domain/Service/ContentTypeManager.php:143-170 | the result is Load's; a cached type is returned with the cache unchanged; the cache only grows and, on success, holds the type |
| ContentTypes.ContentTypeManager.LoadContentTypes | Classes/Domain/Service/ContentTypeManager.php:131-135 | the result is LoadAll's; on success every configured type is cached |
| ContentTypes.ContentTypeManager.LoadNext | Classes/Domain/Service/ContentTypeManager.php:132-134 | one round of the loop |
| ContentTypes.ContentTypeManager.Prepare | Classes/Domain/Service/ContentTypeManager.php:58-60 | a filled cache is kept; an empty one is loaded, after which the cache holds exactly the configured types |
| ContentTypes.ContentTypeManager.GetContentType | Classes/Domain/Service/ContentTypeManager.php:77-82 | after loading, the type iff it is configured (NULL otherwise), equal to Load's |
| ContentTypes.ContentTypeManager.HasContentType | Classes/Domain/Service/ContentTypeManager.php:91-96 | after loading, true iff the name is cached, which is iff it is configured |
| ContentTypes.ContentTypeManager.GetSubContentTypes | Classes/Domain/Service/ContentTypeManager.php:57-69 | exactly the cached types of the super type, without the super type itself |
| ContentTypes.ContentTypeManager.GetFullConfiguration | Classes/Domain/Service/ContentTypeManager.php:114-123 | every cached type's merged configuration |
| ContentTypes.SubTypes | Classes/Domain/Service/ContentTypeManager.php:62-68 | the filter loop keeps exactly the types of the super type other than itself |
| ContentTypes.Configurations | Classes/Domain/Service/ContentTypeManager.php:118-121 | the loop collects every cached type's configuration |

## Left out

- Persistence is not modelled: Doctrine, the optimistic-lock version, the path hash, `persistenceManager` and the path-changed signal. The signal and the update call are no-ops, because only the store contents are modelled.
- JSON and md5 hashing of the dimensions are not modelled; the model compares the canonical dimension values directly.
- `strip_tags`, `securityContext->hasRole`, UUID generation and `new \DateTime()` are parameters, or the `IdentifierSource` counter, because the source calls code not shown here.
- Strings are character sequences. `substr` and `strlen` count characters, not bytes, and sorting is plain lexicographic order on characters: PHP's comparison of numeric strings is not modelled.
- The node name is valid when it matches `[A-Za-z0-9-]+`. `NodeInterface::MATCH_PATTERN_NAME` is not part of this model, so the model uses the path pattern's name part there.
- NodeDataOps.SetPath: a recursive move requires the old and new sub-trees to be disjoint. This excludes moving to "/", moving a node below itself and moving it to one of its ancestors (such as "/a/b" to "/a"); MoveTree, MoveChildren and MoveChild carry the same requirement. The PHP cascade accepts these moves, but it does not then rebase each record once. Moving to "/" builds "//name" paths. Moving "/a/b" to "/a" first takes "/a/b/b/c/x" to "/a/b/c/x", which is below the child "/a/b/c" that is still to be moved, so that child's turn moves it again, to "/a/c/x" (Paths.AncestorMoveRevisits). An ancestor move can also give two records the same path.
- NodeDataOps.MoveTree: the same disjointness requirement as NodeDataOps.SetPath.
- NodeDataOps.MoveChildren: the same disjointness requirement as NodeDataOps.SetPath.
- NodeDataOps.MoveChild: the same disjointness requirement as NodeDataOps.SetPath.
- Paths.NormalizePath: a path that climbs above the root is resolved by the intended stack semantics. The `each`/`prev` loop at NodeData.php:677-687 stops early on such paths, and that early stop is not modelled.
- Legacy.GetPropertyNames: the result is a set, so the insertion order of `array_keys` (Node.php:391-397) is not kept.
- NodeDataOps.CreateSingleNode: `setNewIndex(POSITION_LAST)` is modelled by its observable result only, an index above every sibling's. The repository code that renumbers indexes is not part of this model.
- NodeDataOps.CreateNodeFromTemplate: the template is a value holding a name, a node type, an identifier and content, because `NodeTemplate.php` is not part of this model. Its node type is its `nodeType` field; the type name inside its content is not read. With a node type, the contract states the failure cases, the chosen free path and the copied content, but not the records auto-created for the type; CreateTypedNode states those.
- WorkspacePublishing.Publish: a source record that is itself the target twin of an earlier one has already been deleted, so its turn is skipped.
- `getRootNode` and `findOnPath` are not part of this model, so:
  - the root is the first "/" record of the workspace, and a missing one is the error `NoRootNode`;
  - `findOnPath` is the `OnPath` query over the path interval.
- A NULL memoised workspace in `getNodesOnPath` matches nothing.
- NodeMigrations.NodeMigration.Migrate: only content changes are modelled, because transformations are opaque. Renames and moves by a transformation are not modelled.
- NodeMigrations.NodeMigration.Migrate uses the direction only to pass it on, because the source does the same.
- An absent "/" record is the error `MissingRootNode`, where the source would call `walkNodes` on NULL.
- Filters and transformations are total functions.
- The content type manager merges configurations shallowly: `arrayMergeRecursiveOverrule` on nested arrays becomes a key override. `superTypes` is a scalar list.
- Super-type declarations must be acyclic, through a ghost rank. PHP would recurse forever on a cycle.
- NodeDataOps.CreateTypedNode: a node type is an inductive datatype, so a node type whose auto-created children include, at any depth, a child of that same type cannot be expressed. On such a type PHP's createNode (NodeData.php:405-408) recurses forever.
- Contexts.Context.ToString: requires a current node. PHP calls `getPath()` on NULL there (TYPO3/TYPO3CR/Domain/Service/Context.php:283), which is a fatal error rather than a result.
- Legacy.LegacyContext.ToString: requires a current node, for the same reason as Contexts.Context.ToString (Domain/Service/Context.php:241).
- Legacy.WithLegacyPathSpec: the path pattern at Node.php:34 has no `D` modifier, so PHP's `$` also matches before a final newline and `setPath("/a\n")` passes the check at Node.php:153. The model's `ValidPath` rejects every path that ends in a newline.
- `ContentType.php` is not part of this model, so `isOfType` is read from the loaded super types.
- The older model requires the context workspace to be resolved before the node operations (getNode, createNode, remove).
- `ProxyNode` is not part of this model: handing a node out sets its `context` field.
- The older `Workspace.php` is not part of this model:
  - the older root node is the first "/" node of the workspace;
  - creating an older workspace adds no root node.
- In the older model, "children" means the nodes whose `ParentPathOf` is the path, as `countByParentAndContentType`/`findByParentAndContentType` do with a NULL type. The content-type filter of `getChildNodes` is left out.
- Legacy.Remove: a child receives its context as part of its final update, not in a separate step.
- The content object is a value, so aliasing between nodes that share one object is not modelled.
- Legacy.MoveBeforeSpec states the guards only, because the move itself is not implemented in the source.
- The older `getWorkspace` does not register a new non-live workspace in the repository, as in the source.
- Legacy.CreateNode checks only the child path against the path pattern, as the source does. A name containing "/" that still forms a valid path is accepted.
- `getPrimaryChildNode`, `getParent`, `getAbstract`, `getNumberOfChildNodes` and the plain getters are left out: they are one-line reads of fields or queries already modelled.
- Context.php's getters (`isInvisibleContentShown` and the others) are the fields themselves.

## Findings

| source | as written | input that shows it | evidently intended | confidence | as-written member | corrected member |
|---|---|---|---|---|---|---|
| Classes/TYPO3/TYPO3CR/Domain/Model/NodeData.php:247-250 | setPath resets the cached depth only for "/", and getDepth (NodeData.php:298-300) recomputes only when the cache is NULL | a record at "/a/b" whose depth was read (2) is moved to "/c": getDepth still returns 2 | the cache is reset on every path change, so getDepth returns 1 | not executed | NodeDataModel.StaleDepthAsWritten | NodeDataModel.WithPathWellFormed |
