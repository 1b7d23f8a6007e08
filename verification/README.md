# Layout tree engine — a Dafny model

This project models the layout tree engine of a dashboard whose panes can be
split, dropped and dragged around: the pure functions of
`src/lib/layoutUtils.ts` over the `LayoutNode` tree of `src/lib/types.ts`.

A layout is a tree. Groups (`type` `horizontal` or `vertical`) hold ordered
`panes`. Leaves carry an opaque content type (`leaf`, `graph`, `map`, …).
Every node may carry a `defaultSize` and a `minSize` percentage, and an `id`.
The engine:

- finds nodes by id (`findNode`, `findParent`, `isDescendant`);
- drops a new pane or a moved subtree next to or onto a target (`insertPane`,
  `insertNodeInternal`);
- removes a node and collapses what it leaves behind (`removePane`);
- moves a subtree (`movePane`);
- gives ids to nodes that lack them (`ensureIds`).

Modules, one per concern:

| file | module | contents |
|---|---|---|
| `options.dfy` | `Options` | `Option<T>` |
| `layout_types.dfy` | `LayoutTypes` | `LayoutNode`, `Axis`, `DropPosition`, `DragItem`, `DropTarget`, the tree invariant `Valid`, `WithSize` (the `{ ...n, defaultSize: s }` spread) |
| `layout_trees.dfy` | `LayoutTrees` | paths into a tree (`At`, `ReplaceAt`), the id multiset `Ids`, `UniqueIds`, size measure, pre-order listing |
| `layout_lookup.dfy` | `LayoutLookup` | `FindPath`, `FindNode`, `FindParent`, `IsDescendant` and their specifications |
| `ensure_ids.dfy` | `IdAssignment` | `EnsureIds` |
| `layout_insert.dfy` | `LayoutInsert` | `InsertNode` (`insertNodeInternal`), `InsertPane` |
| `layout_remove.dfy` | `LayoutRemove` | `RemovePane` |
| `layout_move.dfy` | `LayoutMove` | `MovePane` |
| `layout_round_trip.dfy` | `LayoutRoundTrip` | inserting a pane and removing it again |
| `layout_scenarios.dfy` | `LayoutScenarios` | two concrete layouts worked through |

## How the source's behaviour is represented

- **Immutable trees.** The source clones the tree with `structuredClone` and
  then mutates the clone through a parent reference. Here every operation is
  a pure function. "Mutate the child at index `i` of the parent found by
  `findParent`" becomes `ReplaceAt(root, path, node)`. The path is
  `FindPath`: the location of the first pre-order match, which is the node
  `findNode` returns (`FindNodeAt`). `findParent` reports exactly that
  node's parent and index (`FindParentAtPath`).
- **Optional ids.** Ids are `Option<string>`. The source searches with ids
  read from nodes (`parent.id!`, `pane.id!`), which are `undefined` for nodes
  without one, and `undefined === undefined` holds in JavaScript. So
  `FindNode`, `FindPath`, `FindParent` and `RemovePane` take an optional key.
- **Leaf or group.** `Leaf` and `Group` record whether a node has a `panes`
  property, which is what the source branches on. `Valid` ties this to the
  `type` string. It also requires groups to hold at least two panes and
  sizes to be percentages.
- **Generated values become parameters.** `generateId` is replaced as
  follows:
  - `paneId` is the id of a new leaf;
  - `groupId` is the id of a group a drop creates;
  - `gen: Path -> string` names the id `ensureIds` generates for the node at
    each path of its input.

  `Math.random` choosing the axis of a centre drop is the parameter
  `centerAxis`.
- **Sizes are reals.** `Share(n)` is the `100 / n` a resized parent gives
  each pane (`ShareValue`).
- **Ids are counted as a multiset.** `Ids(n)` is the multiset of the tree's
  ids. `UniqueIds` says no node lacks an id and no id occurs twice.

## Behaviour of the code worth noting

- **Remove does not resize.** `removePane` leaves the remaining panes'
  `defaultSize` as it was. Removing the middle of three 33.3% columns leaves
  two at 33.3% (`LayoutScenarios.RemoveMiddleColumn`).
- **A moved node's size changes.** The move re-inserts through the same drop
  logic as a new pane. That logic overwrites the moved node's own
  `defaultSize`: 50 when wrapped, `100 / count` when it joins a parent. Only
  the rest of the subtree is preserved (`LayoutMove.MoveKeepsSubtree`).
- **When the fallback fires.** The move's fallback (pair the moved node with
  the whole remaining tree) fires whenever the target cannot be found after
  removal, including a target id that was never in the tree.
- **Moving the root.** `removePane` never removes the root, and `movePane`
  does not refuse a root source. So moving the root onto an unknown id gives
  a group holding the root twice, with every id duplicated
  (`LayoutMove.MoveRootDuplicates`). The uniqueness lemma for moves
  therefore requires that the source is not the root.
- **The sibling resize counts the new pane.** A node joining a parent gets
  `100 / count` like its siblings; a new leaf is created with 50, which the
  resize then overwrites.

## Model

| member | source | states |
|---|---|---|
| LayoutTypes.WithSize | src/lib/layoutUtils.ts:124-125 | the spread `{ ...n, defaultSize: s }` sets `defaultSize` to `s` and leaves every other field of the node as it was |
| LayoutTypes.ValidWithSize | src/lib/types.ts:10-11 | overwriting a valid node's size with a percentage keeps it valid |
| LayoutLookup.FindPath | src/lib/layoutUtils.ts:43-54 | a path is found exactly when the id occurs in the tree, and it leads to a node carrying that id |
| LayoutLookup.FindNode | src/lib/layoutUtils.ts:43-54 | a node is found exactly when the id occurs in the tree; it carries the id and is part of the tree; a matching root is returned itself |
| LayoutLookup.FindNodeAt | src/lib/layoutUtils.ts:43-54 | findNode returns the node at the location of the first pre-order match, and nothing when there is none |
| LayoutLookup.FindNodeIsFirstInPreorder | src/lib/layoutUtils.ts:43-54 | findNode's answer equals an independent reference: the first node with that id in the tree's pre-order listing |
| LayoutLookup.FirstWithId | src/lib/layoutUtils.ts:43-54 | the reference search: nothing exactly when no node of the listing has the id, otherwise a node with the id and none before it |
| LayoutLookup.IndexOf | src/lib/layoutUtils.ts:73 | `findIndex` by id: -1 exactly when no pane has the id, otherwise the first index holding it |
| LayoutLookup.FindParentAtPath | src/lib/layoutUtils.ts:66-85 | findParent answers nothing for an absent id, (none, -1) for the root's id, and otherwise the parent of the located node with the node's index in it |
| LayoutLookup.FindParentSpec | src/lib/layoutUtils.ts:66-85 | findParent answers nothing exactly when the id is absent; otherwise the answer is a group whose pane at the reported index carries the id, or (none, -1) for the root |
| LayoutLookup.UniqueLocate | src/lib/layoutUtils.ts:43-54 | in a tree with unique ids, searching for a node's id locates that very node |
| LayoutLookup.IsDescendantSpec | src/lib/layoutUtils.ts:273-288 | isDescendant holds exactly when the first id names a node and the second id occurs in that node's subtree, the node included |
| IdAssignment.EnsureIdsAt | src/lib/layoutUtils.ts:23-32 | the result has the input's types, sizes and child order; a node keeps an id it has and otherwise gets the generated one; with non-empty generated ids every node ends up with an id |
| IdAssignment.EnsureIds | src/lib/layoutUtils.ts:23-32 | the whole tree keeps its types, sizes and child order, and every node has an id afterwards |
| IdAssignment.EnsureIdsKeepsNodes | src/lib/layoutUtils.ts:23-32 | at every path of the input, the output has the same node apart from its id, which is kept when present and generated for that path otherwise |
| IdAssignment.EnsureIdsUnique | src/lib/layoutUtils.ts:16-32 | when the tree's own ids are pairwise different and the generated ids are pairwise different and fresh, every node of the result has an id and no id occurs twice |
| IdAssignment.EnsureIdsOnIdentified | src/lib/layoutUtils.ts:25-29 | a tree whose nodes all have ids is returned unchanged |
| IdAssignment.EnsureIdsIdempotent | src/lib/layoutUtils.ts:23-32 | a second pass changes nothing, whatever ids it would generate |
| LayoutInsert.ShareValue | src/lib/layoutUtils.ts:155-158 | the size each of `n` resized panes gets is exactly `100 / n` |
| LayoutInsert.JoinedPanes | src/lib/layoutUtils.ts:151-158 | the joined parent keeps its own fields and has one pane more; the new node sits at the insert index; the old panes keep their order around it; every pane has `100 / count` |
| LayoutInsert.InsertNode | src/lib/layoutUtils.ts:100-104 | a drop on an id absent from the tree leaves the tree as it was |
| LayoutInsert.InsertJoinsParent | src/lib/layoutUtils.ts:144-158 | an edge drop whose target's parent has the required axis replaces that parent by the joined parent, inserting before the target for top/left and after it otherwise, and changes nothing else |
| LayoutInsert.InsertWraps | src/lib/layoutUtils.ts:117-192 | a centre drop, a drop on the root, or a drop below a parent on the other axis puts a new two-pane group in the target's place: on the required axis (the chosen one for a centre drop), target and node at 50% each, the node first only for top/left |
| LayoutInsert.InsertIds | src/lib/layoutUtils.ts:94-195 | a drop on a present target adds exactly the dropped node's ids, plus the new group's id unless the node joins the parent |
| LayoutInsert.InsertKeepsUnique | src/lib/layoutUtils.ts:94-195 | with fresh dropped ids and group id, the result has unique ids |
| LayoutInsert.InsertKeepsValid | src/lib/layoutUtils.ts:94-195 | a drop of a valid node keeps a valid tree valid: no single-pane group, sizes stay percentages |
| LayoutInsert.PlacedAtHolds | src/lib/layoutUtils.ts:117-192 | the dropped node sits at the path the drop's case determines, unchanged except for a percentage `defaultSize` |
| LayoutInsert.InsertPlacesNode | src/lib/layoutUtils.ts:94-195 | with fresh ids, findNode on the result finds the dropped node, unchanged except for a percentage `defaultSize` |
| LayoutInsert.InsertPaneAddsLeaf | src/lib/layoutUtils.ts:107-115 | insertPane adds one leaf of the requested type with the generated id, `minSize` 20 and a percentage size; the ids are the old ones plus the new pane's (and the group's when one is created), all unique |
| LayoutRemove.Without | src/lib/layoutUtils.ts:239 | `splice(index, 1)`: one pane fewer, the others in order |
| LayoutRemove.RemovePane | src/lib/layoutUtils.ts:226-233 | removing the root's id or an absent id leaves the tree as it was |
| LayoutRemove.IdsSpliceOut | src/lib/layoutUtils.ts:238-239 | splicing a child out of its parent loses exactly that child's ids |
| LayoutRemove.RemoveSpec | src/lib/layoutUtils.ts:238-252 | with unique ids, a node whose parent has three or more panes is spliced out, the rest keeping order and sizes; a parent of two is replaced by the other pane in its own slot, which becomes the root when the parent was the root |
| LayoutRemove.RemoveIds | src/lib/layoutUtils.ts:226-260 | removal only loses ids: the removed subtree's ids all disappear, the removed id among them |
| LayoutRemove.RemoveKeepsValid | src/lib/layoutUtils.ts:238-256 | removal keeps a valid tree with unique ids valid and unique: no group is left with a single pane |
| LayoutMove.MovePane | src/lib/layoutUtils.ts:308-322 | a move onto itself or of a missing node returns the tree as it was |
| LayoutMove.MoveRefusals | src/lib/layoutUtils.ts:302-349 | the move is refused exactly when source and target coincide, the target lies in the source's subtree, or the source is missing; otherwise the source is removed and re-inserted at the target, or beside the whole remaining tree when the target is gone |
| LayoutMove.MoveReinserts | src/lib/layoutUtils.ts:324-348 | a move that is not refused is the re-insert of the source's subtree into the tree without it |
| LayoutMove.IdsFallback | src/lib/layoutUtils.ts:336-343 | the fallback root holds the new group's id, the remaining tree's ids and the moved subtree's ids |
| LayoutMove.ReinsertIds | src/lib/layoutUtils.ts:332-348 | re-inserting adds the moved subtree's ids and, unless it joins the target's parent, the new group's id |
| LayoutMove.MoveIds | src/lib/layoutUtils.ts:302-349 | after a move, the ids are those of the tree without the source, those of the moved subtree, and the new group's unless the source joins the target's parent |
| LayoutMove.MoveKeepsUnique | src/lib/layoutUtils.ts:302-349 | moving a non-root node keeps ids unique and adds no id but the new group's |
| LayoutMove.MoveKeepsSubtree | src/lib/layoutUtils.ts:324-348 | after a move, findNode on the source id finds the moved subtree, every descendant unchanged and its own `defaultSize` the only field that may differ; when the root is moved, it finds the first of the root's two copies |
| LayoutMove.MoveKeepsValid | src/lib/layoutUtils.ts:302-349 | a move keeps a valid tree with unique ids valid |
| LayoutMove.MoveRootDuplicates | src/lib/layoutUtils.ts:327-345 | moving the root onto an unknown id yields a new group holding the root twice, so ids are no longer unique |
| LayoutRoundTrip.RemovePaneAt | src/lib/layoutUtils.ts:238-252 | removing a pane of a group of three or more splices it out; removing one of two puts the other in the group's place |
| LayoutRoundTrip.UndoJoined | src/lib/layoutUtils.ts:238-240 | removing a node that joined a group gives the group back with its old panes in order, all at the joined size |
| LayoutRoundTrip.UndoWrapped | src/lib/layoutUtils.ts:242-252 | removing a node that was wrapped with a target puts the target back in its slot at 50% |
| LayoutRoundTrip.InsertRemoveJoined | src/lib/layoutUtils.ts:144-260 | undoing a joining drop gives the parent back with its old panes, each at `100 / (count + 1)`, and the tree's shape back |
| LayoutRoundTrip.InsertRemoveWrapped | src/lib/layoutUtils.ts:117-252 | undoing a wrapping drop gives the target back in its slot at 50%, and the tree's shape back |
| LayoutRoundTrip.InsertRemoveRoundTrip | src/lib/layoutUtils.ts:207-260 | inserting a new pane with fresh ids into a valid tree and removing it again gives back every node, id, minimum size and child order; only `defaultSize`s may differ |
| LayoutScenarios.DropRightOfLeaf | src/lib/layoutUtils.ts:159-175 | a right drop on a leaf of a vertical group wraps the leaf and the new pane in a horizontal group at 50% each, in the leaf's slot |
| LayoutScenarios.RemoveMiddleColumn | src/lib/layoutUtils.ts:238-259 | removing the middle of three 33.3% columns leaves the outer two in order, still at 33.3% |

## Left out

- Floating point: sizes are exact reals. The IEEE rounding of `100 / numPanes` is not modelled.
- `structuredClone` and object aliasing: trees are immutable values, so the clone-then-mutate discipline is implicit.
- `generateId`'s clock and random digits, and `Math.random` for the centre axis: these become the parameters `paneId`, `groupId`, `gen` and `centerAxis`. Whether generated ids really are fresh and pairwise different is a precondition of the uniqueness lemmas (`InsertKeepsUnique`, `EnsureIdsUnique`), not something the model can establish.
- `movePane`'s `!withoutSource` branch: `removePane` always returns a tree, so this branch cannot be taken and has no counterpart.
- `DragItem` and `DropTarget` are plain records. The engine defines no operation on them; the store that holds the drag in progress (`src/lib/stores/dragStore.ts`) and the UI and remote-storage code (`main.js`, `github.js`) are not part of this model.
- `minSize` is only carried and stamped (20 on new leaves). Nothing in the engine enforces it, so there is nothing further to model.
- LayoutInsert.InsertKeepsValid: requires the dropped node to be valid. A new pane whose type is `horizontal` or `vertical` becomes a leaf without panes; `insertPane` inserts it all the same, and the tree invariant then fails.
- LayoutMove.MoveKeepsUnique: requires the source not to be the root, because moving the root onto an unknown id duplicates every id (see `MoveRootDuplicates`).
- LayoutRoundTrip.InsertRemoveRoundTrip: states equality of shape (everything but `defaultSize`), not of the tree. Removal does not restore the sizes a drop overwrote, so the stronger statement is false. `InsertRemoveJoined` and `InsertRemoveWrapped` state the exact trees that come back.
- `Share` reaches `100 / n` through a countdown (`ShareAt`). This is a proof device, not behaviour; `ShareValue` pins its value.
