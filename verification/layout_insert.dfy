/**
 * `insertPane` / `insertNodeInternal`: drop a new leaf, or an existing subtree
 * being moved, next to or onto a target node.
 *
 * The generated ids become parameters (`paneId` for a new leaf, `groupId` for
 * a group the drop creates) and the random axis of a centre drop becomes
 * `centerAxis`.
 */
module LayoutInsert {
  import opened Options
  import opened LayoutTypes
  import opened LayoutTrees
  import opened LayoutLookup

  /** What is dropped: a new pane of some type, or an existing node. */
  datatype Payload = NewPane(kind: string, paneId: string) | Existing(node: LayoutNode)

  /** A new pane is a leaf `{ type, id, defaultSize: 50, minSize: 20 }` without panes. */
  function NodeToInsert(payload: Payload): LayoutNode {
    match payload
    case NewPane(k, id) => Leaf(k, Some(50.0), Some(20.0), Some(id))
    case Existing(m) => m
  }

  /** A new two-pane group holding the target and the dropped node, each at 50%. */
  function Wrap(axis: Axis, before: bool, target: LayoutNode, node: LayoutNode, groupId: string): LayoutNode {
    Group(axis.Kind(),
          if before then [WithSize(node, 50.0), WithSize(target, 50.0)]
          else [WithSize(target, 50.0), WithSize(node, 50.0)],
          None, None, Some(groupId))
  }

  function Spliced(cs: seq<LayoutNode>, at: nat, x: LayoutNode): seq<LayoutNode>
    requires at <= |cs|
  {
    cs[..at] + [x] + cs[at..]
  }

  /** The size each of `n` panes gets when a parent's panes are resized:
      `100 / n` (`ShareValue`). The quotient is reached through a countdown
      in `ShareAt`, so a proof that only moves shares around does not unfold
      the division. */
  function Share(n: nat): (s: real)
    requires n >= 1
    ensures 0.0 < s <= 100.0
  {
    ShareAt(n, n)
  }

  function ShareAt(n: nat, k: nat): (s: real)
    requires n >= 1
    decreases k
    ensures 0.0 < s <= 100.0
  {
    if k == 0 then
      var s := 100.0 / (n as real);
      assert s * (n as real) == 100.0;
      s
    else
      ShareAt(n, k - 1)
  }

  /** Every pane of `cs`, in order, with `defaultSize` set to `s`. */
  function Resized(cs: seq<LayoutNode>, s: real): (r: seq<LayoutNode>)
    ensures |r| == |cs|
    ensures forall j :: 0 <= j < |cs| ==> r[j] == WithSize(cs[j], s)
  {
    seq(|cs|, j requires 0 <= j < |cs| => WithSize(cs[j], s))
  }

  /** The parent after the dropped node joins it at index `at`: every pane,
      the new one included, gets `defaultSize = 100 / count`. */
  function Joined(g: LayoutNode, at: nat, node: LayoutNode): LayoutNode
    requires g.Group? && at <= |g.panes|
  {
    var cs := Spliced(g.panes, at, node);
    g.(panes := Resized(cs, Share(|cs|)))
  }

  /** The target's parent already splits along the axis an edge drop needs, so
      the dropped node joins that parent's panes. */
  predicate JoinsParent(root: LayoutNode, targetId: string, position: DropPosition) {
    && !position.Center?
    && match FindParent(root, Some(targetId))
       case Some(ParentInfo(Some(g), _)) => g.kind == position.RequiredAxis().Kind()
       case _ => false
  }

  function InsertNode(root: LayoutNode, targetId: string, payload: Payload, position: DropPosition,
                      centerAxis: Axis, groupId: string): (r: LayoutNode)
    ensures Some(targetId) !in Ids(root) ==> r == root
  {
    match FindPath(root, Some(targetId))
    case None => root
    case Some(p) =>
      var target := At(root, p);
      var node := NodeToInsert(payload);
      if position.Center? then
        // at the root (p == []) the group itself becomes the result
        ReplaceAt(root, p, Wrap(centerAxis, false, target, node, groupId))
      else if p == [] then
        Wrap(position.RequiredAxis(), position.IsBefore(), target, node, groupId)
      else
        AtParent(root, p);
        var parent := At(root, Init(p));
        if parent.kind == position.RequiredAxis().Kind() then
          var at := if position.IsBefore() then Last(p) else Last(p) + 1;
          ReplaceAt(root, Init(p), Joined(parent, at, node))
        else
          ReplaceAt(root, p, Wrap(position.RequiredAxis(), position.IsBefore(), target, node, groupId))
  }

  function InsertPane(root: LayoutNode, targetId: string, newPaneType: string, position: DropPosition,
                      centerAxis: Axis, paneId: string, groupId: string): LayoutNode
  {
    InsertNode(root, targetId, NewPane(newPaneType, paneId), position, centerAxis, groupId)
  }

  // ---------------------------------------------------------------------------
  // Lemmas
  // ---------------------------------------------------------------------------

  /** `n` shares make up the whole: each is exactly `100 / n`. */
  lemma ShareValue(n: nat)
    requires n >= 1
    ensures Share(n) * (n as real) == 100.0
  {
    ShareAtValue(n, n);
  }

  lemma {:induction false} ShareAtValue(n: nat, k: nat)
    requires n >= 1
    decreases k
    ensures ShareAt(n, k) * (n as real) == 100.0
  {
    if k > 0 {
      ShareAtValue(n, k - 1);
    }
  }

  /** The joined parent keeps its own fields; the node sits at `at`, the old
      panes keep their order around it, and every pane gets 100/count. */
  lemma JoinedPanes(g: LayoutNode, at: nat, node: LayoutNode)
    requires g.Group? && at <= |g.panes|
    ensures
      var j := Joined(g, at, node);
      var n := |g.panes| + 1;
      && j.Group? && j.kind == g.kind && j.id == g.id
      && j.defaultSize == g.defaultSize && j.minSize == g.minSize
      && |j.panes| == n
      && j.panes[at] == WithSize(node, Share(n))
      && (forall k :: 0 <= k < at ==> j.panes[k] == WithSize(g.panes[k], Share(n)))
      && (forall k :: at < k < n ==> j.panes[k] == WithSize(g.panes[k - 1], Share(n)))
  {
  }

  /** An edge drop whose target's parent has the required axis replaces that
      parent by the joined parent and changes nothing else. */
  lemma InsertJoinsParent(root: LayoutNode, targetId: string, payload: Payload, position: DropPosition,
                          centerAxis: Axis, groupId: string, pp: Path, i: nat)
    requires ValidPath(root, pp) && At(root, pp).Group? && i < |At(root, pp).panes|
    requires FindPath(root, Some(targetId)) == Some(pp + [i])
    requires JoinsParent(root, targetId, position)
    ensures
      var at := if position.IsBefore() then i else i + 1;
      InsertNode(root, targetId, payload, position, centerAxis, groupId) ==
        ReplaceAt(root, pp, Joined(At(root, pp), at, NodeToInsert(payload)))
  {
    InitLast(pp, i);
    FindParentAtPath(root, Some(targetId));
  }

  /** A centre drop, or an edge drop at the root or below a parent on the other
      axis, puts a new group in the target's place and changes nothing else:
      on the required axis (the chosen axis for a centre drop), holding the
      target and the new node at 50% each, the new node first only for
      top/left. At the root the group is the whole result. */
  lemma InsertWraps(root: LayoutNode, targetId: string, payload: Payload, position: DropPosition,
                    centerAxis: Axis, groupId: string, p: Path)
    requires FindPath(root, Some(targetId)) == Some(p)
    requires !JoinsParent(root, targetId, position)
    ensures
      var axis := if position.Center? then centerAxis else position.RequiredAxis();
      var first := !position.Center? && position.IsBefore();
      InsertNode(root, targetId, payload, position, centerAxis, groupId) ==
        ReplaceAt(root, p, Wrap(axis, first, At(root, p), NodeToInsert(payload), groupId))
  {
    FindParentAtPath(root, Some(targetId));
    if p != [] {
      AtParent(root, p);
    }
  }

  /** The target of a drop on a present target, split into its parent's path
      and its index there when it joins the parent. */
  lemma TargetPath(root: LayoutNode, targetId: string, position: DropPosition) returns (pp: Path, i: nat)
    requires Some(targetId) in Ids(root) && JoinsParent(root, targetId, position)
    ensures FindPath(root, Some(targetId)) == Some(pp + [i])
    ensures ValidPath(root, pp) && At(root, pp).Group? && i < |At(root, pp).panes|
  {
    var p := FindPath(root, Some(targetId)).value;
    FindParentAtPath(root, Some(targetId));
    AtParent(root, p);
    pp, i := Init(p), Last(p);
    assert p == pp + [i];
  }

  lemma IdsOfResized(cs: seq<LayoutNode>, s: real)
    ensures IdsOf(Resized(cs, s)) == IdsOf(cs)
  {
    IdsOfPointwise(Resized(cs, s), cs);
  }

  lemma IdsWrap(axis: Axis, before: bool, target: LayoutNode, node: LayoutNode, groupId: string)
    ensures Ids(Wrap(axis, before, target, node, groupId)) == multiset{Some(groupId)} + Ids(target) + Ids(node)
  {
    IdsOfPair(WithSize(node, 50.0), WithSize(target, 50.0));
    IdsOfPair(WithSize(target, 50.0), WithSize(node, 50.0));
  }

  lemma IdsJoined(g: LayoutNode, at: nat, node: LayoutNode)
    requires g.Group? && at <= |g.panes|
    ensures Ids(Joined(g, at, node)) == Ids(g) + Ids(node)
  {
    var cs := Spliced(g.panes, at, node);
    IdsOfResized(cs, Share(|cs|));
    IdsOfInsert(g.panes, at, node);
    assert Ids(Joined(g, at, node)) == multiset{g.id} + IdsOf(Resized(cs, Share(|cs|)));
  }

  /** Joining a node to the group at `pp` adds exactly the node's ids. */
  lemma IdsJoinedAt(root: LayoutNode, pp: Path, at: nat, node: LayoutNode)
    requires ValidPath(root, pp) && At(root, pp).Group? && at <= |At(root, pp).panes|
    ensures Ids(ReplaceAt(root, pp, Joined(At(root, pp), at, node))) == Ids(root) + Ids(node)
  {
    IdsJoined(At(root, pp), at, node);
    IdsGrownAt(root, pp, Joined(At(root, pp), at, node), Ids(node));
  }

  /** Wrapping the node at `p` with a new node adds the new node's ids and the group's id. */
  lemma IdsWrappedAt(root: LayoutNode, p: Path, axis: Axis, first: bool, node: LayoutNode, groupId: string)
    requires ValidPath(root, p)
    ensures Ids(ReplaceAt(root, p, Wrap(axis, first, At(root, p), node, groupId))) ==
      Ids(root) + Ids(node) + multiset{Some(groupId)}
  {
    var extra := Ids(node) + multiset{Some(groupId)};
    assert Ids(Wrap(axis, first, At(root, p), node, groupId)) == Ids(At(root, p)) + extra by {
      IdsWrap(axis, first, At(root, p), node, groupId);
    }
    IdsGrownAt(root, p, Wrap(axis, first, At(root, p), node, groupId), extra);
  }

  lemma InsertIdsJoin(root: LayoutNode, targetId: string, payload: Payload, position: DropPosition,
                      centerAxis: Axis, groupId: string, pp: Path, i: nat)
    requires ValidPath(root, pp) && At(root, pp).Group? && i < |At(root, pp).panes|
    requires FindPath(root, Some(targetId)) == Some(pp + [i])
    requires JoinsParent(root, targetId, position)
    ensures Ids(InsertNode(root, targetId, payload, position, centerAxis, groupId)) ==
      Ids(root) + Ids(NodeToInsert(payload))
  {
    var at := if position.IsBefore() then i else i + 1;
    IdsJoinedAt(root, pp, at, NodeToInsert(payload));
    InsertJoinsParent(root, targetId, payload, position, centerAxis, groupId, pp, i);
  }

  lemma InsertIdsWrap(root: LayoutNode, targetId: string, payload: Payload, position: DropPosition,
                      centerAxis: Axis, groupId: string, p: Path)
    requires FindPath(root, Some(targetId)) == Some(p)
    requires !JoinsParent(root, targetId, position)
    ensures Ids(InsertNode(root, targetId, payload, position, centerAxis, groupId)) ==
      Ids(root) + Ids(NodeToInsert(payload)) + multiset{Some(groupId)}
  {
    var axis := if position.Center? then centerAxis else position.RequiredAxis();
    var first := !position.Center? && position.IsBefore();
    IdsWrappedAt(root, p, axis, first, NodeToInsert(payload), groupId);
    InsertWraps(root, targetId, payload, position, centerAxis, groupId, p);
  }

  /** A drop on a present target adds exactly the dropped node's ids, plus the
      new group's id when it creates a group; every earlier id stays. */
  lemma InsertIds(root: LayoutNode, targetId: string, payload: Payload, position: DropPosition,
                  centerAxis: Axis, groupId: string)
    requires Some(targetId) in Ids(root)
    ensures Ids(InsertNode(root, targetId, payload, position, centerAxis, groupId)) ==
      Ids(root) + Ids(NodeToInsert(payload)) +
      (if JoinsParent(root, targetId, position) then multiset{} else multiset{Some(groupId)})
  {
    if JoinsParent(root, targetId, position) {
      var pp, i := TargetPath(root, targetId, position);
      InsertIdsJoin(root, targetId, payload, position, centerAxis, groupId, pp, i);
      assert Ids(root) + Ids(NodeToInsert(payload)) + multiset{} == Ids(root) + Ids(NodeToInsert(payload));
    } else {
      InsertIdsWrap(root, targetId, payload, position, centerAxis, groupId, FindPath(root, Some(targetId)).value);
    }
  }

  /** With the dropped node's ids and the group id fresh for the tree, the
      result still has unique ids. */
  lemma InsertKeepsUnique(root: LayoutNode, targetId: string, payload: Payload, position: DropPosition,
                          centerAxis: Axis, groupId: string)
    requires Distinct(Ids(root) + Ids(NodeToInsert(payload)) + multiset{Some(groupId)})
    ensures UniqueIds(InsertNode(root, targetId, payload, position, centerAxis, groupId))
  {
    var all := Ids(root) + Ids(NodeToInsert(payload)) + multiset{Some(groupId)};
    DistinctSub(Ids(root), all);
    if Some(targetId) in Ids(root) {
      InsertIds(root, targetId, payload, position, centerAxis, groupId);
      DistinctSub(Ids(InsertNode(root, targetId, payload, position, centerAxis, groupId)), all);
    }
  }

  lemma ValidWrap(axis: Axis, before: bool, target: LayoutNode, node: LayoutNode, groupId: string)
    requires Valid(target) && Valid(node)
    ensures Valid(Wrap(axis, before, target, node, groupId))
  {
    ValidWithSize(target, 50.0);
    ValidWithSize(node, 50.0);
  }

  /** A valid parent with a valid node joined is valid: it has one pane more,
      and 100/count is a percentage. */
  lemma ValidJoined(g: LayoutNode, at: nat, node: LayoutNode)
    requires Valid(g) && g.Group? && at <= |g.panes| && Valid(node)
    ensures Valid(Joined(g, at, node))
  {
    var cs := Spliced(g.panes, at, node);
    var j := Joined(g, at, node);
    forall k | 0 <= k < |cs|
      ensures Valid(j.panes[k])
    {
      assert Valid(cs[k]);
      ValidWithSize(cs[k], Share(|cs|));
    }
  }

  /** A drop keeps a valid tree valid, provided the dropped node is itself valid
      (for a new pane: its type is not a group axis). */
  lemma InsertKeepsValid(root: LayoutNode, targetId: string, payload: Payload, position: DropPosition,
                         centerAxis: Axis, groupId: string)
    requires Valid(root) && Valid(NodeToInsert(payload))
    ensures Valid(InsertNode(root, targetId, payload, position, centerAxis, groupId))
  {
    var r := InsertNode(root, targetId, payload, position, centerAxis, groupId);
    var node := NodeToInsert(payload);
    if Some(targetId) in Ids(root) {
      if JoinsParent(root, targetId, position) {
        var pp, i := TargetPath(root, targetId, position);
        var g := At(root, pp);
        var at := if position.IsBefore() then i else i + 1;
        assert r == ReplaceAt(root, pp, Joined(g, at, node)) by {
          InsertJoinsParent(root, targetId, payload, position, centerAxis, groupId, pp, i);
        }
        ValidAt(root, pp);
        ValidJoined(g, at, node);
        ValidReplaceAt(root, pp, Joined(g, at, node));
      } else {
        var p := FindPath(root, Some(targetId)).value;
        var axis := if position.Center? then centerAxis else position.RequiredAxis();
        var first := !position.Center? && position.IsBefore();
        var w := Wrap(axis, first, At(root, p), node, groupId);
        assert r == ReplaceAt(root, p, w) by {
          InsertWraps(root, targetId, payload, position, centerAxis, groupId, p);
        }
        ValidAt(root, p);
        ValidWrap(axis, first, At(root, p), node, groupId);
        ValidReplaceAt(root, p, w);
      }
    }
  }

  /** The path at which a drop on a present target puts the dropped node. */
  function PlacedAt(root: LayoutNode, targetId: string, position: DropPosition): (q: Path)
    requires Some(targetId) in Ids(root)
  {
    var p := FindPath(root, Some(targetId)).value;
    if JoinsParent(root, targetId, position) && p != [] then
      Init(p) + [if position.IsBefore() then Last(p) else Last(p) + 1]
    else
      p + [if !position.Center? && position.IsBefore() then 0 else 1]
  }

  /** `node` sits at `q` in `r`, unchanged but for a percentage defaultSize. */
  predicate SitsAt(r: LayoutNode, q: Path, node: LayoutNode) {
    && ValidPath(r, q)
    && At(r, q).(defaultSize := node.defaultSize) == node
    && At(r, q).defaultSize.Some? && 0.0 < At(r, q).defaultSize.value <= 100.0
  }

  lemma SitsAtResized(r: LayoutNode, q: Path, node: LayoutNode, s: real)
    requires ValidPath(r, q) && At(r, q) == WithSize(node, s) && 0.0 < s <= 100.0
    ensures SitsAt(r, q, node)
  {
  }

  /** The node at `pp + [k]` of a tree with `m` put at `pp` is `m`'s pane `k`. */
  lemma AtPlaced(root: LayoutNode, pp: Path, m: LayoutNode, k: nat)
    requires ValidPath(root, pp) && m.Group? && k < |m.panes|
    ensures ValidPath(ReplaceAt(root, pp, m), pp + [k])
    ensures At(ReplaceAt(root, pp, m), pp + [k]) == m.panes[k]
  {
    ValidPathSnoc(ReplaceAt(root, pp, m), pp, k);
  }

  /** In a tree whose group at `pp` is replaced by its joined version, the
      node sits at `pp + [at]` with its size set to the parent's new share. */
  lemma JoinedPlaced(root: LayoutNode, pp: Path, at: nat, node: LayoutNode)
    requires ValidPath(root, pp) && At(root, pp).Group? && at <= |At(root, pp).panes|
    ensures
      var t := ReplaceAt(root, pp, Joined(At(root, pp), at, node));
      && ValidPath(t, pp + [at])
      && At(t, pp + [at]) == WithSize(node, Share(|At(root, pp).panes| + 1))
  {
    JoinedPanes(At(root, pp), at, node);
    AtPlaced(root, pp, Joined(At(root, pp), at, node), at);
  }

  /** In a tree whose node at `p` is wrapped into a new group, the new node
      sits at `p + [0]` when it comes first, else at `p + [1]`, sized 50. */
  lemma WrapPlaced(root: LayoutNode, p: Path, axis: Axis, first: bool, node: LayoutNode, groupId: string)
    requires ValidPath(root, p)
    ensures
      var t := ReplaceAt(root, p, Wrap(axis, first, At(root, p), node, groupId));
      var k := if first then 0 else 1;
      ValidPath(t, p + [k]) && At(t, p + [k]) == WithSize(node, 50.0)
  {
    var w := Wrap(axis, first, At(root, p), node, groupId);
    var k := if first then 0 else 1;
    assert w.panes[k] == WithSize(node, 50.0);
    AtPlaced(root, p, w, k);
  }

  /** The placement of a drop that joins the target's parent. */
  lemma PlacedAtJoin(root: LayoutNode, targetId: string, payload: Payload, position: DropPosition,
                     centerAxis: Axis, groupId: string)
    requires Some(targetId) in Ids(root) && JoinsParent(root, targetId, position)
    ensures SitsAt(InsertNode(root, targetId, payload, position, centerAxis, groupId),
                   PlacedAt(root, targetId, position), NodeToInsert(payload))
  {
    var pp, i := TargetPath(root, targetId, position);
    var at := if position.IsBefore() then i else i + 1;
    JoinPlacedVia(root, targetId, payload, position, centerAxis, groupId, pp, i, at);
    SitsAtResized(InsertNode(root, targetId, payload, position, centerAxis, groupId), pp + [at],
                  NodeToInsert(payload), Share(|At(root, pp).panes| + 1));
    JoinPlacedPath(root, targetId, position, pp, i, at);
  }

  lemma JoinPlacedPath(root: LayoutNode, targetId: string, position: DropPosition, pp: Path, i: nat, at: nat)
    requires Some(targetId) in Ids(root) && JoinsParent(root, targetId, position)
    requires FindPath(root, Some(targetId)) == Some(pp + [i])
    requires at == if position.IsBefore() then i else i + 1
    ensures PlacedAt(root, targetId, position) == pp + [at]
  {
    InitLast(pp, i);
  }

  /** The joined node of a drop sits at slot `at` of the target's parent. */
  lemma JoinPlacedVia(root: LayoutNode, targetId: string, payload: Payload, position: DropPosition,
                      centerAxis: Axis, groupId: string, pp: Path, i: nat, at: nat)
    requires ValidPath(root, pp) && At(root, pp).Group? && i < |At(root, pp).panes|
    requires FindPath(root, Some(targetId)) == Some(pp + [i])
    requires JoinsParent(root, targetId, position)
    requires at == if position.IsBefore() then i else i + 1
    ensures
      var r := InsertNode(root, targetId, payload, position, centerAxis, groupId);
      && ValidPath(r, pp + [at])
      && At(r, pp + [at]) == WithSize(NodeToInsert(payload), Share(|At(root, pp).panes| + 1))
  {
    JoinedPlaced(root, pp, at, NodeToInsert(payload));
    InsertJoinsParent(root, targetId, payload, position, centerAxis, groupId, pp, i);
  }

  /** The placement of a drop that wraps the target in a new group. */
  lemma PlacedAtWrap(root: LayoutNode, targetId: string, payload: Payload, position: DropPosition,
                     centerAxis: Axis, groupId: string)
    requires Some(targetId) in Ids(root) && !JoinsParent(root, targetId, position)
    ensures SitsAt(InsertNode(root, targetId, payload, position, centerAxis, groupId),
                   PlacedAt(root, targetId, position), NodeToInsert(payload))
  {
    var node := NodeToInsert(payload);
    var p := FindPath(root, Some(targetId)).value;
    var axis := if position.Center? then centerAxis else position.RequiredAxis();
    var first := !position.Center? && position.IsBefore();
    var k := if first then 0 else 1;
    var t := ReplaceAt(root, p, Wrap(axis, first, At(root, p), node, groupId));
    WrapPlaced(root, p, axis, first, node, groupId);
    SitsAtResized(t, p + [k], node, 50.0);
    InsertWraps(root, targetId, payload, position, centerAxis, groupId, p);
  }

  /** The dropped node lands at `PlacedAt`, unchanged but for a percentage defaultSize. */
  lemma PlacedAtHolds(root: LayoutNode, targetId: string, payload: Payload, position: DropPosition,
                      centerAxis: Axis, groupId: string)
    requires Some(targetId) in Ids(root)
    ensures SitsAt(InsertNode(root, targetId, payload, position, centerAxis, groupId),
                   PlacedAt(root, targetId, position), NodeToInsert(payload))
  {
    if JoinsParent(root, targetId, position) {
      PlacedAtJoin(root, targetId, payload, position, centerAxis, groupId);
    } else {
      PlacedAtWrap(root, targetId, payload, position, centerAxis, groupId);
    }
  }

  /** After a drop with fresh ids, looking up the dropped node's id finds it,
      unchanged except for its defaultSize, which is a percentage. */
  lemma InsertPlacesNode(root: LayoutNode, targetId: string, payload: Payload, position: DropPosition,
                         centerAxis: Axis, groupId: string)
    requires Some(targetId) in Ids(root)
    requires Distinct(Ids(root) + Ids(NodeToInsert(payload)) + multiset{Some(groupId)})
    ensures
      var node := NodeToInsert(payload);
      var m := FindNode(InsertNode(root, targetId, payload, position, centerAxis, groupId), node.id);
      && m.Some?
      && m.value.(defaultSize := node.defaultSize) == node
      && m.value.defaultSize.Some? && 0.0 < m.value.defaultSize.value <= 100.0
  {
    var r := InsertNode(root, targetId, payload, position, centerAxis, groupId);
    var node := NodeToInsert(payload);
    InsertKeepsUnique(root, targetId, payload, position, centerAxis, groupId);
    PlacedAtHolds(root, targetId, payload, position, centerAxis, groupId);
    var q := PlacedAt(root, targetId, position);
    assert At(r, q).id == node.id;
    UniqueLocate(r, q);
    FindNodeAt(r, node.id);
  }

  /** insertPane on a present target adds exactly one new leaf: the requested
      type, the generated id and minSize 20, with a percentage defaultSize (50,
      or 100/count when it joins the parent); every earlier id stays present. */
  lemma InsertPaneAddsLeaf(root: LayoutNode, targetId: string, newPaneType: string, position: DropPosition,
                           centerAxis: Axis, paneId: string, groupId: string)
    requires Some(targetId) in Ids(root)
    requires Distinct(Ids(root) + multiset{Some(paneId), Some(groupId)})
    ensures
      var r := InsertPane(root, targetId, newPaneType, position, centerAxis, paneId, groupId);
      var m := FindNode(r, Some(paneId));
      && m.Some? && m.value.Leaf? && m.value.kind == newPaneType && m.value.id == Some(paneId)
      && m.value.minSize == Some(20.0)
      && m.value.defaultSize.Some? && 0.0 < m.value.defaultSize.value <= 100.0
      && Ids(r) == Ids(root) + multiset{Some(paneId)} +
           (if JoinsParent(root, targetId, position) then multiset{} else multiset{Some(groupId)})
      && UniqueIds(r)
  {
    var payload := NewPane(newPaneType, paneId);
    assert Ids(NodeToInsert(payload)) == multiset{Some(paneId)};
    assert Ids(root) + Ids(NodeToInsert(payload)) + multiset{Some(groupId)} ==
           Ids(root) + multiset{Some(paneId), Some(groupId)};
    InsertPlacesNode(root, targetId, payload, position, centerAxis, groupId);
    InsertIds(root, targetId, payload, position, centerAxis, groupId);
    InsertKeepsUnique(root, targetId, payload, position, centerAxis, groupId);
  }
}
