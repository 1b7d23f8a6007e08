/**
 * Inserting a new pane and then removing it again. The tree comes back with
 * every node, id and child order it had, but not with all of its sizes:
 * removal does not undo the 50% a wrapping drop gives the target, nor the
 * 100/count a joining drop gives the target's siblings.
 */
module LayoutRoundTrip {
  import opened Options
  import opened LayoutTypes
  import opened LayoutTrees
  import opened LayoutLookup
  import opened LayoutInsert
  import opened LayoutRemove

  /** The tree without its `defaultSize`s: types, ids, minimum sizes and child order. */
  function Shape(n: LayoutNode): LayoutNode {
    match n
    case Leaf(k, _, ms, id) => Leaf(k, None, ms, id)
    case Group(k, ps, _, ms, id) =>
      Group(k, seq(|ps|, i requires 0 <= i < |ps| => Shape(ps[i])), None, ms, id)
  }

  lemma ShapeWithSize(n: LayoutNode, s: real)
    ensures Shape(WithSize(n, s)) == Shape(n)
  {
  }

  /** Replacing a node by one of the same shape keeps the tree's shape. */
  lemma {:induction false} ShapeReplaceAt(n: LayoutNode, p: Path, m: LayoutNode)
    requires ValidPath(n, p) && Shape(m) == Shape(At(n, p))
    decreases |p|
    ensures Shape(ReplaceAt(n, p, m)) == Shape(n)
  {
    if p != [] {
      var c := n.panes[p[0]];
      ShapeReplaceAt(c, p[1..], m);
      var r := ReplaceAt(n, p, m);
      assert forall j :: 0 <= j < |n.panes| ==> Shape(r.panes[j]) == Shape(n.panes[j]);
    }
  }

  lemma ShapeResized(g: LayoutNode, s: real)
    requires g.Group?
    ensures Shape(g.(panes := Resized(g.panes, s))) == Shape(g)
  {
    var g' := g.(panes := Resized(g.panes, s));
    assert forall j :: 0 <= j < |g.panes| ==> Shape(g'.panes[j]) == Shape(g.panes[j]);
  }

  /** Resizing the panes of one group keeps the tree's shape. */
  lemma ShapeReplaceResized(root: LayoutNode, pp: Path, s: real)
    requires ValidPath(root, pp) && At(root, pp).Group?
    ensures
      var g := At(root, pp);
      Shape(ReplaceAt(root, pp, g.(panes := Resized(g.panes, s)))) == Shape(root)
  {
    var g := At(root, pp);
    ShapeResized(g, s);
    ShapeReplaceAt(root, pp, g.(panes := Resized(g.panes, s)));
  }

  /** Taking the inserted pane back out of a parent the drop resized leaves
      the parent's old panes, all at the new size. */
  lemma UnspliceResized(g: LayoutNode, big: LayoutNode, at: nat, x: LayoutNode, s: real)
    requires g.Group? && big.Group? && at <= |g.panes|
    requires big.kind == g.kind && big.id == g.id
    requires big.defaultSize == g.defaultSize && big.minSize == g.minSize
    requires |big.panes| == |g.panes| + 1 && big.panes[at] == x
    requires forall j :: 0 <= j < at ==> big.panes[j] == WithSize(g.panes[j], s)
    requires forall j :: at < j < |big.panes| ==> big.panes[j] == WithSize(g.panes[j - 1], s)
    ensures big.(panes := Without(big.panes, at)) == g.(panes := Resized(g.panes, s))
  {
    var a := Without(big.panes, at);
    var b := Resized(g.panes, s);
    assert forall j :: 0 <= j < |a| ==> a[j] == b[j];
  }

  /** Ids of the tree after inserting a new pane with fresh ids are unique. */
  lemma InsertPaneUnique(root: LayoutNode, targetId: string, newPaneType: string, position: DropPosition,
                         centerAxis: Axis, paneId: string, groupId: string)
    requires Distinct(Ids(root) + multiset{Some(paneId), Some(groupId)})
    ensures UniqueIds(InsertPane(root, targetId, newPaneType, position, centerAxis, paneId, groupId))
  {
    var payload := NewPane(newPaneType, paneId);
    assert Ids(NodeToInsert(payload)) == multiset{Some(paneId)};
    assert Ids(root) + Ids(NodeToInsert(payload)) + multiset{Some(groupId)} ==
           Ids(root) + multiset{Some(paneId), Some(groupId)};
    InsertKeepsUnique(root, targetId, payload, position, centerAxis, groupId);
  }

  /** In a tree with unique ids, removing the pane at `at` of the group at
      `pp` splices it out of the group when three or more panes are there, and
      puts the other pane in the group's place when there are two. */
  lemma RemovePaneAt(r: LayoutNode, pp: Path, at: nat)
    requires ValidPath(r, pp) && At(r, pp).Group? && at < |At(r, pp).panes| && UniqueIds(r)
    requires |At(r, pp).panes| >= 2
    ensures
      var g := At(r, pp);
      && (|g.panes| >= 3 ==> RemovePane(r, g.panes[at].id) == ReplaceAt(r, pp, g.(panes := Without(g.panes, at))))
      && (|g.panes| == 2 ==> RemovePane(r, g.panes[at].id) == ReplaceAt(r, pp, g.panes[1 - at]))
  {
    ValidPathSnoc(r, pp, at);
    UniqueLocate(r, pp + [at]);
    RemoveSpec(r, At(r, pp).panes[at].id, pp, at);
  }

  /** A pane put into a group of three or more at `pp` is spliced out again,
      leaving `restored` (the group without it). */
  lemma UndoSplice(root: LayoutNode, pp: Path, big: LayoutNode, at: nat, key: Option<string>, restored: LayoutNode)
    requires ValidPath(root, pp) && UniqueIds(ReplaceAt(root, pp, big))
    requires big.Group? && at < |big.panes| && |big.panes| >= 3
    requires key == big.panes[at].id && restored == big.(panes := Without(big.panes, at))
    ensures RemovePane(ReplaceAt(root, pp, big), key) == ReplaceAt(root, pp, restored)
  {
    ReplaceAtTwice(root, pp, big, restored);
    RemovePaneAt(ReplaceAt(root, pp, big), pp, at);
  }

  /** A pane put into a group of two at `pp` is removed again, the other pane
      (`restored`) taking the group's place. */
  lemma UndoCollapse(root: LayoutNode, pp: Path, big: LayoutNode, at: nat, key: Option<string>, restored: LayoutNode)
    requires ValidPath(root, pp) && UniqueIds(ReplaceAt(root, pp, big))
    requires big.Group? && at < |big.panes| && |big.panes| == 2
    requires key == big.panes[at].id && restored == big.panes[1 - at]
    ensures RemovePane(ReplaceAt(root, pp, big), key) == ReplaceAt(root, pp, restored)
  {
    ReplaceAtTwice(root, pp, big, restored);
    RemovePaneAt(ReplaceAt(root, pp, big), pp, at);
  }

  /** The joined parent with the node taken back out at `at` is the old
      parent with its panes resized to 100/(count + 1). */
  lemma UnspliceJoined(g: LayoutNode, at: nat, node: LayoutNode)
    requires g.Group? && at <= |g.panes|
    ensures
      var big := Joined(g, at, node);
      && |big.panes| == |g.panes| + 1
      && big.panes[at].id == node.id
      && big.(panes := Without(big.panes, at)) == g.(panes := Resized(g.panes, Share(|g.panes| + 1)))
  {
    var s := Share(|g.panes| + 1);
    JoinedPanes(g, at, node);
    UnspliceResized(g, Joined(g, at, node), at, WithSize(node, s), s);
  }

  /** Removing a node that joined the group at `pp` (of two or more panes)
      leaves that group's old panes, resized. */
  lemma UndoJoined(root: LayoutNode, pp: Path, at: nat, node: LayoutNode)
    requires ValidPath(root, pp) && At(root, pp).Group? && at <= |At(root, pp).panes|
    requires |At(root, pp).panes| >= 2
    requires UniqueIds(ReplaceAt(root, pp, Joined(At(root, pp), at, node)))
    ensures
      var g := At(root, pp);
      RemovePane(ReplaceAt(root, pp, Joined(g, at, node)), node.id) ==
        ReplaceAt(root, pp, g.(panes := Resized(g.panes, Share(|g.panes| + 1))))
  {
    var g := At(root, pp);
    UnspliceJoined(g, at, node);
    var big := Joined(g, at, node);
    var g' := g.(panes := Resized(g.panes, Share(|g.panes| + 1)));
    assert big.Group? && at < |big.panes| && |big.panes| >= 3;
    assert node.id == big.panes[at].id;
    assert g' == big.(panes := Without(big.panes, at));
    UndoSplice(root, pp, big, at, node.id, g');
  }

  /** A joining drop undone: the parent is back to its old panes in order,
      all of them now sized 100/(count + 1), so the tree's shape is back. */
  lemma InsertRemoveJoined(root: LayoutNode, targetId: string, newPaneType: string, position: DropPosition,
                           centerAxis: Axis, paneId: string, groupId: string, pp: Path, i: nat)
    requires Distinct(Ids(root) + multiset{Some(paneId), Some(groupId)})
    requires ValidPath(root, pp) && At(root, pp).Group? && i < |At(root, pp).panes|
    requires |At(root, pp).panes| >= 2
    requires FindPath(root, Some(targetId)) == Some(pp + [i])
    requires JoinsParent(root, targetId, position)
    ensures
      var g := At(root, pp);
      var back := RemovePane(InsertPane(root, targetId, newPaneType, position, centerAxis, paneId, groupId), Some(paneId));
      && back == ReplaceAt(root, pp, g.(panes := Resized(g.panes, Share(|g.panes| + 1))))
      && Shape(back) == Shape(root)
  {
    var payload := NewPane(newPaneType, paneId);
    var node := NodeToInsert(payload);
    var g := At(root, pp);
    var at := if position.IsBefore() then i else i + 1;
    var g' := g.(panes := Resized(g.panes, Share(|g.panes| + 1)));
    var t := ReplaceAt(root, pp, Joined(g, at, node));
    var r := InsertPane(root, targetId, newPaneType, position, centerAxis, paneId, groupId);
    assert Shape(ReplaceAt(root, pp, g')) == Shape(root) by {
      ShapeReplaceResized(root, pp, Share(|g.panes| + 1));
    }
    assert RemovePane(t, Some(paneId)) == ReplaceAt(root, pp, g') by {
      assert UniqueIds(t) by {
        InsertPaneUnique(root, targetId, newPaneType, position, centerAxis, paneId, groupId);
        InsertJoinsParent(root, targetId, payload, position, centerAxis, groupId, pp, i);
      }
      UndoJoined(root, pp, at, node);
    }
    assert r == t by {
      InsertJoinsParent(root, targetId, payload, position, centerAxis, groupId, pp, i);
    }
  }

  /** The wrapping group with the new node taken back out is the target at 50%. */
  lemma UnwrapWrapped(axis: Axis, first: bool, target: LayoutNode, node: LayoutNode, groupId: string)
    ensures
      var w := Wrap(axis, first, target, node, groupId);
      var k := if first then 0 else 1;
      && w.Group? && |w.panes| == 2
      && w.panes[k].id == node.id
      && w.panes[1 - k] == WithSize(target, 50.0)
  {
  }

  /** Removing a node that was wrapped together with the node at `p` puts
      that node back, at 50%. */
  lemma UndoWrapped(root: LayoutNode, p: Path, axis: Axis, first: bool, node: LayoutNode, groupId: string)
    requires ValidPath(root, p)
    requires UniqueIds(ReplaceAt(root, p, Wrap(axis, first, At(root, p), node, groupId)))
    ensures
      RemovePane(ReplaceAt(root, p, Wrap(axis, first, At(root, p), node, groupId)), node.id) ==
        ReplaceAt(root, p, WithSize(At(root, p), 50.0))
  {
    var target := At(root, p);
    var w := Wrap(axis, first, target, node, groupId);
    var k := if first then 0 else 1;
    assert w.Group? && |w.panes| == 2 && w.panes[k].id == node.id && w.panes[1 - k] == WithSize(target, 50.0) by {
      UnwrapWrapped(axis, first, target, node, groupId);
    }
    UndoCollapse(root, p, w, k, node.id, WithSize(target, 50.0));
  }

  /** A wrapping drop undone: the target is back in its slot (or is the root
      again), with `defaultSize` 50, so the tree's shape is back. */
  lemma InsertRemoveWrapped(root: LayoutNode, targetId: string, newPaneType: string, position: DropPosition,
                            centerAxis: Axis, paneId: string, groupId: string, p: Path)
    requires Distinct(Ids(root) + multiset{Some(paneId), Some(groupId)})
    requires FindPath(root, Some(targetId)) == Some(p)
    requires !JoinsParent(root, targetId, position)
    ensures
      var back := RemovePane(InsertPane(root, targetId, newPaneType, position, centerAxis, paneId, groupId), Some(paneId));
      && back == ReplaceAt(root, p, WithSize(At(root, p), 50.0))
      && Shape(back) == Shape(root)
  {
    var payload := NewPane(newPaneType, paneId);
    var node := NodeToInsert(payload);
    var axis := if position.Center? then centerAxis else position.RequiredAxis();
    var first := !position.Center? && position.IsBefore();
    ShapeReplaceAt(root, p, WithSize(At(root, p), 50.0));
    assert UniqueIds(ReplaceAt(root, p, Wrap(axis, first, At(root, p), node, groupId))) by {
      InsertPaneUnique(root, targetId, newPaneType, position, centerAxis, paneId, groupId);
      InsertWraps(root, targetId, payload, position, centerAxis, groupId, p);
    }
    UndoWrapped(root, p, axis, first, node, groupId);
    InsertWraps(root, targetId, payload, position, centerAxis, groupId, p);
  }

  /** Inserting a new pane on a present target and removing it again gives
      back the tree's shape: every node, id, minimum size and child order.
      Only `defaultSize`s may differ. */
  lemma InsertRemoveRoundTrip(root: LayoutNode, targetId: string, newPaneType: string, position: DropPosition,
                              centerAxis: Axis, paneId: string, groupId: string)
    requires Valid(root) && Some(targetId) in Ids(root)
    requires Distinct(Ids(root) + multiset{Some(paneId), Some(groupId)})
    ensures
      var r := InsertPane(root, targetId, newPaneType, position, centerAxis, paneId, groupId);
      Shape(RemovePane(r, Some(paneId))) == Shape(root)
  {
    if JoinsParent(root, targetId, position) {
      var pp, i := TargetPath(root, targetId, position);
      assert |At(root, pp).panes| >= 2 by {
        ValidAt(root, pp);
      }
      InsertRemoveJoined(root, targetId, newPaneType, position, centerAxis, paneId, groupId, pp, i);
    } else {
      InsertRemoveWrapped(root, targetId, newPaneType, position, centerAxis, paneId, groupId,
                          FindPath(root, Some(targetId)).value);
    }
  }
}
