/**
 * `movePane`: detach an existing node (with its subtree) and drop it next to,
 * or onto, another node.
 *
 * The id of a group the move creates is the parameter `groupId`, and the
 * random axis of a centre drop is `centerAxis`.
 */
module LayoutMove {
  import opened Options
  import opened LayoutTypes
  import opened LayoutTrees
  import opened LayoutLookup
  import opened LayoutInsert
  import opened LayoutRemove

  /** The fallback when the target no longer exists once the source is
      removed: a new root splitting along the drop's axis, the moved node
      first for top/left drops; neither pane's size is changed. */
  function Fallback(without: LayoutNode, src: LayoutNode, position: DropPosition, groupId: string): LayoutNode {
    Group(position.RequiredAxis().Kind(),
          if position.IsBefore() then [src, without] else [without, src],
          None, None, Some(groupId))
  }

  /**
   * The move is refused (the tree comes back as it was) when source and
   * target are the same id, when the target lies in the source's subtree, or
   * when the source does not exist. Otherwise the source is removed, then
   * dropped at the target, or beside the whole remaining tree when the
   * target disappeared with the removal.
   */
  function MovePane(root: LayoutNode, sourceId: string, targetId: string, position: DropPosition,
                    centerAxis: Axis, groupId: string): (r: LayoutNode)
    ensures sourceId == targetId ==> r == root
    ensures Some(sourceId) !in Ids(root) ==> r == root
  {
    if sourceId == targetId then root
    else if IsDescendant(root, Some(sourceId), targetId) then root
    else
      match FindNode(root, Some(sourceId))
      case None => root
      case Some(src) =>
        Reinsert(RemovePane(root, Some(sourceId)), src, targetId, position, centerAxis, groupId)
  }

  /** The second half of a move: drop the detached `src` at the target of the
      tree `without` that remains once it is removed, or beside the whole of
      `without` when the target is gone. */
  function Reinsert(without: LayoutNode, src: LayoutNode, targetId: string, position: DropPosition,
                    centerAxis: Axis, groupId: string): LayoutNode {
    if FindNode(without, Some(targetId)).None? then
      Fallback(without, src, position, groupId)
    else
      InsertNode(without, targetId, Existing(src), position, centerAxis, groupId)
  }

  /** The conditions under which a move changes anything. */
  predicate MoveApplies(root: LayoutNode, sourceId: string, targetId: string) {
    && sourceId != targetId
    && FindNode(root, Some(sourceId)).Some?
    && Some(targetId) !in Ids(FindNode(root, Some(sourceId)).value)
  }

  // ---------------------------------------------------------------------------
  // Lemmas
  // ---------------------------------------------------------------------------

  /** A move is refused exactly in the three cases `movePane` checks: onto
      itself, onto its own subtree, or from a missing node. When it is not
      refused, the tree is rebuilt from the tree without the source. */
  lemma MoveRefusals(root: LayoutNode, sourceId: string, targetId: string, position: DropPosition,
                     centerAxis: Axis, groupId: string)
    ensures !MoveApplies(root, sourceId, targetId) ==>
      MovePane(root, sourceId, targetId, position, centerAxis, groupId) == root
    ensures MoveApplies(root, sourceId, targetId) ==>
      var src := FindNode(root, Some(sourceId)).value;
      var without := RemovePane(root, Some(sourceId));
      MovePane(root, sourceId, targetId, position, centerAxis, groupId) ==
        if Some(targetId) in Ids(without) then InsertNode(without, targetId, Existing(src), position, centerAxis, groupId)
        else Fallback(without, src, position, groupId)
  {
    IsDescendantSpec(root, Some(sourceId), targetId);
  }

  lemma IdsFallback(without: LayoutNode, src: LayoutNode, position: DropPosition, groupId: string)
    ensures Ids(Fallback(without, src, position, groupId)) == multiset{Some(groupId)} + Ids(without) + Ids(src)
  {
    if position.IsBefore() {
      IdsOfPair(src, without);
    } else {
      IdsOfPair(without, src);
    }
  }

  /** The ids after a re-insert are those of the remaining tree, those of the
      moved subtree, and the new group's id unless the node joins the target's
      parent. */
  lemma ReinsertIds(without: LayoutNode, src: LayoutNode, targetId: string, position: DropPosition,
                    centerAxis: Axis, groupId: string)
    ensures
      var joins := Some(targetId) in Ids(without) && JoinsParent(without, targetId, position);
      Ids(Reinsert(without, src, targetId, position, centerAxis, groupId)) ==
        Ids(without) + Ids(src) + (if joins then multiset{} else multiset{Some(groupId)})
  {
    if Some(targetId) in Ids(without) {
      InsertIds(without, targetId, Existing(src), position, centerAxis, groupId);
    } else {
      IdsFallback(without, src, position, groupId);
      assert multiset{Some(groupId)} + Ids(without) + Ids(src) == Ids(without) + Ids(src) + multiset{Some(groupId)};
    }
  }

  /** The ids after a move are those of the tree without the source, those of
      the moved subtree, and the new group's id unless the source joins the
      target's parent. */
  lemma MoveIds(root: LayoutNode, sourceId: string, targetId: string, position: DropPosition,
                centerAxis: Axis, groupId: string)
    requires MoveApplies(root, sourceId, targetId)
    ensures
      var src := FindNode(root, Some(sourceId)).value;
      var without := RemovePane(root, Some(sourceId));
      var r := MovePane(root, sourceId, targetId, position, centerAxis, groupId);
      var joins := Some(targetId) in Ids(without) && JoinsParent(without, targetId, position);
      Ids(r) == Ids(without) + Ids(src) + (if joins then multiset{} else multiset{Some(groupId)})
  {
    var src := FindNode(root, Some(sourceId)).value;
    var without := RemovePane(root, Some(sourceId));
    ReinsertIds(without, src, targetId, position, centerAxis, groupId);
    MoveReinserts(root, sourceId, targetId, position, centerAxis, groupId);
  }

  /** A move that is not refused is the re-insert of the source into the tree
      without it. */
  lemma MoveReinserts(root: LayoutNode, sourceId: string, targetId: string, position: DropPosition,
                      centerAxis: Axis, groupId: string)
    requires MoveApplies(root, sourceId, targetId)
    ensures MovePane(root, sourceId, targetId, position, centerAxis, groupId) ==
      Reinsert(RemovePane(root, Some(sourceId)), FindNode(root, Some(sourceId)).value,
               targetId, position, centerAxis, groupId)
  {
    IsDescendantSpec(root, Some(sourceId), targetId);
  }

  /** Moving a node other than the root keeps ids unique, given a fresh group
      id, and adds no id but that group's. */
  lemma MoveKeepsUnique(root: LayoutNode, sourceId: string, targetId: string, position: DropPosition,
                        centerAxis: Axis, groupId: string)
    requires UniqueIds(root) && Some(groupId) !in Ids(root)
    requires root.id != Some(sourceId)
    ensures
      var r := MovePane(root, sourceId, targetId, position, centerAxis, groupId);
      UniqueIds(r) && Ids(r) <= Ids(root) + multiset{Some(groupId)}
  {
    if MoveApplies(root, sourceId, targetId) {
      var src := FindNode(root, Some(sourceId)).value;
      var without := RemovePane(root, Some(sourceId));
      var all := Ids(without) + Ids(src) + multiset{Some(groupId)};
      assert Distinct(all) && all <= Ids(root) + multiset{Some(groupId)} by {
        RemoveIds(root, Some(sourceId));
        DistinctUnion(Ids(root), multiset{Some(groupId)});
        DistinctSub(all, Ids(root) + multiset{Some(groupId)});
      }
      ReinsertUnique(without, src, targetId, position, centerAxis, groupId);
      MoveReinserts(root, sourceId, targetId, position, centerAxis, groupId);
    } else {
      MoveRefusals(root, sourceId, targetId, position, centerAxis, groupId);
    }
  }

  /** A re-insert whose ids are distinct keeps them distinct. */
  lemma ReinsertUnique(without: LayoutNode, src: LayoutNode, targetId: string, position: DropPosition,
                       centerAxis: Axis, groupId: string)
    requires Distinct(Ids(without) + Ids(src) + multiset{Some(groupId)})
    ensures
      var r := Reinsert(without, src, targetId, position, centerAxis, groupId);
      UniqueIds(r) && Ids(r) <= Ids(without) + Ids(src) + multiset{Some(groupId)}
  {
    var r := Reinsert(without, src, targetId, position, centerAxis, groupId);
    ReinsertIds(without, src, targetId, position, centerAxis, groupId);
    DistinctSub(Ids(r), Ids(without) + Ids(src) + multiset{Some(groupId)});
  }

  /** After a re-insert with distinct ids, looking up the moved node's id finds
      it, unchanged except possibly for its defaultSize. */
  lemma ReinsertPlaces(without: LayoutNode, src: LayoutNode, targetId: string, position: DropPosition,
                       centerAxis: Axis, groupId: string)
    requires Distinct(Ids(without) + Ids(src) + multiset{Some(groupId)})
    ensures
      var m := FindNode(Reinsert(without, src, targetId, position, centerAxis, groupId), src.id);
      m.Some? && m.value.(defaultSize := src.defaultSize) == src
  {
    if Some(targetId) in Ids(without) {
      InsertPlacesNode(without, targetId, Existing(src), position, centerAxis, groupId);
    } else {
      var r := Fallback(without, src, position, groupId);
      ReinsertUnique(without, src, targetId, position, centerAxis, groupId);
      var k := if position.IsBefore() then 0 else 1;
      ValidPathSnoc(r, [], k);
      assert [] + [k] == [k];
      assert At(r, [k]) == src;
      UniqueLocate(r, [k]);
      FindNodeAt(r, src.id);
    }
  }

  /** After a move, looking up the source id finds the moved subtree,
      unchanged except possibly for its defaultSize. When the root itself is
      moved, the lookup finds the first of its two copies. */
  lemma MoveKeepsSubtree(root: LayoutNode, sourceId: string, targetId: string, position: DropPosition,
                         centerAxis: Axis, groupId: string)
    requires UniqueIds(root) && Some(groupId) !in Ids(root)
    requires MoveApplies(root, sourceId, targetId)
    ensures
      var src := FindNode(root, Some(sourceId)).value;
      var m := FindNode(MovePane(root, sourceId, targetId, position, centerAxis, groupId), Some(sourceId));
      m.Some? && m.value.(defaultSize := src.defaultSize) == src
  {
    if root.id == Some(sourceId) {
      MoveRootKeepsSubtree(root, sourceId, targetId, position, centerAxis, groupId);
    } else {
      MoveInnerKeepsSubtree(root, sourceId, targetId, position, centerAxis, groupId);
    }
  }

  /** Moving the root: the lookup finds the root, unchanged, as the first pane
      of the fallback group. */
  lemma MoveRootKeepsSubtree(root: LayoutNode, sourceId: string, targetId: string, position: DropPosition,
                             centerAxis: Axis, groupId: string)
    requires Some(groupId) !in Ids(root)
    requires root.id == Some(sourceId) && MoveApplies(root, sourceId, targetId)
    ensures FindNode(MovePane(root, sourceId, targetId, position, centerAxis, groupId), Some(sourceId)) == Some(root)
  {
    IdsHasOwn(root);
    MoveRootDuplicates(root, sourceId, targetId, position, centerAxis, groupId);
    var r := MovePane(root, sourceId, targetId, position, centerAxis, groupId);
    assert r.id != Some(sourceId);
    assert r.panes[0..] == r.panes;
    assert FindNodeFrom(r.panes, Some(sourceId), 0) == Some(root);
  }

  /** Moving a node other than the root: the lookup finds the re-inserted
      node. */
  lemma MoveInnerKeepsSubtree(root: LayoutNode, sourceId: string, targetId: string, position: DropPosition,
                              centerAxis: Axis, groupId: string)
    requires UniqueIds(root) && Some(groupId) !in Ids(root)
    requires root.id != Some(sourceId) && MoveApplies(root, sourceId, targetId)
    ensures
      var src := FindNode(root, Some(sourceId)).value;
      var m := FindNode(MovePane(root, sourceId, targetId, position, centerAxis, groupId), Some(sourceId));
      m.Some? && m.value.(defaultSize := src.defaultSize) == src
  {
    var src := FindNode(root, Some(sourceId)).value;
    var without := RemovePane(root, Some(sourceId));
    var all := Ids(without) + Ids(src) + multiset{Some(groupId)};
    assert Distinct(all) by {
      RemoveIds(root, Some(sourceId));
      DistinctUnion(Ids(root), multiset{Some(groupId)});
      DistinctSub(all, Ids(root) + multiset{Some(groupId)});
    }
    ReinsertPlaces(without, src, targetId, position, centerAxis, groupId);
    MoveReinserts(root, sourceId, targetId, position, centerAxis, groupId);
  }

  /** A re-insert of a valid node into a valid tree is valid. */
  lemma ReinsertKeepsValid(without: LayoutNode, src: LayoutNode, targetId: string, position: DropPosition,
                           centerAxis: Axis, groupId: string)
    requires Valid(without) && Valid(src)
    ensures Valid(Reinsert(without, src, targetId, position, centerAxis, groupId))
  {
    if Some(targetId) in Ids(without) {
      InsertKeepsValid(without, targetId, Existing(src), position, centerAxis, groupId);
    } else {
      var f := Fallback(without, src, position, groupId);
      assert forall j :: 0 <= j < |f.panes| ==> Valid(f.panes[j]);
    }
  }

  /** A move keeps a valid tree valid. */
  lemma MoveKeepsValid(root: LayoutNode, sourceId: string, targetId: string, position: DropPosition,
                       centerAxis: Axis, groupId: string)
    requires Valid(root) && UniqueIds(root)
    ensures Valid(MovePane(root, sourceId, targetId, position, centerAxis, groupId))
  {
    if MoveApplies(root, sourceId, targetId) {
      var src := FindNode(root, Some(sourceId)).value;
      var without := RemovePane(root, Some(sourceId));
      assert Valid(src) by {
        FindNodeAt(root, Some(sourceId));
        ValidAt(root, FindPath(root, Some(sourceId)).value);
      }
      RemoveKeepsValid(root, Some(sourceId));
      ReinsertKeepsValid(without, src, targetId, position, centerAxis, groupId);
      MoveReinserts(root, sourceId, targetId, position, centerAxis, groupId);
    } else {
      MoveRefusals(root, sourceId, targetId, position, centerAxis, groupId);
    }
  }

  /** Moving the root itself onto an id the tree does not contain is not
      refused: removal leaves the root in place, so the result is a new group
      holding the root twice and every id of the tree appears twice. */
  lemma MoveRootDuplicates(root: LayoutNode, sourceId: string, targetId: string, position: DropPosition,
                           centerAxis: Axis, groupId: string)
    requires root.id == Some(sourceId) && sourceId != targetId && Some(targetId) !in Ids(root)
    ensures
      var r := MovePane(root, sourceId, targetId, position, centerAxis, groupId);
      && r == Group(position.RequiredAxis().Kind(), [root, root], None, None, Some(groupId))
      && !UniqueIds(r)
  {
    var r := MovePane(root, sourceId, targetId, position, centerAxis, groupId);
    IsDescendantSpec(root, Some(sourceId), targetId);
    IdsFallback(root, root, position, groupId);
    IdsHasOwn(root);
    assert Ids(r)[Some(sourceId)] >= 2;
  }
}
