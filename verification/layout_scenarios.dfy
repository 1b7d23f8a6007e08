/**
 * Two small worked layouts: a drop to the right of a leaf whose parent splits
 * the other way, and the removal of the middle pane of three.
 */
module LayoutScenarios {
  import opened Options
  import opened LayoutTypes
  import opened LayoutTrees
  import opened LayoutLookup
  import opened LayoutInsert
  import opened LayoutRemove

  function GraphA(): LayoutNode { Leaf("graph", Some(50.0), None, Some("a")) }
  function MapB(): LayoutNode { Leaf("map", Some(50.0), None, Some("b")) }

  /** A vertical root holding a graph pane `a` above a map pane `b`. */
  function TwoRows(): LayoutNode {
    Group(VerticalKind, [GraphA(), MapB()], None, None, Some("root"))
  }

  /** Dropping a new table pane to the right of `a` wraps `a` and the new pane
      in a horizontal group at 50% each in `a`'s slot; `b` and the vertical
      root stay as they were. */
  lemma DropRightOfLeaf(centerAxis: Axis)
    ensures
      InsertPane(TwoRows(), "a", "table", Right, centerAxis, "new", "grp") ==
        Group(VerticalKind,
              [Group(HorizontalKind,
                     [GraphA(), Leaf("table", Some(50.0), Some(20.0), Some("new"))],
                     None, None, Some("grp")),
               MapB()],
              None, None, Some("root"))
  {
    var root := TwoRows();
    assert FindPath(GraphA(), Some("a")) == Some([]);
    assert FindPathFrom(root.panes, Some("a"), 0) == Some([0] + []);
    assert [0] + [] == [0];
    assert root.id != Some("a");
    assert FindPath(root, Some("a")) == Some([0]);
    assert FindParent(root, Some("a")) == Some(ParentInfo(Some(root), 0)) by {
      FindParentAtPath(root, Some("a"));
    }
  }

  function Third(id: string): LayoutNode { Leaf("graph", Some(33.3), None, Some(id)) }

  /** A horizontal root holding three panes of 33.3% each. */
  function ThreeColumns(): LayoutNode {
    Group(HorizontalKind, [Third("a"), Third("b"), Third("c")], None, None, Some("root"))
  }

  /** Removing the middle pane leaves the outer two in order, each still at
      33.3%: removal does not resize the panes that remain. */
  lemma RemoveMiddleColumn()
    ensures RemovePane(ThreeColumns(), Some("b")) ==
      Group(HorizontalKind, [Third("a"), Third("c")], None, None, Some("root"))
  {
    var root := ThreeColumns();
    assert FindPath(Third("a"), Some("b")) == None;
    assert FindPath(Third("b"), Some("b")) == Some([]);
    assert FindPathFrom(root.panes, Some("b"), 1) == Some([1] + []);
    assert [1] + [] == [1];
    assert root.id != Some("b");
    assert FindPathFrom(root.panes, Some("b"), 0) == Some([1]);
    assert FindPath(root, Some("b")) == Some([1]);
    assert Without(root.panes, 1) == [Third("a"), Third("c")];
  }
}
