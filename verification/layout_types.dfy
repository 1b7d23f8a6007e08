/**
 * The data model of the layout tree: nodes, drop positions and split axes,
 * together with the structural invariant every tree shown to the user keeps.
 */
module LayoutTypes {
  import opened Options

  const HorizontalKind: string := "horizontal"
  const VerticalKind: string := "vertical"

  /** A node is a group exactly when its type names a split axis; any other
      type string is an opaque leaf content kind. */
  predicate IsGroupKind(kind: string) {
    kind == HorizontalKind || kind == VerticalKind
  }

  /**
   * A node of the layout tree. The constructor records whether the node
   * carries a `panes` property: `Group` has one (possibly empty), `Leaf` has
   * none. `kind` is the node's `type` string, `defaultSize` and `minSize` are
   * optional percentages, and `id` is the optional identifier.
   */
  datatype LayoutNode =
    | Leaf(kind: string, defaultSize: Option<real>, minSize: Option<real>, id: Option<string>)
    | Group(kind: string, panes: seq<LayoutNode>, defaultSize: Option<real>, minSize: Option<real>, id: Option<string>)

  /** The two split axes a group can have. */
  datatype Axis = Horizontal | Vertical {
    /** The `type` string a group on this axis carries. */
    function Kind(): (k: string)
      ensures IsGroupKind(k)
      ensures k == VerticalKind <==> this == Vertical
    {
      if Vertical? then VerticalKind else HorizontalKind
    }
  }

  /** Where a drop lands relative to its target: one of four edges or the centre. */
  datatype DropPosition = Top | Bottom | Left | Right | Center {
    /** Edge drops on top or bottom stack vertically, all others split horizontally. */
    function RequiredAxis(): Axis {
      if Top? || Bottom? then Vertical else Horizontal
    }

    /** The dropped node goes before its target for top and left drops. */
    predicate IsBefore() {
      Top? || Left?
    }
  }

  /** Whether a drag adds a new pane or moves an existing one. */
  datatype Operation = Add | Move

  /** The drag in progress, as reported by the drag-tracking collaborator. */
  datatype DragItem = DragItem(paneType: Option<string>, nodeId: Option<string>, operation: Operation)

  /** A resolved drop: the node hit and the position within it. */
  datatype DropTarget = DropTarget(nodeId: string, position: DropPosition)

  /** An optional size is either absent or a percentage in 0..100. */
  predicate IsPercent(size: Option<real>) {
    size.None? || 0.0 <= size.value <= 100.0
  }

  /** The invariant of one node: panes exactly on group kinds, at least two
      children per group, and sizes that are percentages. */
  predicate NodeOk(n: LayoutNode) {
    && (n.Group? <==> IsGroupKind(n.kind))
    && (n.Group? ==> |n.panes| >= 2)
    && IsPercent(n.defaultSize)
    && IsPercent(n.minSize)
  }

  /** Every node of the tree satisfies NodeOk. */
  predicate Valid(n: LayoutNode) {
    && NodeOk(n)
    && (n.Group? ==> forall i :: 0 <= i < |n.panes| ==> Valid(n.panes[i]))
  }

  /** `n` with its `defaultSize` overwritten, as `{ ...n, defaultSize: s }` does. */
  function WithSize(n: LayoutNode, s: real): (r: LayoutNode)
    ensures r.defaultSize == Some(s)
    ensures r.(defaultSize := n.defaultSize) == n
  {
    n.(defaultSize := Some(s))
  }

  /** A node keeps validity when its size is overwritten by a percentage. */
  lemma ValidWithSize(n: LayoutNode, s: real)
    requires Valid(n)
    requires 0.0 <= s <= 100.0
    ensures Valid(WithSize(n, s))
  {
    var r := WithSize(n, s);
    if n.Group? {
      assert r.panes == n.panes;
    }
  }
}
