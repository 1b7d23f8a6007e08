/**
 * `removePane`: take a node out of its parent's panes, collapsing a parent
 * left with a single pane into that pane and removing a parent left with
 * none. The root is never removed.
 */
module LayoutRemove {
  import opened Options
  import opened LayoutTypes
  import opened LayoutTrees
  import opened LayoutLookup

  /** `cs` with element `i` spliced out; the others keep their order. */
  function Without(cs: seq<LayoutNode>, i: nat): (r: seq<LayoutNode>)
    requires i < |cs|
    ensures |r| == |cs| - 1
    ensures forall j :: 0 <= j < i ==> r[j] == cs[j]
    ensures forall j :: i <= j < |r| ==> r[j] == cs[j + 1]
  {
    cs[..i] + cs[i + 1..]
  }

  /**
   * `removePane` searches with `parent.id!` when it collapses or removes the
   * parent, so the key is an optional id here as well.
   */
  function RemovePane(root: LayoutNode, key: Option<string>): (r: LayoutNode)
    decreases Size(root)
    ensures key == root.id || key !in Ids(root) ==> r == root
  {
    match FindPath(root, key)
    case None => root
    case Some(p) =>
      if p == [] then root // the root has no parent and is not removed
      else
        AtParent(root, p);
        var parent := At(root, Init(p));
        var rest := Without(parent.panes, Last(p));
        var t := ReplaceAt(root, Init(p), parent.(panes := rest));
        if |rest| == 1 then
          // collapse: the parent is looked up again by its id in the edited tree
          match FindPath(t, parent.id)
          case Some(q) => if q == [] then rest[0] else ReplaceAt(t, q, rest[0])
          case None => rest[0]
        else if |rest| == 0 then
          SizeReplaceAt(root, Init(p), parent.(panes := rest));
          assert Size(parent.(panes := rest)) == 1;
          RemovePane(t, parent.id)
        else
          t
  }

  // ---------------------------------------------------------------------------
  // Lemmas
  // ---------------------------------------------------------------------------

  lemma IdsWithout(g: LayoutNode, i: nat)
    requires g.Group? && i < |g.panes|
    ensures Ids(g.(panes := Without(g.panes, i))) + Ids(g.panes[i]) == Ids(g)
  {
    IdsOfDelete(g.panes, i);
    assert Ids(g.(panes := Without(g.panes, i))) == multiset{g.id} + IdsOf(Without(g.panes, i));
  }

  /** Splicing the child at `pp + [i]` out of its parent removes exactly that child's ids. */
  lemma IdsSpliceOut(root: LayoutNode, pp: Path, i: nat)
    requires ValidPath(root, pp) && At(root, pp).Group? && i < |At(root, pp).panes|
    ensures
      var g := At(root, pp);
      Ids(ReplaceAt(root, pp, g.(panes := Without(g.panes, i)))) + Ids(g.panes[i]) == Ids(root)
  {
    var g := At(root, pp);
    var g' := g.(panes := Without(g.panes, i));
    IdsReplaceAt(root, pp, g');
    IdsWithout(g, i);
    var t := ReplaceAt(root, pp, g');
    forall k
      ensures (Ids(t) + Ids(g.panes[i]))[k] == Ids(root)[k]
    {
      assert (Ids(t) + Ids(g))[k] == (Ids(root) + Ids(g'))[k];
    }
  }

  /** On a tree with unique ids, removing a node whose parent has at least two
      panes splices it out of the parent, the other panes keeping their order
      and sizes; a parent left with one pane is replaced by that pane in its
      own slot, which makes the pane the new root when the parent was the root. */
  lemma RemoveSpec(root: LayoutNode, key: Option<string>, pp: Path, i: nat)
    requires ValidPath(root, pp) && At(root, pp).Group? && i < |At(root, pp).panes|
    requires FindPath(root, key) == Some(pp + [i])
    requires UniqueIds(root) && |At(root, pp).panes| >= 2
    ensures
      var g := At(root, pp);
      var r := RemovePane(root, key);
      && (|g.panes| >= 3 ==> r == ReplaceAt(root, pp, g.(panes := Without(g.panes, i))))
      && (|g.panes| == 2 ==> r == ReplaceAt(root, pp, g.panes[1 - i]))
  {
    if |At(root, pp).panes| == 2 {
      RemoveCollapses(root, key, pp, i);
    } else {
      RemoveSplices(root, key, pp, i);
    }
  }

  lemma RemoveSplices(root: LayoutNode, key: Option<string>, pp: Path, i: nat)
    requires ValidPath(root, pp) && At(root, pp).Group? && i < |At(root, pp).panes|
    requires FindPath(root, key) == Some(pp + [i])
    requires |At(root, pp).panes| >= 3
    ensures
      var g := At(root, pp);
      RemovePane(root, key) == ReplaceAt(root, pp, g.(panes := Without(g.panes, i)))
  {
    InitLast(pp, i);
  }

  lemma RemoveCollapses(root: LayoutNode, key: Option<string>, pp: Path, i: nat)
    requires ValidPath(root, pp) && At(root, pp).Group? && i < |At(root, pp).panes|
    requires FindPath(root, key) == Some(pp + [i])
    requires UniqueIds(root) && |At(root, pp).panes| == 2
    ensures
      var g := At(root, pp);
      RemovePane(root, key) == ReplaceAt(root, pp, g.panes[1 - i])
  {
    var g := At(root, pp);
    var p := pp + [i];
    var g' := g.(panes := Without(g.panes, i));
    var t := ReplaceAt(root, pp, g');
    InitLast(pp, i);
    assert FindPath(t, g.id) == Some(pp) by {
      IdsSpliceOut(root, pp, i);
      DistinctSub(Ids(t), Ids(root));
      UniqueLocate(t, pp);
    }
    assert Without(g.panes, i)[0] == g.panes[1 - i];
    ReplaceAtTwice(root, pp, g', g.panes[1 - i]);
  }

  /** What removal leaves, together with the removed child, is part of the tree. */
  lemma {:induction false} RemoveWithinSplice(root: LayoutNode, key: Option<string>, pp: Path, i: nat)
    requires ValidPath(root, pp) && At(root, pp).Group? && i < |At(root, pp).panes|
    requires FindPath(root, key) == Some(pp + [i])
    requires UniqueIds(root)
    decreases Size(root), 1
    ensures Ids(RemovePane(root, key)) + Ids(At(root, pp).panes[i]) <= Ids(root)
  {
    var g := At(root, pp);
    IdsSpliceOut(root, pp, i);
    if |g.panes| >= 3 {
      RemoveSpec(root, key, pp, i);
    } else if |g.panes| == 2 {
      RemoveSpec(root, key, pp, i);
      CollapseIds(root, pp, i);
    } else {
      RemoveEmptied(root, key, pp, i);
    }
  }

  /** A parent of two panes losing one is replaced by the other: what is lost
      is the parent's own id and the removed child's ids. */
  lemma CollapseIds(root: LayoutNode, pp: Path, i: nat)
    requires ValidPath(root, pp) && At(root, pp).Group? && |At(root, pp).panes| == 2 && i < 2
    ensures
      var g := At(root, pp);
      Ids(ReplaceAt(root, pp, g.panes[1 - i])) + Ids(g.panes[i]) <= Ids(root)
  {
    var g := At(root, pp);
    var child, other := g.panes[i], g.panes[1 - i];
    var r := ReplaceAt(root, pp, other);
    IdsReplaceAt(root, pp, other);
    var gIds := Ids(g);
    PairIds(g, i);
    assert gIds == multiset{g.id} + Ids(child) + Ids(other);
    forall k
      ensures (Ids(r) + Ids(child))[k] <= Ids(root)[k]
    {
      assert (Ids(r) + gIds)[k] == (Ids(root) + Ids(other))[k];
    }
  }

  lemma PairIds(g: LayoutNode, i: nat)
    requires g.Group? && |g.panes| == 2 && i < 2
    ensures Ids(g) == multiset{g.id} + Ids(g.panes[i]) + Ids(g.panes[1 - i])
  {
    assert g.panes == [g.panes[0], g.panes[1]];
    IdsOfPair(g.panes[0], g.panes[1]);
  }

  /** A parent left with no panes is removed in turn, by its id. */
  lemma {:induction false} RemoveEmptied(root: LayoutNode, key: Option<string>, pp: Path, i: nat)
    requires ValidPath(root, pp) && At(root, pp).Group? && i < |At(root, pp).panes|
    requires FindPath(root, key) == Some(pp + [i])
    requires UniqueIds(root) && |At(root, pp).panes| == 1
    decreases Size(root), 0
    ensures Ids(RemovePane(root, key)) + Ids(At(root, pp).panes[i]) <= Ids(root)
  {
    var g := At(root, pp);
    var g' := g.(panes := Without(g.panes, i));
    var t := ReplaceAt(root, pp, g');
    assert UniqueIds(t) && Size(t) < Size(root) by {
      IdsSpliceOut(root, pp, i);
      DistinctSub(Ids(t), Ids(root));
      SizeReplaceAt(root, pp, g');
      assert Size(g') == 1;
    }
    RemoveIds(t, g.id);
    assert Ids(t) + Ids(g.panes[i]) == Ids(root) by { IdsSpliceOut(root, pp, i); }
    RemoveEmptiedStep(root, key, pp, i);
  }

  /** The step of `RemovePane` that removes a parent left with no panes. */
  lemma RemoveEmptiedStep(root: LayoutNode, key: Option<string>, pp: Path, i: nat)
    requires ValidPath(root, pp) && At(root, pp).Group? && i < |At(root, pp).panes|
    requires FindPath(root, key) == Some(pp + [i])
    requires |At(root, pp).panes| == 1
    ensures
      var g := At(root, pp);
      RemovePane(root, key) == RemovePane(ReplaceAt(root, pp, g.(panes := Without(g.panes, i))), g.id)
  {
    InitLast(pp, i);
  }

  /** On a tree with unique ids, removal only loses ids: the removed subtree's
      ids are all gone, and so is the removed id. */
  lemma {:induction false} RemoveIds(root: LayoutNode, key: Option<string>)
    requires UniqueIds(root)
    decreases Size(root), 2
    ensures Ids(RemovePane(root, key)) <= Ids(root)
    ensures key in Ids(root) && key != root.id ==>
      && Ids(RemovePane(root, key)) + Ids(FindNode(root, key).value) <= Ids(root)
      && key !in Ids(RemovePane(root, key))
  {
    var r := RemovePane(root, key);
    if key in Ids(root) && key != root.id {
      var p := FindPath(root, key).value;
      FindNodeAt(root, key);
      AtParent(root, p);
      var pp, i := Init(p), Last(p);
      assert p == pp + [i];
      var g := At(root, pp);
      var child := g.panes[i];
      RemoveWithinSplice(root, key, pp, i);
      IdsHasOwn(child);
      assert child.id == key;
      assert (Ids(r) + Ids(child))[key] <= 1;
    }
  }

  /** Removal keeps a valid tree with unique ids valid and unique: in
      particular no group is ever left with a single pane. */
  lemma RemoveKeepsValid(root: LayoutNode, key: Option<string>)
    requires Valid(root) && UniqueIds(root)
    ensures Valid(RemovePane(root, key))
    ensures UniqueIds(RemovePane(root, key))
  {
    RemoveIds(root, key);
    DistinctSub(Ids(RemovePane(root, key)), Ids(root));
    if key in Ids(root) && key != root.id {
      var p := FindPath(root, key).value;
      AtParent(root, p);
      var pp, i := Init(p), Last(p);
      assert p == pp + [i];
      var g := At(root, pp);
      ValidAt(root, pp);
      RemoveSpec(root, key, pp, i);
      if |g.panes| == 2 {
        ValidReplaceAt(root, pp, g.panes[1 - i]);
      } else {
        var g' := g.(panes := Without(g.panes, i));
        assert Valid(g');
        ValidReplaceAt(root, pp, g');
      }
    }
  }
}
