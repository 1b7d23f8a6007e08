/**
 * `ensureIds`: give every node that lacks an id a generated one, keeping
 * everything else. The clock- and random-based generator becomes the
 * parameter `gen`, which names the id generated for the node at a path of
 * the input tree (the walk visits each node once, so any run of the generator
 * is some such function).
 */
module IdAssignment {
  import opened Options
  import opened LayoutTypes
  import opened LayoutTrees
  import opened LayoutLookup

  /** The JavaScript truthiness of `node.id`: present and non-empty. */
  predicate HasId(n: LayoutNode) {
    n.id.Some? && n.id.value != ""
  }

  /** Every node of the tree has an id. */
  predicate AllHaveIds(n: LayoutNode) {
    && HasId(n)
    && (n.Group? ==> forall i :: 0 <= i < |n.panes| ==> AllHaveIds(n.panes[i]))
  }

  /** The tree with every id removed: its types, sizes and child order only. */
  function EraseIds(n: LayoutNode): LayoutNode {
    match n
    case Leaf(k, ds, ms, _) => Leaf(k, ds, ms, None)
    case Group(k, ps, ds, ms, _) =>
      Group(k, seq(|ps|, i requires 0 <= i < |ps| => EraseIds(ps[i])), ds, ms, None)
  }

  /** ensureIds on the subtree found at path `at` of the input. */
  function EnsureIdsAt(n: LayoutNode, gen: Path -> string, at: Path): (r: LayoutNode)
    ensures EraseIds(r) == EraseIds(n)
    ensures HasId(n) ==> r.id == n.id
    ensures !HasId(n) ==> r.id == Some(gen(at))
    ensures (forall p :: gen(p) != "") ==> AllHaveIds(r)
  {
    var id := if HasId(n) then n.id else Some(gen(at));
    match n
    case Leaf(k, ds, ms, _) => Leaf(k, ds, ms, id)
    case Group(k, ps, ds, ms, _) =>
      var ps' := seq(|ps|, i requires 0 <= i < |ps| => EnsureIdsAt(ps[i], gen, at + [i]));
      assert seq(|ps'|, i requires 0 <= i < |ps'| => EraseIds(ps'[i])) ==
             seq(|ps|, i requires 0 <= i < |ps| => EraseIds(ps[i]));
      Group(k, ps', ds, ms, id)
  }

  function EnsureIds(n: LayoutNode, gen: Path -> string): (r: LayoutNode)
    ensures EraseIds(r) == EraseIds(n)
    ensures (forall p :: gen(p) != "") ==> AllHaveIds(r)
  {
    EnsureIdsAt(n, gen, [])
  }

  /** Node by node: every path of the input leads to a node of the output with
      the same types and sizes, which keeps its own id when it had one and
      otherwise carries the id generated for that path. */
  lemma {:induction false} EnsureIdsAtPath(n: LayoutNode, gen: Path -> string, at: Path, p: Path)
    requires ValidPath(n, p)
    decreases |p|
    ensures ValidPath(EnsureIdsAt(n, gen, at), p)
    ensures EraseIds(At(EnsureIdsAt(n, gen, at), p)) == EraseIds(At(n, p))
    ensures At(EnsureIdsAt(n, gen, at), p).id ==
      if HasId(At(n, p)) then At(n, p).id else Some(gen(at + p))
  {
    if p == [] {
      assert at + p == at;
    } else {
      var c := n.panes[p[0]];
      EnsureIdsAtPath(c, gen, at + [p[0]], p[1..]);
      assert at + [p[0]] + p[1..] == at + p;
    }
  }

  lemma EnsureIdsKeepsNodes(n: LayoutNode, gen: Path -> string)
    ensures forall p :: ValidPath(n, p) ==>
      && ValidPath(EnsureIds(n, gen), p)
      && EraseIds(At(EnsureIds(n, gen), p)) == EraseIds(At(n, p))
      && At(EnsureIds(n, gen), p).id == (if HasId(At(n, p)) then At(n, p).id else Some(gen(p)))
  {
    forall p | ValidPath(n, p)
      ensures ValidPath(EnsureIds(n, gen), p)
      ensures EraseIds(At(EnsureIds(n, gen), p)) == EraseIds(At(n, p))
      ensures At(EnsureIds(n, gen), p).id == (if HasId(At(n, p)) then At(n, p).id else Some(gen(p)))
    {
      EnsureIdsAtPath(n, gen, [], p);
      assert [] + p == p;
    }
  }

  /** The output has no paths the input lacks. */
  lemma {:induction false} EnsureIdsAtPathBack(n: LayoutNode, gen: Path -> string, at: Path, p: Path)
    requires ValidPath(EnsureIdsAt(n, gen, at), p)
    decreases |p|
    ensures ValidPath(n, p)
  {
    if p != [] {
      EnsureIdsAtPathBack(n.panes[p[0]], gen, at + [p[0]], p[1..]);
    }
  }

  /** The tree's own non-empty ids are pairwise different. */
  ghost predicate KeptIdsDistinct(n: LayoutNode) {
    forall p, q | ValidPath(n, p) && ValidPath(n, q) && p != q && HasId(At(n, p)) && HasId(At(n, q)) ::
      At(n, p).id != At(n, q).id
  }

  /** `gen` names different ids for different nodes that need one. */
  ghost predicate GenInjective(n: LayoutNode, gen: Path -> string) {
    forall p, q | ValidPath(n, p) && ValidPath(n, q) && p != q && !HasId(At(n, p)) && !HasId(At(n, q)) ::
      gen(p) != gen(q)
  }

  /** No id `gen` names for a node that needs one is already in the tree. */
  ghost predicate GenFresh(n: LayoutNode, gen: Path -> string) {
    forall p, q | ValidPath(n, p) && ValidPath(n, q) && !HasId(At(n, p)) && HasId(At(n, q)) ::
      At(n, q).id != Some(gen(p))
  }

  /** With a generator that gives fresh, pairwise different ids, every node of
      the result has an id and no id occurs twice. */
  lemma EnsureIdsUnique(n: LayoutNode, gen: Path -> string)
    requires KeptIdsDistinct(n) && GenInjective(n, gen) && GenFresh(n, gen)
    ensures UniqueIds(EnsureIds(n, gen))
  {
    var r := EnsureIds(n, gen);
    EnsureIdsKeepsNodes(n, gen);
    forall p | ValidPath(r, p)
      ensures ValidPath(n, p)
    {
      EnsureIdsAtPathBack(n, gen, [], p);
    }
    UniqueByPaths(r);
  }

  /** A tree whose nodes all have ids is left as it is. */
  lemma {:induction false} EnsureIdsOnIdentified(n: LayoutNode, gen: Path -> string, at: Path)
    requires AllHaveIds(n)
    ensures EnsureIdsAt(n, gen, at) == n
  {
    match n
    case Leaf(_, _, _, _) =>
    case Group(_, ps, _, _, _) =>
      forall i | 0 <= i < |ps|
        ensures EnsureIdsAt(ps[i], gen, at + [i]) == ps[i]
      {
        EnsureIdsOnIdentified(ps[i], gen, at + [i]);
      }
      assert seq(|ps|, i requires 0 <= i < |ps| => EnsureIdsAt(ps[i], gen, at + [i])) == ps;
  }

  /** Applying ensureIds a second time changes nothing, whatever ids the second
      pass would generate. */
  lemma EnsureIdsIdempotent(n: LayoutNode, gen: Path -> string, again: Path -> string)
    requires forall p :: gen(p) != ""
    ensures EnsureIds(EnsureIds(n, gen), again) == EnsureIds(n, gen)
  {
    EnsureIdsOnIdentified(EnsureIds(n, gen), again, []);
  }
}
