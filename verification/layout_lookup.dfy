/**
 * Lookups over the layout tree: the depth-first searches by id
 * (`findNode`, `findParent`, `isDescendant`) exactly as the engine performs
 * them, and `FindPath`, the location of the node those searches land on.
 *
 * Ids are compared as optional values: the engine sometimes searches with an
 * id it read from a node (`parent.id!`, `pane.id!`), which is `undefined` when
 * the node has none, and `undefined === undefined` holds in JavaScript.
 */
module LayoutLookup {
  import opened Options
  import opened LayoutTypes
  import opened LayoutTrees

  // ---------------------------------------------------------------------------
  // Location of the first pre-order match
  // ---------------------------------------------------------------------------

  lemma IdsOfSuffix(cs: seq<LayoutNode>, i: nat)
    requires i < |cs|
    ensures IdsOf(cs[i..]) == Ids(cs[i]) + IdsOf(cs[i + 1..])
  {
    assert cs[i..][1..] == cs[i + 1..];
  }

  /** The path to the first node in pre-order whose id is `key`. */
  function FindPath(n: LayoutNode, key: Option<string>): (r: Option<Path>)
    decreases n, 1, 0
    ensures r.Some? <==> key in Ids(n)
    ensures r.Some? ==> ValidPath(n, r.value) && At(n, r.value).id == key
  {
    if n.id == key then Some([])
    else
      match n
      case Leaf(_, _, _, _) => None
      case Group(_, ps, _, _, _) =>
        assert ps[0..] == ps;
        FindPathFrom(ps, key, 0)
  }

  /** The path, starting with a child index at least `i`, to the first match among `cs[i..]`. */
  function FindPathFrom(cs: seq<LayoutNode>, key: Option<string>, i: nat): (r: Option<Path>)
    requires i <= |cs|
    decreases cs, 0, |cs| - i
    ensures r.Some? <==> key in IdsOf(cs[i..])
    ensures r.Some? ==> |r.value| >= 1 && i <= r.value[0] < |cs|
    ensures r.Some? ==> ValidPath(cs[r.value[0]], r.value[1..]) && At(cs[r.value[0]], r.value[1..]).id == key
  {
    if i == |cs| then None
    else
      IdsOfSuffix(cs, i);
      match FindPath(cs[i], key)
      case Some(q) => Some([i] + q)
      case None => FindPathFrom(cs, key, i + 1)
  }

  // ---------------------------------------------------------------------------
  // findNode
  // ---------------------------------------------------------------------------

  /** Depth-first pre-order search: the node itself when its id matches, else the
      first match among its panes in order, else nothing. */
  function FindNode(n: LayoutNode, key: Option<string>): (r: Option<LayoutNode>)
    decreases n, 1, 0
    ensures r.Some? <==> key in Ids(n)
    ensures r.Some? ==> r.value.id == key && Size(r.value) <= Size(n) && Ids(r.value) <= Ids(n)
    ensures n.id == key ==> r == Some(n)
  {
    if n.id == key then Some(n)
    else
      match n
      case Leaf(_, _, _, _) => None
      case Group(_, ps, _, _, _) =>
        assert ps[0..] == ps;
        FindNodeFrom(ps, key, 0)
  }

  function FindNodeFrom(cs: seq<LayoutNode>, key: Option<string>, i: nat): (r: Option<LayoutNode>)
    requires i <= |cs|
    decreases cs, 0, |cs| - i
    ensures r.Some? <==> key in IdsOf(cs[i..])
    ensures r.Some? ==> r.value.id == key && Size(r.value) <= SizeOf(cs) && Ids(r.value) <= IdsOf(cs)
  {
    if i == |cs| then None
    else
      IdsOfSuffix(cs, i);
      SizeOfElem(cs, i);
      IdsOfElem(cs, i);
      match FindNode(cs[i], key)
      case Some(m) => Some(m)
      case None => FindNodeFrom(cs, key, i + 1)
  }

  /** findNode returns exactly the node at the path FindPath reports. */
  lemma {:induction false} FindNodeAt(n: LayoutNode, key: Option<string>)
    decreases n, 1, 0
    ensures FindPath(n, key).Some? ==> FindNode(n, key) == Some(At(n, FindPath(n, key).value))
    ensures FindPath(n, key).None? ==> FindNode(n, key).None?
  {
    if n.id != key && n.Group? {
      FindNodeFromAt(n.panes, key, 0);
      assert n.panes[0..] == n.panes;
    }
  }

  lemma {:induction false} FindNodeFromAt(cs: seq<LayoutNode>, key: Option<string>, i: nat)
    requires i <= |cs|
    decreases cs, 0, |cs| - i
    ensures FindPathFrom(cs, key, i).Some? ==>
      var q := FindPathFrom(cs, key, i).value;
      FindNodeFrom(cs, key, i) == Some(At(cs[q[0]], q[1..]))
    ensures FindPathFrom(cs, key, i).None? ==> FindNodeFrom(cs, key, i).None?
  {
    if i < |cs| {
      FindNodeAt(cs[i], key);
      FindNodeFromAt(cs, key, i + 1);
      var q := FindPath(cs[i], key);
      if q.Some? {
        assert ([i] + q.value)[1..] == q.value;
      }
    }
  }

  // ---------------------------------------------------------------------------
  // Reference definition: first match in the pre-order sequence
  // ---------------------------------------------------------------------------

  /** The first node of `s` whose id is `key`. */
  function FirstWithId(s: seq<LayoutNode>, key: Option<string>): (r: Option<LayoutNode>)
    ensures r.None? <==> forall j :: 0 <= j < |s| ==> s[j].id != key
    ensures r.Some? ==> exists j :: (0 <= j < |s| && s[j] == r.value && r.value.id == key &&
                                     forall k :: 0 <= k < j ==> s[k].id != key)
  {
    if |s| == 0 then None
    else if s[0].id == key then Some(s[0])
    else
      var r := FirstWithId(s[1..], key);
      assert forall j :: 1 <= j < |s| ==> s[j] == s[1..][j - 1];
      if r.Some? then
        ghost var j :| 0 <= j < |s[1..]| && s[1..][j] == r.value && r.value.id == key &&
          forall k :: 0 <= k < j ==> s[1..][k].id != key;
        assert s[j + 1] == r.value;
        r
      else r
  }

  lemma {:induction false} FirstWithIdConcat(a: seq<LayoutNode>, b: seq<LayoutNode>, key: Option<string>)
    ensures FirstWithId(a + b, key) == if FirstWithId(a, key).Some? then FirstWithId(a, key) else FirstWithId(b, key)
    decreases |a|
  {
    if |a| == 0 {
      assert a + b == b;
    } else {
      assert (a + b)[0] == a[0];
      assert (a + b)[1..] == a[1..] + b;
      FirstWithIdConcat(a[1..], b, key);
    }
  }

  /** findNode's answer is the first node of the pre-order sequence carrying the id. */
  lemma {:induction false} FindNodeIsFirstInPreorder(n: LayoutNode, key: Option<string>)
    decreases n, 1, 0
    ensures FindNode(n, key) == FirstWithId(Preorder(n), key)
  {
    match n
    case Leaf(_, _, _, _) =>
      assert Preorder(n)[1..] == [];
    case Group(_, ps, _, _, _) =>
      assert Preorder(n) == [n] + PreorderOf(ps);
      assert ([n] + PreorderOf(ps))[1..] == PreorderOf(ps);
      if n.id != key {
        FindNodeFromIsFirst(ps, key, 0);
        assert ps[0..] == ps;
      }
  }

  lemma {:induction false} FindNodeFromIsFirst(cs: seq<LayoutNode>, key: Option<string>, i: nat)
    requires i <= |cs|
    decreases cs, 0, |cs| - i
    ensures FindNodeFrom(cs, key, i) == FirstWithId(PreorderOf(cs[i..]), key)
  {
    if i < |cs| {
      assert cs[i..][1..] == cs[i + 1..];
      assert PreorderOf(cs[i..]) == Preorder(cs[i]) + PreorderOf(cs[i + 1..]);
      FirstWithIdConcat(Preorder(cs[i]), PreorderOf(cs[i + 1..]), key);
      FindNodeIsFirstInPreorder(cs[i], key);
      FindNodeFromIsFirst(cs, key, i + 1);
    }
  }

  // ---------------------------------------------------------------------------
  // findParent
  // ---------------------------------------------------------------------------

  /** `Array.prototype.findIndex` on ids: the first index whose id is `key`, or -1. */
  function IndexOf(cs: seq<LayoutNode>, key: Option<string>): (i: int)
    ensures -1 <= i < |cs|
    ensures i >= 0 ==> cs[i].id == key && forall j :: 0 <= j < i ==> cs[j].id != key
    ensures i == -1 ==> forall j :: 0 <= j < |cs| ==> cs[j].id != key
  {
    if |cs| == 0 then -1
    else if cs[0].id == key then 0
    else
      var j := IndexOf(cs[1..], key);
      assert forall k :: 1 <= k < |cs| ==> cs[k] == cs[1..][k - 1];
      if j < 0 then -1 else j + 1
  }

  /** A parent node (absent for the root) and the child's index in its panes. */
  datatype ParentInfo = ParentInfo(parent: Option<LayoutNode>, index: int)

  /** The search for the parent of the first node with id `key`; `parent` is
      the node whose panes hold `n`, absent at the root. */
  function FindParentFrom(n: LayoutNode, key: Option<string>, parent: Option<LayoutNode>): Option<ParentInfo>
    decreases n, 1, 0
  {
    if n.id == key then
      if parent.Some? && parent.value.Group? then
        Some(ParentInfo(parent, IndexOf(parent.value.panes, key)))
      else
        Some(ParentInfo(None, -1))
    else
      match n
      case Leaf(_, _, _, _) => None
      case Group(_, ps, _, _, _) => FindParentIn(n, ps, key, 0)
  }

  function FindParentIn(g: LayoutNode, cs: seq<LayoutNode>, key: Option<string>, i: nat): Option<ParentInfo>
    requires i <= |cs|
    decreases cs, 0, |cs| - i
  {
    if i == |cs| then None
    else
      match FindParentFrom(cs[i], key, Some(g))
      case Some(f) => Some(f)
      case None => FindParentIn(g, cs, key, i + 1)
  }

  function FindParent(root: LayoutNode, key: Option<string>): Option<ParentInfo> {
    FindParentFrom(root, key, None)
  }

  /** What findParent reports for a node reached by path `p` below a given parent. */
  function ParentAnswer(n: LayoutNode, p: Path, parent: Option<LayoutNode>, j: int): ParentInfo
    requires ValidPath(n, p)
  {
    if p == [] then
      if parent.Some? then ParentInfo(parent, j) else ParentInfo(None, -1)
    else
      AtParent(n, p);
      ParentInfo(Some(At(n, Init(p))), Last(p))
  }

  lemma {:induction false} FindParentFromAt(n: LayoutNode, key: Option<string>, parent: Option<LayoutNode>, j: nat)
    requires parent.Some? ==> parent.value.Group? && j < |parent.value.panes| && parent.value.panes[j] == n
    requires parent.Some? ==> forall k :: 0 <= k < j ==> parent.value.panes[k].id != key
    decreases n, 1, 0
    ensures FindPath(n, key).None? ==> FindParentFrom(n, key, parent).None?
    ensures FindPath(n, key).Some? ==>
      FindParentFrom(n, key, parent) == Some(ParentAnswer(n, FindPath(n, key).value, parent, j))
  {
    if n.id == key {
      if parent.Some? {
        assert IndexOf(parent.value.panes, key) == j;
      }
    } else if n.Group? {
      FindParentInAt(n, key, 0);
      assert n.panes[0..] == n.panes;
    }
  }

  lemma {:induction false} FindParentInAt(g: LayoutNode, key: Option<string>, i: nat)
    requires g.Group? && i <= |g.panes|
    requires forall k :: 0 <= k < i ==> key !in Ids(g.panes[k])
    decreases g.panes, 0, |g.panes| - i
    ensures FindPathFrom(g.panes, key, i).None? ==> FindParentIn(g, g.panes, key, i).None?
    ensures FindPathFrom(g.panes, key, i).Some? ==>
      var q := FindPathFrom(g.panes, key, i).value;
      ValidPath(g, q) && FindParentIn(g, g.panes, key, i) == Some(ParentAnswer(g, q, None, -1))
  {
    var cs := g.panes;
    if i < |cs| {
      forall k | 0 <= k < i
        ensures cs[k].id != key
      {
        IdsHasOwn(cs[k]);
      }
      FindParentFromAt(cs[i], key, Some(g), i);
      var fp := FindPath(cs[i], key);
      if fp.None? {
        FindParentInAt(g, key, i + 1);
      } else {
        ParentAnswerBelow(g, i, fp.value);
      }
    }
  }

  /** The answer for path `[i] + p` of a group is the answer for `p` below its
      pane `i`, with the group as the parent. */
  lemma ParentAnswerBelow(g: LayoutNode, i: nat, p: Path)
    requires g.Group? && i < |g.panes| && ValidPath(g.panes[i], p)
    ensures ValidPath(g, [i] + p)
    ensures ParentAnswer(g, [i] + p, None, -1) == ParentAnswer(g.panes[i], p, Some(g), i)
  {
    var q := [i] + p;
    assert q[1..] == p;
    if p == [] {
      assert Init(q) == [];
    } else {
      assert Init(q) == [i] + Init(p);
      assert Init(q)[1..] == Init(p);
      AtParent(g.panes[i], p);
      AtParent(g, q);
    }
  }

  /** findParent lands on the parent of the node FindPath locates, with its index;
      the root reports no parent and index -1. */
  lemma FindParentAtPath(root: LayoutNode, key: Option<string>)
    ensures FindPath(root, key).None? ==> FindParent(root, key).None?
    ensures FindPath(root, key).Some? ==>
      var p := FindPath(root, key).value;
      && (p == [] ==> FindParent(root, key) == Some(ParentInfo(None, -1)))
      && (p != [] ==> (ValidPath(root, Init(p)) &&
                       FindParent(root, key) == Some(ParentInfo(Some(At(root, Init(p))), Last(p)))))
  {
    FindParentFromAt(root, key, None, 0);
    var fp := FindPath(root, key);
    if fp.Some? && fp.value != [] {
      AtParent(root, fp.value);
    }
  }

  /** findParent's answers: nothing for an absent id, (none, -1) for the root's
      id, and otherwise a group holding a node with that id at the reported index. */
  lemma FindParentSpec(root: LayoutNode, key: Option<string>)
    ensures FindParent(root, key).None? <==> key !in Ids(root)
    ensures root.id == key ==> FindParent(root, key) == Some(ParentInfo(None, -1))
    ensures key in Ids(root) && root.id != key ==>
      var f := FindParent(root, key).value;
      && f.parent.Some? && f.parent.value.Group?
      && 0 <= f.index < |f.parent.value.panes|
      && f.parent.value.panes[f.index].id == key
  {
    FindParentAtPath(root, key);
    var fp := FindPath(root, key);
    if fp.Some? && fp.value != [] {
      AtParent(root, fp.value);
    }
  }

  // ---------------------------------------------------------------------------
  // Unique ids: FindPath finds the one node carrying an id
  // ---------------------------------------------------------------------------

  lemma {:induction false} UniqueLocate(n: LayoutNode, p: Path)
    requires UniqueIds(n) && ValidPath(n, p)
    decreases n, 1, 0
    ensures FindPath(n, At(n, p).id) == Some(p)
  {
    if p != [] {
      var key := At(n, p).id;
      var c := n.panes[p[0]];
      var below := IdsOf(n.panes);
      assert key in below by {
        assert At(n, p) == At(c, p[1..]);
        IdsAt(c, p[1..]);
        IdsOfElem(n.panes, p[0]);
      }
      assert Ids(n) == multiset{n.id} + below;
      OwnIdApart(n.id, below, key);
      assert Distinct(below) by {
        SubOfSum(multiset{n.id}, below, Ids(n));
        DistinctSub(below, Ids(n));
      }
      UniqueLocateFrom(n.panes, key, 0, p[0], p[1..]);
      assert [p[0]] + p[1..] == p;
    }
  }

  /** In a distinct multiset `{own} + rest`, no element of `rest` is `own`. */
  lemma OwnIdApart(own: Option<string>, rest: multiset<Option<string>>, key: Option<string>)
    requires Distinct(multiset{own} + rest) && key in rest
    ensures own != key
  {
    assert (multiset{own} + rest)[key] == multiset{own}[key] + rest[key];
    assert multiset{own}[key] == 0;
  }

  lemma {:induction false} UniqueLocateFrom(cs: seq<LayoutNode>, key: Option<string>, i: nat, j: nat, q: Path)
    requires Distinct(IdsOf(cs)) && i <= j < |cs|
    requires ValidPath(cs[j], q) && At(cs[j], q).id == key
    decreases cs, 0, j - i
    ensures FindPathFrom(cs, key, i) == Some([j] + q)
  {
    IdsOfElem(cs, j);
    DistinctSub(Ids(cs[j]), IdsOf(cs));
    if i < j {
      IdsOfTwo(cs, i, j);
      IdsAt(cs[j], q);
      if key in Ids(cs[i]) {
        assert false;
      }
      UniqueLocateFrom(cs, key, i + 1, j, q);
    } else {
      UniqueLocate(cs[j], q);
    }
  }

  /** Every node has an id, and nodes at different paths have different ids. */
  ghost predicate IdsByPath(n: LayoutNode) {
    forall p, q | ValidPath(n, p) && ValidPath(n, q) ::
      At(n, p).id.Some? && (At(n, p).id == At(n, q).id ==> p == q)
  }

  /** The converse of `UniqueLocate`: ids that tell the paths apart are unique. */
  lemma {:induction false} UniqueByPaths(n: LayoutNode)
    requires IdsByPath(n)
    decreases n, 1
    ensures UniqueIds(n)
  {
    assert ValidPath(n, []) && At(n, []) == n;
    if n.Group? {
      var ps := n.panes;
      UniqueByPathsFrom(n, 0);
      assert ps[0..] == ps;
      PathFromIsPath(n, n.id, 0);
      DistinctUnion(multiset{n.id}, IdsOf(ps));
    }
  }

  lemma {:induction false} UniqueByPathsFrom(n: LayoutNode, j: nat)
    requires n.Group? && j <= |n.panes| && IdsByPath(n)
    decreases n, 0, |n.panes| - j
    ensures Distinct(IdsOf(n.panes[j..]))
  {
    var ps := n.panes;
    if j < |ps| {
      var c := ps[j];
      assert ps[j..][1..] == ps[j + 1..];
      assert IdsByPath(c) by {
        forall p, q | ValidPath(c, p) && ValidPath(c, q)
          ensures At(c, p).id.Some? && (At(c, p).id == At(c, q).id ==> p == q)
        {
          ChildPath(n, j, p);
          ChildPath(n, j, q);
        }
      }
      UniqueByPaths(c);
      UniqueByPathsFrom(n, j + 1);
      forall k | k in Ids(c)
        ensures k !in IdsOf(ps[j + 1..])
      {
        var q := FindPath(c, k).value;
        ChildPath(n, j, q);
        PathFromIsPath(n, k, j + 1);
      }
      DistinctUnion(Ids(c), IdsOf(ps[j + 1..]));
    }
  }

  /** A path `FindPathFrom` finds among a group's panes is a path of the group. */
  lemma PathFromIsPath(n: LayoutNode, key: Option<string>, i: nat)
    requires n.Group? && i <= |n.panes|
    ensures
      var r := FindPathFrom(n.panes, key, i);
      r.Some? ==> ValidPath(n, r.value) && At(n, r.value).id == key
  {
  }

  /** A path into child `j` is the path `[j] + p` of the parent. */
  lemma ChildPath(n: LayoutNode, j: nat, p: Path)
    requires n.Group? && j < |n.panes| && ValidPath(n.panes[j], p)
    ensures ValidPath(n, [j] + p) && At(n, [j] + p) == At(n.panes[j], p)
  {
    assert ([j] + p)[1..] == p;
  }

  // ---------------------------------------------------------------------------
  // isDescendant
  // ---------------------------------------------------------------------------

  /** Whether `targetId` names the node found for `nodeKey` or a node below it. */
  function IsDescendant(root: LayoutNode, nodeKey: Option<string>, targetId: string): bool
    decreases Size(root), 1, 0
  {
    match FindNode(root, nodeKey)
    case None => false
    case Some(node) =>
      if node.id == Some(targetId) then true
      else
        match node
        case Leaf(_, _, _, _) => false
        case Group(_, ps, _, _, _) => AnyPaneHolds(ps, targetId, 0)
  }

  /** Whether some pane among `cs[i..]` is, or contains, the node `targetId`. */
  function AnyPaneHolds(cs: seq<LayoutNode>, targetId: string, i: nat): bool
    requires i <= |cs|
    decreases SizeOf(cs), 2, |cs| - i
  {
    if i == |cs| then false
    else
      SizeOfElem(cs, i);
      if IsDescendant(cs[i], cs[i].id, targetId) then true
      else AnyPaneHolds(cs, targetId, i + 1)
  }

  /** isDescendant holds exactly when a node with the first id exists and the
      second id names it or a node of its subtree. */
  lemma {:induction false} IsDescendantSpec(root: LayoutNode, nodeKey: Option<string>, targetId: string)
    decreases Size(root), 1, 0
    ensures IsDescendant(root, nodeKey, targetId) <==>
      FindNode(root, nodeKey).Some? && Some(targetId) in Ids(FindNode(root, nodeKey).value)
  {
    var f := FindNode(root, nodeKey);
    if f.Some? && f.value.Group? {
      var ps := f.value.panes;
      AnyPaneHoldsSpec(ps, targetId, 0);
      assert ps[0..] == ps;
      assert Ids(f.value) == multiset{f.value.id} + IdsOf(ps);
    }
  }

  lemma {:induction false} AnyPaneHoldsSpec(cs: seq<LayoutNode>, targetId: string, i: nat)
    requires i <= |cs|
    decreases SizeOf(cs), 2, |cs| - i
    ensures AnyPaneHolds(cs, targetId, i) <==> Some(targetId) in IdsOf(cs[i..])
  {
    if i < |cs| {
      SizeOfElem(cs, i);
      IdsOfSuffix(cs, i);
      IsDescendantSpec(cs[i], cs[i].id, targetId);
      AnyPaneHoldsSpec(cs, targetId, i + 1);
    }
  }
}
