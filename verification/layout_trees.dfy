/**
 * Structural vocabulary over layout trees: node counts, the multiset of ids,
 * the pre-order node sequence, and paths with lookup and replacement. The
 * engine's in-place edits through a parent reference become replacements at
 * a path here.
 */
module LayoutTrees {
  import opened Options
  import opened LayoutTypes

  /** A path is the sequence of child indices leading from the root to a node. */
  type Path = seq<nat>

  function Init(p: Path): Path
    requires p != []
  {
    p[..|p| - 1]
  }

  function Last(p: Path): nat
    requires p != []
  {
    p[|p| - 1]
  }

  /** A path extended by one index splits back into the two parts. */
  lemma InitLast(p: Path, k: nat)
    ensures p + [k] != [] && Init(p + [k]) == p && Last(p + [k]) == k
  {
    assert (p + [k])[..|p|] == p;
  }

  // ---------------------------------------------------------------------------
  // Node count
  // ---------------------------------------------------------------------------

  function Size(n: LayoutNode): (s: nat)
    decreases n, 1
    ensures s >= 1
  {
    match n
    case Leaf(_, _, _, _) => 1
    case Group(_, ps, _, _, _) => 1 + SizeOf(ps)
  }

  function SizeOf(cs: seq<LayoutNode>): (s: nat)
    decreases cs, 0
    ensures s >= |cs|
  {
    if |cs| == 0 then 0 else Size(cs[0]) + SizeOf(cs[1..])
  }

  lemma {:induction false} SizeOfConcat(a: seq<LayoutNode>, b: seq<LayoutNode>)
    ensures SizeOf(a + b) == SizeOf(a) + SizeOf(b)
    decreases |a|
  {
    if |a| == 0 {
      assert a + b == b;
    } else {
      assert (a + b)[1..] == a[1..] + b;
      SizeOfConcat(a[1..], b);
    }
  }

  /** Replacing one element changes the total by the difference of the two sizes. */
  lemma SizeOfUpdate(cs: seq<LayoutNode>, i: nat, x: LayoutNode)
    requires i < |cs|
    ensures SizeOf(cs[i := x]) + Size(cs[i]) == SizeOf(cs) + Size(x)
  {
    assert cs == cs[..i] + [cs[i]] + cs[i + 1..];
    assert cs[i := x] == cs[..i] + [x] + cs[i + 1..];
    SizeOfConcat(cs[..i] + [cs[i]], cs[i + 1..]);
    SizeOfConcat(cs[..i], [cs[i]]);
    SizeOfConcat(cs[..i] + [x], cs[i + 1..]);
    SizeOfConcat(cs[..i], [x]);
  }

  lemma {:induction false} SizeOfElem(cs: seq<LayoutNode>, i: nat)
    requires i < |cs|
    ensures Size(cs[i]) <= SizeOf(cs)
    decreases i
  {
    if i > 0 {
      assert cs[i] == cs[1..][i - 1];
      SizeOfElem(cs[1..], i - 1);
    }
  }

  // ---------------------------------------------------------------------------
  // Ids
  // ---------------------------------------------------------------------------

  /** The multiset of the ids of all nodes of the tree (absent ids included as None). */
  function Ids(n: LayoutNode): multiset<Option<string>>
    decreases n, 1
  {
    match n
    case Leaf(_, _, _, _) => multiset{n.id}
    case Group(_, ps, _, _, _) => multiset{n.id} + IdsOf(ps)
  }

  function IdsOf(cs: seq<LayoutNode>): multiset<Option<string>>
    decreases cs, 0
  {
    if |cs| == 0 then multiset{} else Ids(cs[0]) + IdsOf(cs[1..])
  }

  /** No node lacks an id and no id occurs twice. */
  predicate Distinct(m: multiset<Option<string>>) {
    None !in m && forall k | k in m :: m[k] == 1
  }

  predicate UniqueIds(n: LayoutNode) {
    Distinct(Ids(n))
  }

  lemma {:induction false} IdsOfConcat(a: seq<LayoutNode>, b: seq<LayoutNode>)
    ensures IdsOf(a + b) == IdsOf(a) + IdsOf(b)
    decreases |a|
  {
    if |a| == 0 {
      assert a + b == b;
    } else {
      assert (a + b)[1..] == a[1..] + b;
      IdsOfConcat(a[1..], b);
    }
  }

  lemma IdsOfSingle(x: LayoutNode)
    ensures IdsOf([x]) == Ids(x)
  {
    assert [x][1..] == [];
  }

  lemma IdsOfPair(a: LayoutNode, b: LayoutNode)
    ensures IdsOf([a, b]) == Ids(a) + Ids(b)
  {
    IdsOfConcat([a], [b]);
    assert [a, b] == [a] + [b];
    IdsOfSingle(a);
    IdsOfSingle(b);
  }

  /** Replacing one element swaps its ids for the new element's ids. */
  lemma IdsOfUpdate(cs: seq<LayoutNode>, i: nat, x: LayoutNode)
    requires i < |cs|
    ensures IdsOf(cs[i := x]) + Ids(cs[i]) == IdsOf(cs) + Ids(x)
  {
    assert cs == cs[..i] + [cs[i]] + cs[i + 1..];
    assert cs[i := x] == cs[..i] + [x] + cs[i + 1..];
    IdsOfConcat(cs[..i] + [cs[i]], cs[i + 1..]);
    IdsOfConcat(cs[..i], [cs[i]]);
    IdsOfConcat(cs[..i] + [x], cs[i + 1..]);
    IdsOfConcat(cs[..i], [x]);
    IdsOfSingle(cs[i]);
    IdsOfSingle(x);
  }

  /** Deleting element i removes exactly that element's ids. */
  lemma IdsOfDelete(cs: seq<LayoutNode>, i: nat)
    requires i < |cs|
    ensures IdsOf(cs[..i] + cs[i + 1..]) + Ids(cs[i]) == IdsOf(cs)
  {
    var a, x, b := cs[..i], cs[i], cs[i + 1..];
    var ma, mx, mb := IdsOf(a), Ids(x), IdsOf(b);
    assert IdsOf(cs) == ma + mx + mb by {
      assert cs == (a + [x]) + b;
      IdsOfConcat(a + [x], b);
      IdsOfConcat(a, [x]);
      IdsOfSingle(x);
    }
    assert IdsOf(a + b) == ma + mb by {
      IdsOfConcat(a, b);
    }
    SwapLast(ma, mx, mb);
  }

  lemma SwapLast(a: multiset<Option<string>>, x: multiset<Option<string>>, b: multiset<Option<string>>)
    ensures a + b + x == a + x + b
  {
  }

  /** Inserting x anywhere adds exactly x's ids. */
  lemma IdsOfInsert(cs: seq<LayoutNode>, i: nat, x: LayoutNode)
    requires i <= |cs|
    ensures IdsOf(cs[..i] + [x] + cs[i..]) == IdsOf(cs) + Ids(x)
  {
    var a, b := cs[..i], cs[i..];
    assert cs == a + b;
    var ma, mx, mb := IdsOf(a), Ids(x), IdsOf(b);
    assert IdsOf(a + [x] + b) == ma + mx + mb by {
      IdsOfConcat(a + [x], b);
      IdsOfConcat(a, [x]);
      IdsOfSingle(x);
    }
    assert IdsOf(cs) == ma + mb by {
      IdsOfConcat(a, b);
    }
    SwapLast(ma, mx, mb);
  }

  lemma IdsOfElem(cs: seq<LayoutNode>, i: nat)
    requires i < |cs|
    ensures Ids(cs[i]) <= IdsOf(cs)
  {
    IdsOfDelete(cs, i);
    SubOfSum(IdsOf(cs[..i] + cs[i + 1..]), Ids(cs[i]), IdsOf(cs));
  }

  lemma SubOfSum(r: multiset<Option<string>>, a: multiset<Option<string>>, w: multiset<Option<string>>)
    requires r + a == w
    ensures a <= w && r <= w
  {
  }

  /** Two different children of one list contribute disjoint parts of its ids. */
  lemma IdsOfTwo(cs: seq<LayoutNode>, i: nat, j: nat)
    requires i < j < |cs|
    ensures Ids(cs[i]) + Ids(cs[j]) <= IdsOf(cs)
  {
    var rest := cs[..j] + cs[j + 1..];
    IdsOfDelete(cs, j);
    assert rest[i] == cs[i];
    IdsOfElem(rest, i);
    AddBoth(Ids(cs[j]), Ids(cs[i]), IdsOf(rest));
  }

  lemma AddBoth(a: multiset<Option<string>>, b: multiset<Option<string>>, c: multiset<Option<string>>)
    requires b <= c
    ensures a + b <= a + c
  {
  }

  /** Sequences whose elements pairwise have the same ids have the same ids. */
  lemma {:induction false} IdsOfPointwise(a: seq<LayoutNode>, b: seq<LayoutNode>)
    requires |a| == |b|
    requires forall i :: 0 <= i < |a| ==> Ids(a[i]) == Ids(b[i])
    ensures IdsOf(a) == IdsOf(b)
    decreases |a|
  {
    if |a| > 0 {
      IdsOfPointwise(a[1..], b[1..]);
    }
  }

  /** Multiset bookkeeping for a replacement: if swapping `gone` for `added`
      turned `whole` into `r`, and `added` is `gone` plus `extra`, then `r` is
      `whole` plus `extra`. */
  lemma Cancel(r: multiset<Option<string>>, gone: multiset<Option<string>>, whole: multiset<Option<string>>,
               added: multiset<Option<string>>, extra: multiset<Option<string>>)
    requires r + gone == whole + added
    requires added == gone + extra
    ensures r == whole + extra
  {
    forall k
      ensures r[k] == (whole + extra)[k]
    {
      assert (r + gone)[k] == (whole + added)[k];
    }
  }

  lemma DistinctSub(a: multiset<Option<string>>, b: multiset<Option<string>>)
    requires a <= b && Distinct(b)
    ensures Distinct(a)
  {
    forall k | k in a
      ensures a[k] == 1
    {
      assert a[k] <= b[k];
    }
  }

  /** A union has distinct ids exactly when both parts do and they share none. */
  lemma DistinctUnion(a: multiset<Option<string>>, b: multiset<Option<string>>)
    ensures Distinct(a + b) <==> Distinct(a) && Distinct(b) && a !! b
  {
    if Distinct(a + b) {
      DistinctSub(a, a + b);
      DistinctSub(b, a + b);
      forall k | k in a
        ensures k !in b
      {
        assert (a + b)[k] == a[k] + b[k];
      }
    }
    if Distinct(a) && Distinct(b) && a !! b {
      forall k | k in a + b
        ensures (a + b)[k] == 1
      {
        assert (a + b)[k] == a[k] + b[k];
        if k in a {
          assert k !in b;
        }
      }
    }
  }

  lemma IdsHasOwn(n: LayoutNode)
    ensures n.id in Ids(n)
  {
  }

  // ---------------------------------------------------------------------------
  // Pre-order sequence
  // ---------------------------------------------------------------------------

  /** The nodes of the tree in depth-first pre-order: a node, then each child's subtree in order. */
  function Preorder(n: LayoutNode): seq<LayoutNode>
    decreases n, 1
  {
    match n
    case Leaf(_, _, _, _) => [n]
    case Group(_, ps, _, _, _) => [n] + PreorderOf(ps)
  }

  function PreorderOf(cs: seq<LayoutNode>): seq<LayoutNode>
    decreases cs, 0
  {
    if |cs| == 0 then [] else Preorder(cs[0]) + PreorderOf(cs[1..])
  }

  // ---------------------------------------------------------------------------
  // Paths
  // ---------------------------------------------------------------------------

  predicate ValidPath(n: LayoutNode, p: Path)
    decreases |p|
  {
    p == [] || (n.Group? && p[0] < |n.panes| && ValidPath(n.panes[p[0]], p[1..]))
  }

  /** The node a valid path leads to. */
  function At(n: LayoutNode, p: Path): LayoutNode
    requires ValidPath(n, p)
    decreases |p|
  {
    if p == [] then n else At(n.panes[p[0]], p[1..])
  }

  /** The tree with the node at `p` replaced by `m`; every node off the path is kept. */
  function ReplaceAt(n: LayoutNode, p: Path, m: LayoutNode): (r: LayoutNode)
    requires ValidPath(n, p)
    decreases |p|
    ensures ValidPath(r, p) && At(r, p) == m
    ensures p != [] ==> r.Group? && r.kind == n.kind && r.id == n.id && |r.panes| == |n.panes|
    ensures p != [] ==> r.defaultSize == n.defaultSize && r.minSize == n.minSize
  {
    if p == [] then m
    else n.(panes := n.panes[p[0] := ReplaceAt(n.panes[p[0]], p[1..], m)])
  }

  /** Extending a path by one index steps into a child of the node reached. */
  lemma {:induction false} ValidPathSnoc(n: LayoutNode, p: Path, k: nat)
    ensures ValidPath(n, p + [k]) <==> ValidPath(n, p) && At(n, p).Group? && k < |At(n, p).panes|
    ensures ValidPath(n, p + [k]) ==> At(n, p + [k]) == At(n, p).panes[k]
    decreases |p|
  {
    if p == [] {
      assert [] + [k] == [k];
      assert [k][1..] == [];
    } else {
      assert (p + [k])[0] == p[0];
      assert (p + [k])[1..] == p[1..] + [k];
      if n.Group? && p[0] < |n.panes| {
        ValidPathSnoc(n.panes[p[0]], p[1..], k);
      }
    }
  }

  /** The parent of a node reached by a non-empty path is a group that holds it at the last index. */
  lemma AtParent(n: LayoutNode, p: Path)
    requires ValidPath(n, p) && p != []
    ensures ValidPath(n, Init(p))
    ensures At(n, Init(p)).Group? && Last(p) < |At(n, Init(p)).panes|
    ensures At(n, Init(p)).panes[Last(p)] == At(n, p)
  {
    assert p == Init(p) + [Last(p)];
    ValidPathSnoc(n, Init(p), Last(p));
  }

  /** Replacing at `p + [k]` is replacing the k-th child of the node at `p`. */
  lemma {:induction false} ReplaceAtSnoc(n: LayoutNode, p: Path, k: nat, m: LayoutNode)
    requires ValidPath(n, p + [k])
    ensures ValidPath(n, p) && At(n, p).Group? && k < |At(n, p).panes|
    ensures ReplaceAt(n, p + [k], m) == ReplaceAt(n, p, At(n, p).(panes := At(n, p).panes[k := m]))
    decreases |p|
  {
    ValidPathSnoc(n, p, k);
    if p == [] {
      assert [] + [k] == [k];
      assert [k][1..] == [];
    } else {
      assert (p + [k])[0] == p[0];
      assert (p + [k])[1..] == p[1..] + [k];
      ReplaceAtSnoc(n.panes[p[0]], p[1..], k, m);
    }
  }

  lemma {:induction false} ReplaceAtTwice(n: LayoutNode, p: Path, a: LayoutNode, b: LayoutNode)
    requires ValidPath(n, p)
    ensures ReplaceAt(ReplaceAt(n, p, a), p, b) == ReplaceAt(n, p, b)
    decreases |p|
  {
    if p != [] {
      ReplaceAtTwice(n.panes[p[0]], p[1..], a, b);
    }
  }

  /** Replacing a subtree removes its ids and adds those of the replacement. */
  lemma {:induction false} IdsReplaceAt(n: LayoutNode, p: Path, m: LayoutNode)
    requires ValidPath(n, p)
    ensures Ids(ReplaceAt(n, p, m)) + Ids(At(n, p)) == Ids(n) + Ids(m)
    decreases |p|
  {
    if p != [] {
      var c := n.panes[p[0]];
      var c' := ReplaceAt(c, p[1..], m);
      var r := ReplaceAt(n, p, m);
      var old_ := At(n, p);
      assert old_ == At(c, p[1..]);
      assert Ids(c') + Ids(old_) == Ids(c) + Ids(m) by {
        IdsReplaceAt(c, p[1..], m);
      }
      var own, before, after := multiset{n.id}, IdsOf(n.panes), IdsOf(n.panes[p[0] := c']);
      assert after + Ids(c) == before + Ids(c') by {
        IdsOfUpdate(n.panes, p[0], c');
      }
      assert Ids(r) == own + after by {
        assert r == n.(panes := n.panes[p[0] := c']);
      }
      assert Ids(n) == own + before;
      Exchange(own, after, before, Ids(c), Ids(c'), Ids(old_), Ids(m));
    }
  }

  /** Replacing a subtree by one holding its ids and `extra` adds exactly `extra`. */
  lemma IdsGrownAt(n: LayoutNode, p: Path, m: LayoutNode, extra: multiset<Option<string>>)
    requires ValidPath(n, p) && Ids(m) == Ids(At(n, p)) + extra
    ensures Ids(ReplaceAt(n, p, m)) == Ids(n) + extra
  {
    IdsReplaceAt(n, p, m);
    Cancel(Ids(ReplaceAt(n, p, m)), Ids(At(n, p)), Ids(n), Ids(m), extra);
  }

  /** The bookkeeping behind IdsReplaceAt: one child swapped inside a list,
      under the same own id. */
  lemma Exchange(own: multiset<Option<string>>, after: multiset<Option<string>>, before: multiset<Option<string>>,
                 cOld: multiset<Option<string>>, cNew: multiset<Option<string>>,
                 gone: multiset<Option<string>>, added: multiset<Option<string>>)
    requires cNew + gone == cOld + added
    requires after + cOld == before + cNew
    ensures own + after + gone == own + before + added
  {
    forall k
      ensures (own + after + gone)[k] == (own + before + added)[k]
    {
      assert (cNew + gone)[k] == (cOld + added)[k];
      assert (after + cOld)[k] == (before + cNew)[k];
    }
  }

  lemma {:induction false} SizeReplaceAt(n: LayoutNode, p: Path, m: LayoutNode)
    requires ValidPath(n, p)
    ensures Size(ReplaceAt(n, p, m)) + Size(At(n, p)) == Size(n) + Size(m)
    decreases |p|
  {
    if p != [] {
      var c := n.panes[p[0]];
      SizeReplaceAt(c, p[1..], m);
      SizeOfUpdate(n.panes, p[0], ReplaceAt(c, p[1..], m));
    }
  }

  /** A subtree's ids are part of the whole tree's ids. */
  lemma {:induction false} IdsAt(n: LayoutNode, p: Path)
    requires ValidPath(n, p)
    ensures Ids(At(n, p)) <= Ids(n)
    ensures At(n, p).id in Ids(n)
    decreases |p|
  {
    if p != [] {
      IdsAt(n.panes[p[0]], p[1..]);
      IdsOfElem(n.panes, p[0]);
    }
  }

  /** Replacing a subtree of a valid tree by a valid tree keeps the tree valid. */
  lemma {:induction false} ValidReplaceAt(n: LayoutNode, p: Path, m: LayoutNode)
    requires ValidPath(n, p) && Valid(n) && Valid(m)
    ensures Valid(ReplaceAt(n, p, m))
    decreases |p|
  {
    if p != [] {
      var c := n.panes[p[0]];
      ValidReplaceAt(c, p[1..], m);
      var r := ReplaceAt(n, p, m);
      assert r.panes == n.panes[p[0] := ReplaceAt(c, p[1..], m)];
      forall i | 0 <= i < |r.panes|
        ensures Valid(r.panes[i])
      {
      }
    }
  }

  lemma {:induction false} ValidAt(n: LayoutNode, p: Path)
    requires ValidPath(n, p) && Valid(n)
    ensures Valid(At(n, p))
    decreases |p|
  {
    if p != [] {
      ValidAt(n.panes[p[0]], p[1..]);
    }
  }
}
