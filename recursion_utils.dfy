/** RecursionUtils: the two traversal orders of a reference tree and the
    depth of a node along its parent chain. The traversals are the visit
    sequences the source's callbacks see. */
module RecursionUtils {
  import opened Wrappers
  import opened References

  /** Number of nodes in a tree. */
  function Size(r: FileReference): nat
    decreases r
  {
    1 + SizeAll(r.children)
  }

  function SizeAll(cs: seq<FileReference>): nat
    decreases cs
  {
    if cs == [] then 0 else Size(cs[0]) + SizeAll(cs[1..])
  }

  /** traverseBottomUp: every child's subtree in list order, then the node;
      the node itself comes last. */
  function BottomUp(r: FileReference): (s: seq<FileReference>)
    ensures |s| == Size(r)
    ensures s[|s| - 1] == r
    decreases r
  {
    BottomUpAll(r.children) + [r]
  }

  function BottomUpAll(cs: seq<FileReference>): (s: seq<FileReference>)
    ensures |s| == SizeAll(cs)
    decreases cs
  {
    if cs == [] then [] else BottomUp(cs[0]) + BottomUpAll(cs[1..])
  }

  /** traverseTopDown: the node, then every child's subtree in list order;
      the node itself comes first. */
  function TopDown(r: FileReference): (s: seq<FileReference>)
    ensures |s| == Size(r)
    ensures s[0] == r
    decreases r
  {
    [r] + TopDownAll(r.children)
  }

  function TopDownAll(cs: seq<FileReference>): (s: seq<FileReference>)
    ensures |s| == SizeAll(cs)
    decreases cs
  {
    if cs == [] then [] else TopDown(cs[0]) + TopDownAll(cs[1..])
  }

  // Slices of a concatenation, stated once for any element type.

  lemma InFront<T>(a: seq<T>, b: seq<T>, lo: nat, hi: nat, k: nat)
    requires lo <= hi <= |a| && k < |a|
    ensures (a + b)[lo..hi] == a[lo..hi] && (a + b)[k] == a[k]
  {
  }

  lemma InBack<T>(a: seq<T>, b: seq<T>, lo: nat, hi: nat, k: nat)
    requires |a| <= lo <= hi <= |a| + |b| && |a| <= k < |a| + |b|
    ensures (a + b)[lo..hi] == b[lo - |a|..hi - |a|] && (a + b)[k] == b[k - |a|]
  {
  }

  lemma Whole<T>(a: seq<T>)
    ensures a[0..|a|] == a
  {
  }

  /** The slices a list is cut into around position i, seen from its tail. */
  lemma TailSlices<T>(cs: seq<T>, i: nat)
    requires 0 < i < |cs|
    ensures cs[1..][..i - 1] == cs[1..i] && cs[1..][i - 1] == cs[i] && cs[1..][i..] == cs[i + 1..]
    ensures cs[..i] != [] && cs[..i][0] == cs[0] && cs[..i][1..] == cs[1..i]
  {
  }

  lemma Assoc3<T>(x: seq<T>, a: seq<T>, b: seq<T>, c: seq<T>)
    ensures x + (a + b + c) == (x + a) + b + c
  {
  }

  /** In the bottom-up order every node is immediately preceded by the rest
      of its own subtree: the Size(n) entries ending at n are exactly n's
      own bottom-up traversal, so each descendant is visited before n. */
  lemma {:induction false} BottomUpSubtreeBefore(r: FileReference, k: nat)
    requires k < Size(r)
    ensures Size(BottomUp(r)[k]) <= k + 1
    ensures BottomUp(r)[k + 1 - Size(BottomUp(r)[k])..k + 1] == BottomUp(BottomUp(r)[k])
    decreases r, 1
  {
    var a := BottomUpAll(r.children);
    if k == |a| {
      Whole(BottomUp(r));
    } else {
      BottomUpAllSubtreeBefore(r.children, k);
      InFront(a, [r], k + 1 - Size(a[k]), k + 1, k);
    }
  }

  lemma {:induction false} BottomUpAllSubtreeBefore(cs: seq<FileReference>, k: nat)
    requires k < SizeAll(cs)
    ensures Size(BottomUpAll(cs)[k]) <= k + 1
    ensures BottomUpAll(cs)[k + 1 - Size(BottomUpAll(cs)[k])..k + 1] == BottomUp(BottomUpAll(cs)[k])
    decreases cs, 1
  {
    if k < Size(cs[0]) {
      BottomUpAllFront(cs, k);
    } else {
      BottomUpAllBack(cs, k);
    }
  }

  lemma {:induction false} BottomUpAllFront(cs: seq<FileReference>, k: nat)
    requires cs != [] && k < Size(cs[0])
    ensures Size(BottomUpAll(cs)[k]) <= k + 1
    ensures BottomUpAll(cs)[k + 1 - Size(BottomUpAll(cs)[k])..k + 1] == BottomUp(BottomUpAll(cs)[k])
    decreases cs, 0
  {
    var a := BottomUp(cs[0]);
    assert BottomUpAll(cs) == a + BottomUpAll(cs[1..]);
    BottomUpSubtreeBefore(cs[0], k);
    InFront(a, BottomUpAll(cs[1..]), k + 1 - Size(a[k]), k + 1, k);
  }

  lemma {:induction false} BottomUpAllBack(cs: seq<FileReference>, k: nat)
    requires cs != [] && Size(cs[0]) <= k < SizeAll(cs)
    ensures Size(BottomUpAll(cs)[k]) <= k + 1
    ensures BottomUpAll(cs)[k + 1 - Size(BottomUpAll(cs)[k])..k + 1] == BottomUp(BottomUpAll(cs)[k])
    decreases cs, 0
  {
    var a := BottomUp(cs[0]);
    var b := BottomUpAll(cs[1..]);
    assert BottomUpAll(cs) == a + b;
    BottomUpAllSubtreeBefore(cs[1..], k - |a|);
    InBack(a, b, k + 1 - Size(b[k - |a|]), k + 1, k);
  }

  /** In the top-down order every node is immediately followed by the rest
      of its own subtree: the Size(n) entries starting at n are exactly n's
      own top-down traversal, so n is visited before each descendant. */
  lemma {:induction false} TopDownSubtreeAfter(r: FileReference, k: nat)
    requires k < Size(r)
    ensures k + Size(TopDown(r)[k]) <= Size(r)
    ensures TopDown(r)[k..k + Size(TopDown(r)[k])] == TopDown(TopDown(r)[k])
    decreases r, 1
  {
    var b := TopDownAll(r.children);
    if k == 0 {
      Whole(TopDown(r));
    } else {
      TopDownAllSubtreeAfter(r.children, k - 1);
      InBack([r], b, k, k + Size(b[k - 1]), k);
    }
  }

  lemma {:induction false} TopDownAllSubtreeAfter(cs: seq<FileReference>, k: nat)
    requires k < SizeAll(cs)
    ensures k + Size(TopDownAll(cs)[k]) <= SizeAll(cs)
    ensures TopDownAll(cs)[k..k + Size(TopDownAll(cs)[k])] == TopDown(TopDownAll(cs)[k])
    decreases cs, 1
  {
    if k < Size(cs[0]) {
      TopDownAllFront(cs, k);
    } else {
      TopDownAllBack(cs, k);
    }
  }

  lemma {:induction false} TopDownAllFront(cs: seq<FileReference>, k: nat)
    requires cs != [] && k < Size(cs[0])
    ensures k + Size(TopDownAll(cs)[k]) <= SizeAll(cs)
    ensures TopDownAll(cs)[k..k + Size(TopDownAll(cs)[k])] == TopDown(TopDownAll(cs)[k])
    decreases cs, 0
  {
    var a := TopDown(cs[0]);
    assert TopDownAll(cs) == a + TopDownAll(cs[1..]);
    TopDownSubtreeAfter(cs[0], k);
    InFront(a, TopDownAll(cs[1..]), k, k + Size(a[k]), k);
  }

  lemma {:induction false} TopDownAllBack(cs: seq<FileReference>, k: nat)
    requires cs != [] && Size(cs[0]) <= k < SizeAll(cs)
    ensures k + Size(TopDownAll(cs)[k]) <= SizeAll(cs)
    ensures TopDownAll(cs)[k..k + Size(TopDownAll(cs)[k])] == TopDown(TopDownAll(cs)[k])
    decreases cs, 0
  {
    var a := TopDown(cs[0]);
    var b := TopDownAll(cs[1..]);
    assert TopDownAll(cs) == a + b;
    TopDownAllSubtreeAfter(cs[1..], k - |a|);
    InBack(a, b, k, k + Size(b[k - |a|]), k);
  }

  /** Children are visited in list order: child i's whole bottom-up block
      lies after those of children 0..i-1 and before those of i+1.. . */
  lemma {:induction false} BottomUpChildBlocks(cs: seq<FileReference>, i: nat)
    requires i < |cs|
    ensures BottomUpAll(cs) == BottomUpAll(cs[..i]) + BottomUp(cs[i]) + BottomUpAll(cs[i + 1..])
    decreases i
  {
    if i > 0 {
      BottomUpChildBlocks(cs[1..], i - 1);
      TailSlices(cs, i);
      Assoc3(BottomUp(cs[0]), BottomUpAll(cs[1..i]), BottomUp(cs[i]), BottomUpAll(cs[i + 1..]));
    } else {
      assert cs[..0] == [];
    }
  }

  /** The same for the top-down order. */
  lemma {:induction false} TopDownChildBlocks(cs: seq<FileReference>, i: nat)
    requires i < |cs|
    ensures TopDownAll(cs) == TopDownAll(cs[..i]) + TopDown(cs[i]) + TopDownAll(cs[i + 1..])
    decreases i
  {
    if i > 0 {
      TopDownChildBlocks(cs[1..], i - 1);
      TailSlices(cs, i);
      Assoc3(TopDown(cs[0]), TopDownAll(cs[1..i]), TopDown(cs[i]), TopDownAll(cs[i + 1..]));
    } else {
      assert cs[..0] == [];
    }
  }

  /** Both orders visit the same nodes, each as often as it occurs in the
      tree, and each visits Size(r) nodes. */
  lemma {:induction false} TraversalsSameNodes(r: FileReference)
    ensures |TopDown(r)| == |BottomUp(r)| == Size(r)
    ensures multiset(TopDown(r)) == multiset(BottomUp(r))
    decreases r
  {
    TraversalsAllSameNodes(r.children);
  }

  lemma {:induction false} TraversalsAllSameNodes(cs: seq<FileReference>)
    ensures multiset(TopDownAll(cs)) == multiset(BottomUpAll(cs))
    decreases cs
  {
    if cs != [] {
      TraversalsSameNodes(cs[0]);
      TraversalsAllSameNodes(cs[1..]);
    }
  }

  /** A leaf is its own traversal in both orders. */
  lemma LeafTraversals(r: FileReference)
    requires r.children == []
    ensures TopDown(r) == [r] && BottomUp(r) == [r]
  {
  }

  // ---------------------------------------------------------------------
  // Parent links. The source's nodes point to their parent; here the tree
  // is laid out as an arena in top-down order, entry k holding the index of
  // node k's parent (None for the root).

  /** Every parent link points to an earlier entry, so every chain of
      parent links is finite. */
  ghost predicate ValidParents(parents: seq<Option<nat>>) {
    forall k :: 0 <= k < |parents| && parents[k].Some? ==> parents[k].value < k
  }

  /** The parent table of a tree, aligned with TopDown(r). */
  function ParentTable(r: FileReference): (t: seq<Option<nat>>)
    ensures |t| == Size(r)
  {
    SubTable(r, None, 0)
  }

  function SubTable(r: FileReference, parent: Option<nat>, self: nat): (t: seq<Option<nat>>)
    ensures |t| == Size(r)
    decreases r
  {
    [parent] + ChildTable(r.children, Some(self), self + 1)
  }

  function ChildTable(cs: seq<FileReference>, parent: Option<nat>, start: nat): (t: seq<Option<nat>>)
    ensures |t| == SizeAll(cs)
    decreases cs
  {
    if cs == [] then []
    else SubTable(cs[0], parent, start) + ChildTable(cs[1..], parent, start + Size(cs[0]))
  }

  lemma {:induction false} SubTableLinks(r: FileReference, parent: Option<nat>, self: nat, k: nat)
    requires k < Size(r)
    ensures k == 0 ==> SubTable(r, parent, self)[k] == parent
    ensures k > 0 ==> var e := SubTable(r, parent, self)[k];
      e.Some? && self <= e.value < self + k && TopDown(r)[k] in TopDown(r)[e.value - self].children
    decreases r, 1
  {
    if k > 0 {
      var t := SubTable(r, parent, self);
      ChildTableLinks(r.children, Some(self), self + 1, k - 1);
      assert t[k] == ChildTable(r.children, Some(self), self + 1)[k - 1];
      assert TopDown(r)[k] == TopDownAll(r.children)[k - 1];
    }
  }

  /** The link of entry k of a child list: the list's parent for a child
      itself, or an earlier node of the same list whose child it is. */
  ghost predicate LinkAt(cs: seq<FileReference>, parent: Option<nat>, start: nat, k: nat)
    requires k < SizeAll(cs)
  {
    var e := ChildTable(cs, parent, start)[k];
    (e == parent && TopDownAll(cs)[k] in cs) ||
    (e.Some? && start <= e.value < start + k && TopDownAll(cs)[k] in TopDownAll(cs)[e.value - start].children)
  }

  lemma {:induction false} ChildTableLinks(cs: seq<FileReference>, parent: Option<nat>, start: nat, k: nat)
    requires k < SizeAll(cs)
    ensures LinkAt(cs, parent, start, k)
    decreases cs, 1
  {
    if k < Size(cs[0]) {
      ChildTableFront(cs, parent, start, k);
    } else {
      ChildTableBack(cs, parent, start, k);
    }
  }

  lemma {:induction false} ChildTableFront(cs: seq<FileReference>, parent: Option<nat>, start: nat, k: nat)
    requires cs != [] && k < Size(cs[0])
    ensures LinkAt(cs, parent, start, k)
    decreases cs, 0
  {
    var t0 := SubTable(cs[0], parent, start);
    var a := TopDown(cs[0]);
    assert ChildTable(cs, parent, start) == t0 + ChildTable(cs[1..], parent, start + |a|);
    assert TopDownAll(cs) == a + TopDownAll(cs[1..]);
    SubTableLinks(cs[0], parent, start, k);
    if k > 0 {
      var e := t0[k];
      assert TopDownAll(cs)[e.value - start] == a[e.value - start];
    }
  }

  lemma {:induction false} ChildTableBack(cs: seq<FileReference>, parent: Option<nat>, start: nat, k: nat)
    requires cs != [] && Size(cs[0]) <= k < SizeAll(cs)
    ensures LinkAt(cs, parent, start, k)
    decreases cs, 0
  {
    var h := Size(cs[0]);
    var rest := ChildTable(cs[1..], parent, start + h);
    var b := TopDownAll(cs[1..]);
    assert ChildTable(cs, parent, start) == SubTable(cs[0], parent, start) + rest;
    assert TopDownAll(cs) == TopDown(cs[0]) + b;
    ChildTableLinks(cs[1..], parent, start + h, k - h);
    var e := rest[k - h];
    if e != parent || b[k - h] !in cs[1..] {
      assert TopDownAll(cs)[e.value - start] == b[e.value - start - h];
    }
  }

  /** The parent table of a tree is a valid arena whose links are genuine:
      the root has no parent, and every other node is a child of the node
      its link points to. */
  lemma ParentTableSound(r: FileReference)
    ensures ParentTable(r)[0] == None
    ensures ValidParents(ParentTable(r))
    ensures forall k :: 0 < k < Size(r) ==>
      ParentTable(r)[k].Some? && TopDown(r)[k] in TopDown(r)[ParentTable(r)[k].value].children
  {
    SubTableLinks(r, None, 0, 0);
    forall k | 0 < k < Size(r)
      ensures ParentTable(r)[k].Some? && ParentTable(r)[k].value < k
      ensures TopDown(r)[k] in TopDown(r)[ParentTable(r)[k].value].children
    {
      SubTableLinks(r, None, 0, k);
    }
  }

  /** Number of parent links from entry i up to the root. */
  function Depth(parents: seq<Option<nat>>, i: nat): nat
    requires ValidParents(parents) && i < |parents|
    decreases i
  {
    match parents[i]
    case None => 0
    case Some(p) => Depth(parents, p) + 1
  }

  /** The entry reached from i by following n parent links, if any. */
  function Ancestor(parents: seq<Option<nat>>, i: nat, n: nat): Option<nat>
    requires ValidParents(parents) && i < |parents|
    decreases n
  {
    if n == 0 then Some(i)
    else match parents[i]
      case None => None
      case Some(p) => Ancestor(parents, p, n - 1)
  }

  /** Depth(i) parent links lead from i to a root, one more leads nowhere:
      the depth is exactly the length of the parent chain. The root has
      depth 0 and a child one more than its parent. */
  lemma {:induction false} DepthIsChainLength(parents: seq<Option<nat>>, i: nat)
    requires ValidParents(parents) && i < |parents|
    ensures var a := Ancestor(parents, i, Depth(parents, i));
      a.Some? && a.value < |parents| && parents[a.value].None?
    ensures Ancestor(parents, i, Depth(parents, i) + 1).None?
    ensures parents[i].None? ==> Depth(parents, i) == 0
    ensures parents[i].Some? ==> Depth(parents, i) == Depth(parents, parents[i].value) + 1
    decreases i
  {
    if parents[i].Some? {
      DepthIsChainLength(parents, parents[i].value);
    }
  }

  /** getDepth: counts parent links up to the root. */
  method GetDepth(parents: seq<Option<nat>>, i: nat) returns (depth: nat)
    requires ValidParents(parents) && i < |parents|
    ensures depth == Depth(parents, i)
  {
    depth := 0;
    var current: Option<nat> := parents[i];
    while current.Some?
      invariant current.Some? ==> current.value < |parents|
      invariant Depth(parents, i) == depth + (if current.Some? then Depth(parents, current.value) + 1 else 0)
      decreases if current.Some? then current.value + 1 else 0
    {
      depth := depth + 1;
      current := parents[current.value];
    }
  }
}
