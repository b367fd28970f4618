/** The array-based scene graph's data model: node links stored as indices into
    one list, the traversal orders they define, and the invariants the scene
    operations rely on and keep. */
module SceneGraph {
  import opened Common

  /** One changed-node list per level, so levels index 0 .. MAX_NODE_LEVEL - 1. */
  const MAX_NODE_LEVEL: int := 16

  /** gpumat4: sixteen 32-bit words holding single-precision bit patterns. The
      arithmetic on them is foreign floating-point code and stays uninterpreted. */
  type Mat4 = m: seq<u32> | |m| == 16 witness [0, 0, 0, 0, 0, 0, 0, 0, 0, 0, 0, 0, 0, 0, 0, 0]

  /** gpumat4(): value-initialised, every word zero. */
  const ZERO_MAT: Mat4 := [0, 0, 0, 0, 0, 0, 0, 0, 0, 0, 0, 0, 0, 0, 0, 0]

  /** The identity matrix (QMatrix4x4::setToIdentity): 1.0f, bits 0x3F800000, on the diagonal. */
  const IDENTITY_MAT: Mat4 := [0x3F80_0000, 0, 0, 0,
                                0, 0x3F80_0000, 0, 0,
                                0, 0, 0x3F80_0000, 0,
                                0, 0, 0, 0x3F80_0000]

  /** The product gpumat4(a * b), computed through QMatrix4x4. */
  type MatMul = (Mat4, Mat4) -> Mat4

  /** Hierarchy: five qint32 fields; -1 means "none". */
  datatype Hierarchy = Hierarchy(parent: int, firstChild: int, nextSibling: int, lastSibling: int, level: int)

  /** Every link of node i is -1 or an index, the parent points backwards and the
      children and siblings forwards. The scene operations build only such lists, and the
      forward direction is what makes every walk along the links terminate. */
  predicate LinkedAt(h: seq<Hierarchy>, i: int)
    requires 0 <= i < |h|
  {
    (h[i].parent == -1 || 0 <= h[i].parent < i) &&
    (h[i].firstChild == -1 || i < h[i].firstChild < |h|) &&
    (h[i].nextSibling == -1 || i < h[i].nextSibling < |h|) &&
    (h[i].lastSibling == -1 || i <= h[i].lastSibling < |h|)
  }

  predicate Linked(h: seq<Hierarchy>)
  {
    forall i :: 0 <= i < |h| ==> LinkedAt(h, i)
  }

  /** The level of node i indexes the changed lists, and only at level 0 may it lack a parent. */
  predicate LevelInRangeAt(h: seq<Hierarchy>, i: int)
    requires 0 <= i < |h|
  {
    0 <= h[i].level < MAX_NODE_LEVEL && (h[i].level >= 1 ==> h[i].parent >= 0)
  }

  predicate LevelsInRange(h: seq<Hierarchy>)
  {
    forall i :: 0 <= i < |h| ==> LevelInRangeAt(h, i)
  }

  /** The cached level of node i is 0 for a root and one more than its parent's otherwise. */
  predicate LevelConsistentAt(h: seq<Hierarchy>, i: int)
    requires 0 <= i < |h|
  {
    (h[i].parent < 0 ==> h[i].level == 0) &&
    (0 <= h[i].parent < |h| ==> h[i].level == h[h[i].parent].level + 1)
  }

  predicate LevelsConsistent(h: seq<Hierarchy>)
  {
    forall i :: 0 <= i < |h| ==> LevelConsistentAt(h, i)
  }

  predicate IsNodeOrNone(h: seq<Hierarchy>, n: int)
  {
    n == -1 || 0 <= n < |h|
  }

  /** The sibling chain that starts at s: s, its nextSibling, and so on. */
  function Siblings(h: seq<Hierarchy>, s: int): (r: seq<int>)
    requires Linked(h) && IsNodeOrNone(h, s)
    ensures s == -1 <==> r == []
    ensures r != [] ==> r[0] == s && 0 <= r[|r| - 1] < |h| && h[r[|r| - 1]].nextSibling == -1
    ensures forall k :: 0 <= k < |r| ==> s <= r[k] < |h|
    decreases |h| - s
  {
    if s == -1 then []
    else
      assert LinkedAt(h, s);
      if h[s].nextSibling == -1 then [s]
    else [s] + Siblings(h, h[s].nextSibling)
  }

  /** The children of node n, in sibling order. */
  function Children(h: seq<Hierarchy>, n: int): seq<int>
    requires Linked(h) && 0 <= n < |h|
  {
    assert LinkedAt(h, n);
    Siblings(h, h[n].firstChild)
  }

  /** Every parent field names a node whose child chain holds the node. */
  predicate ParentsAgree(h: seq<Hierarchy>)
  {
    Linked(h) && forall i :: 0 <= i < |h| && 0 <= h[i].parent < |h| ==> i in Children(h, h[i].parent)
  }

  /** Every node on the child chain of p names p as its parent. */
  predicate ChildrenAgree(h: seq<Hierarchy>)
  {
    Linked(h) && forall p, c :: 0 <= p < |h| && c in Children(h, p) ==> 0 <= c < |h| && h[c].parent == p
  }

  /** The pre-order of the subtree at n: n, then the subtrees of its children in sibling order. */
  function Subtree(h: seq<Hierarchy>, n: int): (r: seq<int>)
    requires Linked(h) && 0 <= n < |h|
    ensures |r| >= 1 && r[0] == n
    ensures forall k :: 0 <= k < |r| ==> n <= r[k] < |h|
    decreases |h| - n, 0
  {
    assert LinkedAt(h, n);
    if h[n].firstChild == -1 then [n] else [n] + Forest(h, h[n].firstChild)
  }

  /** The subtrees of the sibling chain that starts at s, one after the other. */
  function Forest(h: seq<Hierarchy>, s: int): (r: seq<int>)
    requires Linked(h) && IsNodeOrNone(h, s)
    ensures s == -1 <==> r == []
    ensures forall k :: 0 <= k < |r| ==> s <= r[k] < |h|
    decreases |h| - s, 1
  {
    if s == -1 then []
    else
      assert LinkedAt(h, s);
      if h[s].nextSibling == -1 then Subtree(h, s)
    else Subtree(h, s) + Forest(h, h[s].nextSibling)
  }

  /** One step of the pre-order at a node: the node, then the forest of its children. */
  lemma SubtreeStep(h: seq<Hierarchy>, n: int)
    requires Linked(h) && 0 <= n < |h|
    ensures IsNodeOrNone(h, h[n].firstChild)
    ensures Subtree(h, n) == [n] + Forest(h, h[n].firstChild)
  {
    assert LinkedAt(h, n);
  }

  /** One step of a forest: the first subtree, then the forest of the next sibling. */
  lemma ForestStep(h: seq<Hierarchy>, s: int)
    requires Linked(h) && 0 <= s < |h|
    ensures IsNodeOrNone(h, h[s].nextSibling)
    ensures Forest(h, s) == Subtree(h, s) + Forest(h, h[s].nextSibling)
  {
    assert LinkedAt(h, s);
  }

  lemma ConcatAssoc(a: seq<int>, b: seq<int>, c: seq<int>)
    ensures a + (b + c) == (a + b) + c
  {
  }

  /** The descendants of n, in pre-order. */
  function Descendants(h: seq<Hierarchy>, n: int): (r: seq<int>)
    requires Linked(h) && 0 <= n < |h|
    ensures Subtree(h, n) == [n] + r
    ensures forall k :: 0 <= k < |r| ==> n < r[k] < |h|
  {
    assert LinkedAt(h, n);
    if h[n].firstChild == -1 then [] else Forest(h, h[n].firstChild)
  }

  /** Every node of the subtree at n has a level that indexes the changed lists. */
  predicate SubtreeLevelsInRange(h: seq<Hierarchy>, n: int)
    requires Linked(h) && 0 <= n < |h|
  {
    forall j :: j in Subtree(h, n) ==> 0 <= h[j].level < MAX_NODE_LEVEL
  }

  /** Below its root, the parent of every node of a subtree lies in the subtree too, when
      child chains and parent fields agree. */
  lemma {:induction false} SubtreeParentIn(h: seq<Hierarchy>, n: int, c: int)
    requires ChildrenAgree(h) && 0 <= n < |h| && c in Subtree(h, n) && c != n
    ensures 0 <= h[c].parent < |h| && h[c].parent in Subtree(h, n)
    decreases |h| - n, 0
  {
    SubtreeStep(h, n);
    var s := h[n].firstChild;
    assert c in Forest(h, s) && LinkedAt(h, n);
    assert forall x :: x in Siblings(h, s) ==> x in Children(h, n);
    ForestParentIn(h, s, n, c);
  }

  lemma {:induction false} ForestParentIn(h: seq<Hierarchy>, s: int, p: int, c: int)
    requires ChildrenAgree(h) && IsNodeOrNone(h, s) && 0 <= p < |h|
    requires forall x :: x in Siblings(h, s) ==> h[x].parent == p
    requires c in Forest(h, s)
    ensures 0 <= c < |h| && (h[c].parent == p || (0 <= h[c].parent < |h| && h[c].parent in Forest(h, s)))
    decreases |h| - s, 1
  {
    ForestStep(h, s);
    var next := h[s].nextSibling;
    assert LinkedAt(h, s);
    assert Siblings(h, s) == [s] + Siblings(h, next);
    if c in Subtree(h, s) {
      if c != s {
        SubtreeParentIn(h, s, c);
      }
    } else {
      ForestParentIn(h, next, p, c);
    }
  }

  /** Below its root, every node of a subtree is deeper than the root. */
  lemma {:induction false} SubtreeDeeper(h: seq<Hierarchy>, n: int, c: int)
    requires ChildrenAgree(h) && LevelsConsistent(h) && 0 <= n < |h| && c in Subtree(h, n) && c != n
    ensures h[c].level > h[n].level
    decreases c
  {
    SubtreeParentIn(h, n, c);
    var p := h[c].parent;
    assert LinkedAt(h, c) && LevelConsistentAt(h, c);
    if p != n {
      SubtreeDeeper(h, n, p);
    }
  }

  /** A subtree that holds a node at some level holds one at every level between its
      root's and that one. */
  lemma {:induction false} SubtreeLevelsContiguous(h: seq<Hierarchy>, n: int, c: int)
    requires ChildrenAgree(h) && LevelsConsistent(h) && 0 <= n < |h| && c in Subtree(h, n)
    ensures forall l :: h[n].level <= l <= h[c].level ==> AtLevel(h, Subtree(h, n), l) != []
    decreases c
  {
    AtLevelMembers(h, Subtree(h, n), h[c].level, c);
    if c != n {
      SubtreeParentIn(h, n, c);
      var p := h[c].parent;
      assert LinkedAt(h, c) && LevelConsistentAt(h, c);
      SubtreeLevelsContiguous(h, n, p);
    }
  }

  /** The ids in `ids` whose node sits at `level`, in their order. */
  function AtLevel(h: seq<Hierarchy>, ids: seq<int>, level: int): (r: seq<int>)
    requires forall k :: 0 <= k < |ids| ==> 0 <= ids[k] < |h|
    ensures |r| <= |ids|
  {
    if ids == [] then []
    else
      var rest := AtLevel(h, ids[..|ids| - 1], level);
      var x := ids[|ids| - 1];
      if h[x].level == level then rest + [x] else rest
  }

  /** The filter keeps exactly the listed ids at that level. */
  lemma {:induction false} AtLevelMembers(h: seq<Hierarchy>, ids: seq<int>, level: int, x: int)
    requires forall k :: 0 <= k < |ids| ==> 0 <= ids[k] < |h|
    ensures x in AtLevel(h, ids, level) <==> x in ids && h[x].level == level
    decreases |ids|
  {
    if ids != [] {
      var ids' := ids[..|ids| - 1];
      AtLevelMembers(h, ids', level, x);
      assert ids == ids' + [ids[|ids| - 1]];
    }
  }

  lemma {:induction false} AtLevelAppend(h: seq<Hierarchy>, a: seq<int>, b: seq<int>, level: int)
    requires forall k :: 0 <= k < |a| ==> 0 <= a[k] < |h|
    requires forall k :: 0 <= k < |b| ==> 0 <= b[k] < |h|
    ensures AtLevel(h, a + b, level) == AtLevel(h, a, level) + AtLevel(h, b, level)
    decreases |b|
  {
    if b == [] {
      assert a + b == a;
    } else {
      var b' := b[..|b| - 1];
      assert (a + b)[..|a + b| - 1] == a + b';
      assert (a + b)[|a + b| - 1] == b[|b| - 1];
      AtLevelAppend(h, a, b', level);
    }
  }

  /** Splitting a pre-order by level loses nothing: over the MAX_NODE_LEVEL lists the
      pieces add up to the whole, when every level is in range. */
  function LevelCounts(h: seq<Hierarchy>, ids: seq<int>, upTo: int): int
    requires forall k :: 0 <= k < |ids| ==> 0 <= ids[k] < |h|
    requires 0 <= upTo <= MAX_NODE_LEVEL
    decreases upTo
  {
    if upTo == 0 then 0 else LevelCounts(h, ids, upTo - 1) + |AtLevel(h, ids, upTo - 1)|
  }

  lemma {:induction false} LevelCountsTotal(h: seq<Hierarchy>, ids: seq<int>)
    requires forall k :: 0 <= k < |ids| ==> 0 <= ids[k] < |h| && 0 <= h[ids[k]].level < MAX_NODE_LEVEL
    ensures LevelCounts(h, ids, MAX_NODE_LEVEL) == |ids|
    decreases |ids|
  {
    if ids == [] {
      LevelCountsEmpty(h, MAX_NODE_LEVEL);
    } else {
      var ids' := ids[..|ids| - 1];
      var x := ids[|ids| - 1];
      LevelCountsTotal(h, ids');
      LevelCountsSnoc(h, ids', x, MAX_NODE_LEVEL);
      assert ids' + [x] == ids;
    }
  }

  lemma {:induction false} LevelCountsEmpty(h: seq<Hierarchy>, upTo: int)
    requires 0 <= upTo <= MAX_NODE_LEVEL
    ensures LevelCounts(h, [], upTo) == 0
    decreases upTo
  {
    if upTo > 0 {
      LevelCountsEmpty(h, upTo - 1);
    }
  }

  lemma AtLevelSnoc(h: seq<Hierarchy>, ids: seq<int>, x: int, level: int)
    requires forall k :: 0 <= k < |ids| ==> 0 <= ids[k] < |h|
    requires 0 <= x < |h|
    ensures AtLevel(h, ids + [x], level) == AtLevel(h, ids, level) + (if h[x].level == level then [x] else [])
  {
    assert (ids + [x])[..|ids + [x]| - 1] == ids;
  }

  lemma {:induction false} LevelCountsSnoc(h: seq<Hierarchy>, ids: seq<int>, x: int, upTo: int)
    requires forall k :: 0 <= k < |ids| ==> 0 <= ids[k] < |h|
    requires 0 <= x < |h| && 0 <= h[x].level < MAX_NODE_LEVEL
    requires 0 <= upTo <= MAX_NODE_LEVEL
    ensures LevelCounts(h, ids + [x], upTo) ==
              LevelCounts(h, ids, upTo) + (if h[x].level < upTo then 1 else 0)
    decreases upTo
  {
    if upTo > 0 {
      LevelCountsSnoc(h, ids, x, upTo - 1);
      AtLevelSnoc(h, ids, x, upTo - 1);
    }
  }

  /** The number of parent steps from n to a node without a parent. */
  function Depth(h: seq<Hierarchy>, n: int): (d: nat)
    requires Linked(h) && 0 <= n < |h|
    ensures d <= n
    decreases n
  {
    assert LinkedAt(h, n);
    if h[n].parent == -1 then 0 else 1 + Depth(h, h[n].parent)
  }

  /** With consistent levels the cached level of a node is its depth. */
  lemma {:induction false} DepthIsLevel(h: seq<Hierarchy>, n: int)
    requires Linked(h) && LevelsConsistent(h) && 0 <= n < |h|
    ensures Depth(h, n) == h[n].level
    decreases n
  {
    assert LinkedAt(h, n) && LevelConsistentAt(h, n);
    if h[n].parent != -1 {
      DepthIsLevel(h, h[n].parent);
    }
  }
}
