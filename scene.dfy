/** The Scene struct and the operations that grow it, mark nodes as changed, sweep
    the global transforms, look nodes up and name them. */
module Scenes {
  import opened Common
  import opened SceneGraph

  /** Scene: node-indexed parallel lists, one changed list per level, three sparse
      node -> id hashes and two string tables. */
  class Scene {
    var localTransforms: seq<Mat4>
    var globalTransforms: seq<Mat4>
    var changedAtThisFrame: seq<seq<int>>
    var hierarchy: seq<Hierarchy>
    var meshes: map<u32, u32>
    var materialForNode: map<u32, u32>
    var nameForNode: map<u32, u32>
    var names: seq<string>
    var materialNames: seq<string>

    /** A default-constructed Scene: every list and hash empty. */
    constructor ()
      ensures Valid() && hierarchy == [] && localTransforms == [] && globalTransforms == []
      ensures changedAtThisFrame == seq(MAX_NODE_LEVEL, _ => [])
      ensures meshes == map[] && materialForNode == map[] && nameForNode == map[]
      ensures names == [] && materialNames == []
      ensures Agreement(hierarchy)
    {
      localTransforms := [];
      globalTransforms := [];
      changedAtThisFrame := seq(MAX_NODE_LEVEL, _ => []);
      hierarchy := [];
      meshes := map[];
      materialForNode := map[];
      nameForNode := map[];
      names := [];
      materialNames := [];
    }

    /** One transform of each kind per node, one changed list per level, and node ids that
        fit a qint32. */
    predicate Shape()
      reads this
    {
      |changedAtThisFrame| == MAX_NODE_LEVEL &&
      |localTransforms| == |hierarchy| && |globalTransforms| == |hierarchy| &&
      |hierarchy| < TWO_31
    }

    predicate Valid()
      reads this
    {
      Shape() && Linked(hierarchy)
    }

    /** Everything but the global transforms and the changed lists, which are what the
        per-frame operations write. */
    function Frame(): (seq<Mat4>, seq<Hierarchy>, map<u32, u32>, map<u32, u32>, map<u32, u32>, seq<string>, seq<string>)
      reads this
    {
      (localTransforms, hierarchy, meshes, materialForNode, nameForNode, names, materialNames)
    }

    /** The name id of key k, when it is non-negative as a qint32, indexes names_. */
    predicate NameIdOk(k: u32)
      reads this
    {
      k in nameForNode && nameForNode[k] < TWO_31 ==> nameForNode[k] < |names|
    }
  }

  /** Every changed id is a node, and below level 0 every changed node has a parent. */
  predicate ChangedListsValid(h: seq<Hierarchy>, changed: seq<seq<int>>)
  {
    |changed| == MAX_NODE_LEVEL &&
    NodesOk(h, changed[0]) &&
    forall level :: 1 <= level < MAX_NODE_LEVEL ==> ParentsOk(h, changed[level])
  }

  predicate NodesOk(h: seq<Hierarchy>, list: seq<int>)
  {
    forall k :: 0 <= k < |list| ==> 0 <= list[k] < |h|
  }

  /** Every id in the list is a node with a parent. */
  predicate ParentsOk(h: seq<Hierarchy>, list: seq<int>)
  {
    forall k :: 0 <= k < |list| ==> 0 <= list[k] < |h| && 0 <= h[list[k]].parent < |h|
  }

  // ---------------------------------------------------------------- addNode

  /** The last node of the sibling chain that starts at s. */
  function LastSibling(h: seq<Hierarchy>, s: int): (r: int)
    requires Linked(h) && 0 <= s < |h|
    ensures s <= r < |h| && h[r].nextSibling == -1
    decreases |h| - s
  {
    assert LinkedAt(h, s);
    if h[s].nextSibling == -1 then s else LastSibling(h, h[s].nextSibling)
  }

  /** The walk ends at the last node of the sibling chain. */
  lemma {:induction false} LastSiblingIsChainEnd(h: seq<Hierarchy>, s: int)
    requires Linked(h) && 0 <= s < |h|
    ensures LastSibling(h, s) == Siblings(h, s)[|Siblings(h, s)| - 1]
    decreases |h| - s
  {
    assert LinkedAt(h, s);
    if h[s].nextSibling != -1 {
      LastSiblingIsChainEnd(h, h[s].nextSibling);
    }
  }

  /** The node addNode links a new child of `parent` after: -1 when the parent has no
      child yet, otherwise the first child's cached lastSibling, or the end of the chain
      when nothing is cached. */
  function AppendTarget(h: seq<Hierarchy>, parent: int): (r: int)
    requires Linked(h) && 0 <= parent < |h|
    ensures h[parent].firstChild == -1 <==> r == -1
    ensures r != -1 ==> parent < h[parent].firstChild <= r < |h|
  {
    assert LinkedAt(h, parent);
    var s := h[parent].firstChild;
    if s == -1 then -1
    else
      assert LinkedAt(h, s);
      if h[s].lastSibling < 0 then LastSibling(h, s) else h[s].lastSibling
  }

  /** The hierarchy after addNode(parent, level): the new entry, and the link fields
      addNode patches. */
  function AddToHierarchy(h: seq<Hierarchy>, parent: int, level: int): (r: seq<Hierarchy>)
    requires Linked(h) && IsNodeOrNone(h, parent)
    ensures |r| == |h| + 1
    ensures r[|h|] == Hierarchy(parent, -1, -1,
                                if parent >= 0 && h[parent].firstChild == -1 then |h| else -1, level)
    // parent, level and firstChild of every existing node stay, except the parent's first child
    ensures forall i :: 0 <= i < |h| ==>
              r[i].parent == h[i].parent && r[i].level == h[i].level &&
              (i != parent ==> r[i].firstChild == h[i].firstChild)
    ensures parent >= 0 && h[parent].firstChild == -1 ==>
              r[parent] == h[parent].(firstChild := |h|) &&
              forall i :: 0 <= i < |h| && i != parent ==> r[i] == h[i]
    // otherwise the append target gets the new node as nextSibling and the first child caches it
    ensures parent >= 0 && h[parent].firstChild != -1 ==>
              var s := h[parent].firstChild;
              var dest := AppendTarget(h, parent);
              r[dest].nextSibling == |h| && r[s].lastSibling == |h| &&
              (dest != s ==> r[s].nextSibling == h[s].nextSibling) &&
              (dest != s ==> r[dest].lastSibling == h[dest].lastSibling) &&
              forall i :: 0 <= i < |h| && i != s && i != dest ==> r[i] == h[i]
    ensures parent == -1 ==> r == h + [r[|h|]]
  {
    var node := |h|;
    if parent == -1 then
      h + [Hierarchy(parent, -1, -1, -1, level)]
    else
      var s := h[parent].firstChild;
      if s == -1 then
        h[parent := h[parent].(firstChild := node)] + [Hierarchy(parent, -1, -1, node, level)]
      else
        var dest := AppendTarget(h, parent);
        var h1 := h[dest := h[dest].(nextSibling := node)];
        var h2 := h1[s := h1[s].(lastSibling := node)];
        h2 + [Hierarchy(parent, -1, -1, -1, level)]
  }

  /** addNode keeps every link pointing the right way. */
  lemma AddKeepsLinked(h: seq<Hierarchy>, parent: int, level: int)
    requires Linked(h) && IsNodeOrNone(h, parent)
    ensures Linked(AddToHierarchy(h, parent, level))
  {
    var r := AddToHierarchy(h, parent, level);
    forall i | 0 <= i < |r|
      ensures LinkedAt(r, i)
    {
      if i < |h| {
        assert LinkedAt(h, i);
      }
    }
  }

  /** addNode keeps levels in range when the new level is, and keeps them consistent when
      the new level is one more than the parent's. */
  lemma AddKeepsLevels(h: seq<Hierarchy>, parent: int, level: int)
    requires Linked(h) && IsNodeOrNone(h, parent)
    ensures LevelsInRange(h) && 0 <= level < MAX_NODE_LEVEL && (level >= 1 ==> parent >= 0) ==>
              LevelsInRange(AddToHierarchy(h, parent, level))
    ensures LevelsConsistent(h) && level == (if parent == -1 then 0 else h[parent].level + 1) ==>
              LevelsConsistent(AddToHierarchy(h, parent, level))
  {
    var r := AddToHierarchy(h, parent, level);
    if LevelsInRange(h) && 0 <= level < MAX_NODE_LEVEL && (level >= 1 ==> parent >= 0) {
      forall i | 0 <= i < |r|
        ensures LevelInRangeAt(r, i)
      {
        if i < |h| {
          assert LevelInRangeAt(h, i);
        }
      }
    }
    if LevelsConsistent(h) && level == (if parent == -1 then 0 else h[parent].level + 1) {
      forall i | 0 <= i < |r|
        ensures LevelConsistentAt(r, i)
      {
        if i < |h| {
          assert LevelConsistentAt(h, i) && LinkedAt(h, i);
        }
      }
    }
  }

  /** addNode: the new node's id is the old node count, each parallel list grows by one,
      and the hierarchy grows as AddToHierarchy says. */
  method AddNode(scene: Scene, parent: int, level: int) returns (node: int)
    requires scene.Valid() && IsNodeOrNone(scene.hierarchy, parent)
    requires |scene.hierarchy| < TWO_31 - 1
    modifies scene
    ensures node == old(|scene.hierarchy|)
    ensures scene.Valid()
    ensures scene.hierarchy == AddToHierarchy(old(scene.hierarchy), parent, level)
    ensures scene.localTransforms == old(scene.localTransforms) + [ZERO_MAT]
    ensures scene.globalTransforms == old(scene.globalTransforms) + [ZERO_MAT]
    ensures scene.changedAtThisFrame == old(scene.changedAtThisFrame)
    ensures scene.meshes == old(scene.meshes) && scene.materialForNode == old(scene.materialForNode)
    ensures scene.nameForNode == old(scene.nameForNode)
    ensures scene.names == old(scene.names) && scene.materialNames == old(scene.materialNames)
    ensures Agreement(old(scene.hierarchy)) ==> Agreement(scene.hierarchy)
  {
    node := |scene.hierarchy|;
    var h := LinkNewNode(scene.hierarchy, parent, level);
    AddKeepsLinked(scene.hierarchy, parent, level);
    if Agreement(scene.hierarchy) {
      AddKeepsInvariants(scene.hierarchy, parent, level);
    }
    scene.localTransforms := scene.localTransforms + [ZERO_MAT];
    scene.globalTransforms := scene.globalTransforms + [ZERO_MAT];
    scene.hierarchy := h;
  }

  /** The hierarchy part of addNode: the new entry is appended and linked under its parent,
      after the cached lastSibling or, when nothing is cached, after the end of the chain
      found by walking it. */
  method LinkNewNode(h0: seq<Hierarchy>, parent: int, level: int) returns (h: seq<Hierarchy>)
    requires Linked(h0) && IsNodeOrNone(h0, parent)
    ensures h == AddToHierarchy(h0, parent, level)
  {
    var node := |h0|;
    h := h0 + [Hierarchy(parent, 0, 0, -1, 0)];

    if parent > -1 {
      assert LinkedAt(h0, parent);
      var s := h[parent].firstChild;
      if s == -1 {
        h := h[parent := h[parent].(firstChild := node)];
        h := h[node := h[node].(lastSibling := node)];
      } else {
        assert LinkedAt(h0, s);
        var dest := h[s].lastSibling;
        if dest < 0 {
          dest := s;
          while h[dest].nextSibling != -1
            invariant s <= dest < node
            invariant LastSibling(h0, dest) == LastSibling(h0, s)
            decreases node - dest
          {
            assert LinkedAt(h0, dest);
            dest := h[dest].nextSibling;
          }
        }
        assert dest == AppendTarget(h0, parent);
        h := h[dest := h[dest].(nextSibling := node)];
        h := h[s := h[s].(lastSibling := node)];
      }
    }

    h := h[node := h[node].(level := level, nextSibling := -1, firstChild := -1)];
  }

  /** Appending after the last node of a chain extends every suffix of that chain by the
      new node, which becomes the chain's last node. */
  lemma {:induction false} SiblingsExtended(h: seq<Hierarchy>, r: seq<Hierarchy>, x: int, dest: int)
    requires Linked(h) && Linked(r) && |r| == |h| + 1
    requires 0 <= x <= dest < |h| && LastSibling(h, x) == dest
    requires r[dest].nextSibling == |h| && r[|h|].nextSibling == -1
    requires forall i :: x <= i < |h| && i != dest ==> r[i].nextSibling == h[i].nextSibling
    ensures Siblings(r, x) == Siblings(h, x) + [|h|]
    ensures LastSibling(r, x) == |h|
    decreases |h| - x
  {
    assert LinkedAt(h, x) && LinkedAt(r, x);
    if x != dest {
      SiblingsExtended(h, r, h[x].nextSibling, dest);
    } else {
      assert LinkedAt(r, |h|);
    }
  }

  /** addNode makes the new node the last child of its parent, provided the first child's
      lastSibling cache is empty or correct; afterwards that cache names the new last child. */
  lemma AddNodeAppendsChild(h: seq<Hierarchy>, parent: int, level: int)
    requires Linked(h) && 0 <= parent < |h| && LinkedAt(h, parent)
    requires var s := h[parent].firstChild;
             s == -1 || h[s].lastSibling == -1 || h[s].lastSibling == LastSibling(h, s)
    ensures Linked(AddToHierarchy(h, parent, level))
    ensures var r := AddToHierarchy(h, parent, level);
            var first := if h[parent].firstChild == -1 then |h| else h[parent].firstChild;
            r[parent].firstChild == first &&
            Children(r, parent) == Children(h, parent) + [|h|] &&
            r[first].lastSibling == |h| && LastSibling(r, first) == |h|
  {
    AddKeepsLinked(h, parent, level);
    var r := AddToHierarchy(h, parent, level);
    var s := h[parent].firstChild;
    if s != -1 {
      var dest := AppendTarget(h, parent);
      assert r[parent] == h[parent];
      SiblingsExtended(h, r, s, dest);
    } else {
      assert LinkedAt(r, |h|);
    }
  }

  /** Appending a node after dest, the end of a chain, extends by the new node exactly the
      chains that run through dest; every other chain stays as it was. With dest = -1 no
      chain changes. */
  lemma {:induction false} SiblingsAfterAppend(h: seq<Hierarchy>, r: seq<Hierarchy>, x: int, dest: int)
    requires Linked(h) && Linked(r) && |r| == |h| + 1 && IsNodeOrNone(h, x) && -1 <= dest < |h|
    requires r[|h|].nextSibling == -1
    requires dest >= 0 ==> h[dest].nextSibling == -1 && r[dest].nextSibling == |h|
    requires forall i :: 0 <= i < |h| && i != dest ==> r[i].nextSibling == h[i].nextSibling
    ensures Siblings(r, x) == Siblings(h, x) + (if dest >= 0 && dest in Siblings(h, x) then [|h|] else [])
    decreases if x < 0 then 0 else |h| + 1 - x
  {
    if x != -1 {
      assert LinkedAt(h, x) && LinkedAt(r, x);
      if x == dest {
        SiblingsAtAppendPoint(h, r, x);
      } else {
        var n := h[x].nextSibling;
        var a := Siblings(h, n);
        var t := if dest >= 0 && dest in a then [|h|] else [];
        assert Siblings(h, x) == [x] + a;
        assert dest in Siblings(h, x) <==> dest in a;
        SiblingsAfterAppend(h, r, n, dest);
        assert Siblings(r, x) == [x] + (a + t);
        ConcatAssoc([x], a, t);
      }
    }
  }

  /** The chain from the end of a chain, once the new node hangs after it. */
  lemma SiblingsAtAppendPoint(h: seq<Hierarchy>, r: seq<Hierarchy>, x: int)
    requires Linked(h) && Linked(r) && |r| == |h| + 1 && 0 <= x < |h|
    requires r[|h|].nextSibling == -1 && h[x].nextSibling == -1 && r[x].nextSibling == |h|
    ensures Siblings(h, x) == [x] && Siblings(r, x) == [x, |h|]
  {
    assert LinkedAt(h, x) && LinkedAt(r, x) && LinkedAt(r, |h|);
    assert Siblings(r, |h|) == [|h|];
  }

  /** The first child's lastSibling cache is empty or names the end of the parent's chain. */
  predicate CacheOk(h: seq<Hierarchy>, parent: int)
    requires Linked(h) && 0 <= parent < |h|
  {
    assert LinkedAt(h, parent);
    var s := h[parent].firstChild;
    s == -1 || h[s].lastSibling == -1 || h[s].lastSibling == LastSibling(h, s)
  }

  /** After addNode, the children of an old node are its old children, followed by the new
      node when it is the parent the node was added under. */
  lemma ChildrenAfterAdd(h: seq<Hierarchy>, parent: int, level: int, q: int)
    requires ChildrenAgree(h) && IsNodeOrNone(h, parent) && (parent >= 0 ==> CacheOk(h, parent))
    requires 0 <= q < |h|
    ensures Linked(AddToHierarchy(h, parent, level))
    ensures Children(AddToHierarchy(h, parent, level), q) == Children(h, q) + (if q == parent then [|h|] else [])
  {
    AddKeepsLinked(h, parent, level);
    var r := AddToHierarchy(h, parent, level);
    assert LinkedAt(h, q);
    if q == parent {
      AddNodeAppendsChild(h, parent, level);
    } else {
      var dest := if parent >= 0 && h[parent].firstChild != -1 then AppendTarget(h, parent) else -1;
      if dest >= 0 {
        var s := h[parent].firstChild;
        assert LinkedAt(h, parent) && LinkedAt(h, s);
        LastSiblingIsChainEnd(h, s);
        assert dest in Children(h, parent);
      }
      SiblingsAfterAppend(h, r, h[q].firstChild, dest);
    }
  }

  /** addNode keeps parent fields and child chains in agreement, provided the parent's
      lastSibling cache is empty or correct. */
  lemma AddKeepsAgreement(h: seq<Hierarchy>, parent: int, level: int)
    requires ParentsAgree(h) && ChildrenAgree(h) && IsNodeOrNone(h, parent) && (parent >= 0 ==> CacheOk(h, parent))
    ensures ParentsAgree(AddToHierarchy(h, parent, level)) && ChildrenAgree(AddToHierarchy(h, parent, level))
  {
    AddKeepsParents(h, parent, level);
    AddKeepsChildren(h, parent, level);
  }

  lemma AddKeepsParents(h: seq<Hierarchy>, parent: int, level: int)
    requires ParentsAgree(h) && ChildrenAgree(h) && IsNodeOrNone(h, parent) && (parent >= 0 ==> CacheOk(h, parent))
    ensures ParentsAgree(AddToHierarchy(h, parent, level))
  {
    AddKeepsLinked(h, parent, level);
    var r := AddToHierarchy(h, parent, level);
    forall i | 0 <= i < |r| && 0 <= r[i].parent < |r| ensures i in Children(r, r[i].parent)
    {
      AddParentAgreesAt(h, parent, level, i);
    }
  }

  lemma AddParentAgreesAt(h: seq<Hierarchy>, parent: int, level: int, i: int)
    requires ParentsAgree(h) && ChildrenAgree(h) && IsNodeOrNone(h, parent) && (parent >= 0 ==> CacheOk(h, parent))
    requires Linked(AddToHierarchy(h, parent, level)) && 0 <= i <= |h|
    requires 0 <= AddToHierarchy(h, parent, level)[i].parent < |h| + 1
    ensures i in Children(AddToHierarchy(h, parent, level), AddToHierarchy(h, parent, level)[i].parent)
  {
    var r := AddToHierarchy(h, parent, level);
    var q := r[i].parent;
    assert LinkedAt(r, i);
    ChildrenAfterAdd(h, parent, level, q);
    if i < |h| {
      assert LinkedAt(h, i) && r[i].parent == h[i].parent;
      assert i in Children(h, q);
    }
  }

  lemma AddKeepsChildren(h: seq<Hierarchy>, parent: int, level: int)
    requires ChildrenAgree(h) && IsNodeOrNone(h, parent) && (parent >= 0 ==> CacheOk(h, parent))
    ensures ChildrenAgree(AddToHierarchy(h, parent, level))
  {
    AddKeepsLinked(h, parent, level);
    var r := AddToHierarchy(h, parent, level);
    assert Children(r, |h|) == [];
    forall p, c | 0 <= p < |r| && c in Children(r, p) ensures 0 <= c < |r| && r[c].parent == p
    {
      if p < |h| {
        ChildrenAfterAdd(h, parent, level, p);
        if c != |h| {
          assert c in Children(h, p);
        }
      }
    }
  }

  /** Every first child's lastSibling cache is empty or names the end of its chain. */
  predicate CachesOk(h: seq<Hierarchy>)
  {
    Linked(h) && forall p :: 0 <= p < |h| ==> CacheOk(h, p)
  }

  /** The three invariants addNode keeps: parent fields and child chains agree, and every
      lastSibling cache is empty or correct. */
  predicate Agreement(h: seq<Hierarchy>)
  {
    ParentsAgree(h) && ChildrenAgree(h) && CachesOk(h)
  }

  /** addNode keeps every lastSibling cache empty or correct: the parent's first child
      caches the new node, which ends the parent's chain, and every other chain and cache
      stays as it was. */
  lemma AddKeepsCache(h: seq<Hierarchy>, parent: int, level: int)
    requires ChildrenAgree(h) && IsNodeOrNone(h, parent) && CachesOk(h)
    ensures CachesOk(AddToHierarchy(h, parent, level))
  {
    AddKeepsLinked(h, parent, level);
    var r := AddToHierarchy(h, parent, level);
    forall q | 0 <= q < |r|
      ensures CacheOk(r, q)
    {
      if q < |h| {
        AddKeepsCacheAt(h, parent, level, q);
      }
    }
  }

  /** The cache of an old node's first child after addNode. */
  lemma AddKeepsCacheAt(h: seq<Hierarchy>, parent: int, level: int, q: int)
    requires ChildrenAgree(h) && IsNodeOrNone(h, parent) && CachesOk(h) && 0 <= q < |h|
    requires Linked(AddToHierarchy(h, parent, level))
    ensures CacheOk(AddToHierarchy(h, parent, level), q)
  {
    var r := AddToHierarchy(h, parent, level);
    assert CacheOk(h, q) && LinkedAt(h, q);
    if q == parent {
      AddNodeAppendsChild(h, parent, level);
    } else {
      var t := h[q].firstChild;
      assert r[q].firstChild == t;
      if t != -1 {
        ChildrenAfterAdd(h, parent, level, q);
        assert Siblings(r, t) == Siblings(h, t);
        assert r[t].lastSibling == h[t].lastSibling by {
          if parent >= 0 && h[parent].firstChild != -1 {
            AppendPointsElsewhere(h, parent, q);
          }
        }
        LastSiblingIsChainEnd(h, t);
        LastSiblingIsChainEnd(r, t);
      }
    }
  }

  /** The first child of another node is neither the first child of `parent` nor the node
      addNode appends after, since both of those name `parent` as their parent. */
  lemma AppendPointsElsewhere(h: seq<Hierarchy>, parent: int, q: int)
    requires ChildrenAgree(h) && CachesOk(h) && 0 <= parent < |h| && 0 <= q < |h| && q != parent
    requires LinkedAt(h, parent) && h[parent].firstChild != -1 && LinkedAt(h, q) && h[q].firstChild != -1
    ensures h[q].firstChild != h[parent].firstChild && h[q].firstChild != AppendTarget(h, parent)
  {
    var s, t := h[parent].firstChild, h[q].firstChild;
    assert CacheOk(h, parent) && LinkedAt(h, s);
    LastSiblingIsChainEnd(h, s);
    assert AppendTarget(h, parent) in Children(h, parent);
    assert s in Children(h, parent) && t in Children(h, q);
  }

  /** addNode keeps all three invariants, so every hierarchy built by addNode calls from
      the empty one satisfies them. */
  lemma AddKeepsInvariants(h: seq<Hierarchy>, parent: int, level: int)
    requires Agreement(h) && IsNodeOrNone(h, parent)
    ensures Agreement(AddToHierarchy(h, parent, level))
  {
    if parent >= 0 {
      assert CacheOk(h, parent);
    }
    AddKeepsAgreement(h, parent, level);
    AddKeepsCache(h, parent, level);
  }

  /** Two addNode calls in a row keep the invariants, the second one under any node. */
  lemma AddTwiceKeepsInvariants(h: seq<Hierarchy>, p1: int, l1: int, p2: int, l2: int)
    requires Agreement(h) && IsNodeOrNone(h, p1) && -1 <= p2 <= |h|
    ensures Linked(AddToHierarchy(h, p1, l1))
    ensures Agreement(AddToHierarchy(AddToHierarchy(h, p1, l1), p2, l2))
  {
    AddKeepsInvariants(h, p1, l1);
    AddKeepsInvariants(AddToHierarchy(h, p1, l1), p2, l2);
  }

  // ---------------------------------------------------------------- markAsChanged

  /** The changed lists after appending the ids of `ids`, in order, each to the list of
      its own level. */
  function Marked(h: seq<Hierarchy>, changed: seq<seq<int>>, ids: seq<int>): (r: seq<seq<int>>)
    requires |changed| == MAX_NODE_LEVEL && NodesOk(h, ids)
    ensures |r| == MAX_NODE_LEVEL
    ensures forall level :: 0 <= level < MAX_NODE_LEVEL ==> r[level] == changed[level] + AtLevel(h, ids, level)
  {
    seq(MAX_NODE_LEVEL, level requires 0 <= level < MAX_NODE_LEVEL => changed[level] + AtLevel(h, ids, level))
  }

  lemma MarkedAppend(h: seq<Hierarchy>, changed: seq<seq<int>>, a: seq<int>, b: seq<int>)
    requires |changed| == MAX_NODE_LEVEL && NodesOk(h, a) && NodesOk(h, b)
    ensures NodesOk(h, a + b)
    ensures Marked(h, Marked(h, changed, a), b) == Marked(h, changed, a + b)
  {
    var l := Marked(h, Marked(h, changed, a), b);
    var r := Marked(h, changed, a + b);
    forall level | 0 <= level < MAX_NODE_LEVEL
      ensures l[level] == r[level]
    {
      AtLevelAppend(h, a, b, level);
    }
  }

  lemma MarkedSingle(h: seq<Hierarchy>, changed: seq<seq<int>>, node: int)
    requires |changed| == MAX_NODE_LEVEL && 0 <= node < |h| && 0 <= h[node].level < MAX_NODE_LEVEL
    ensures NodesOk(h, [node])
    ensures Marked(h, changed, [node]) == changed[h[node].level := changed[h[node].level] + [node]]
  {
    var r := Marked(h, changed, [node]);
    var e := changed[h[node].level := changed[h[node].level] + [node]];
    forall level | 0 <= level < MAX_NODE_LEVEL
      ensures r[level] == e[level]
    {
      assert [node][..0] == [];
      assert AtLevel(h, [node], level) == (if h[node].level == level then [node] else []);
    }
  }

  /** markAsChanged(node): the node and then all its descendants, in pre-order, each
      appended to the changed list of its own level. Nothing else changes. */
  method MarkAsChanged(scene: Scene, node: int)
    requires scene.Valid() && 0 <= node < |scene.hierarchy| && SubtreeLevelsInRange(scene.hierarchy, node)
    modifies scene
    ensures scene.Frame() == old(scene.Frame())
    ensures scene.globalTransforms == old(scene.globalTransforms)
    ensures scene.changedAtThisFrame ==
              Marked(old(scene.hierarchy), old(scene.changedAtThisFrame), Subtree(old(scene.hierarchy), node))
    decreases |scene.hierarchy| - node
  {
    var h := scene.hierarchy;
    ghost var c0 := scene.changedAtThisFrame;
    assert node in Subtree(h, node) && LinkedAt(h, node);
    var level := h[node].level;
    scene.changedAtThisFrame := scene.changedAtThisFrame[level := scene.changedAtThisFrame[level] + [node]];
    MarkedSingle(h, c0, node);
    ghost var done: seq<int> := [node];
    var s := h[node].firstChild;
    SubtreeStep(h, node);
    while s != -1
      invariant scene.Frame() == old(scene.Frame()) && scene.globalTransforms == old(scene.globalTransforms)
      invariant scene.hierarchy == h
      invariant s == -1 || node < s < |h|
      invariant NodesOk(h, done)
      invariant Subtree(h, node) == done + Forest(h, s)
      invariant scene.changedAtThisFrame == Marked(h, c0, done)
      decreases if s == -1 then 0 else |h| - s
    {
      assert LinkedAt(h, s);
      ForestStep(h, s);
      assert forall j :: j in Subtree(h, s) ==> j in Subtree(h, node);
      MarkAsChanged(scene, s);
      MarkedAppend(h, c0, done, Subtree(h, s));
      ConcatAssoc(done, Subtree(h, s), Forest(h, h[s].nextSibling));
      done := done + Subtree(h, s);
      s := h[s].nextSibling;
    }
    assert done + Forest(h, s) == done;
  }

  /** markAsChanged adds exactly one id per node of the subtree, over all the levels. */
  lemma MarkAsChangedCount(h: seq<Hierarchy>, node: int)
    requires Linked(h) && 0 <= node < |h| && SubtreeLevelsInRange(h, node)
    ensures LevelCounts(h, Subtree(h, node), MAX_NODE_LEVEL) == |Subtree(h, node)|
  {
    LevelCountsTotal(h, Subtree(h, node));
  }

  // ---------------------------------------------------------------- recalculateGlobalTransforms

  /** One node of a level below the root: global(c) := global(parent(c)) * local(c). */
  function ApplyLevel(h: seq<Hierarchy>, local: seq<Mat4>, global: seq<Mat4>, list: seq<int>, mul: MatMul)
    : (r: seq<Mat4>)
    requires |local| == |h| && |global| == |h|
    requires ParentsOk(h, list)
    ensures |r| == |h|
    // only the listed nodes are written
    ensures forall j :: 0 <= j < |h| && j !in list ==> r[j] == global[j]
  {
    if list == [] then global
    else
      var g := ApplyLevel(h, local, global, list[..|list| - 1], mul);
      var c := list[|list| - 1];
      g[c := mul(g[h[c].parent], local[c])]
  }

  /** The sweep over levels i, i+1, ... that stops at the first empty list. */
  function Sweep(h: seq<Hierarchy>, local: seq<Mat4>, global: seq<Mat4>, changed: seq<seq<int>>, i: int, mul: MatMul)
    : (r: (seq<Mat4>, seq<seq<int>>))
    requires |local| == |h| && |global| == |h| && ChangedListsValid(h, changed) && 1 <= i <= MAX_NODE_LEVEL
    ensures |r.0| == |h| && ChangedListsValid(h, r.1)
    decreases MAX_NODE_LEVEL - i
  {
    if i < MAX_NODE_LEVEL && changed[i] != [] then
      ClearKeepsValid(h, changed, i);
      Sweep(h, local, ApplyLevel(h, local, global, changed[i], mul), changed[i := []], i + 1, mul)
    else
      (global, changed)
  }

  /** The first level from i on whose list is empty, or MAX_NODE_LEVEL: the sweep from i
      processes exactly the levels before it. */
  function FirstEmpty(changed: seq<seq<int>>, i: int): (r: int)
    requires |changed| == MAX_NODE_LEVEL && 0 <= i <= MAX_NODE_LEVEL
    ensures i <= r <= MAX_NODE_LEVEL
    ensures r < MAX_NODE_LEVEL ==> changed[r] == []
    ensures forall l :: i <= l < r ==> changed[l] != []
    decreases MAX_NODE_LEVEL - i
  {
    if i < MAX_NODE_LEVEL && changed[i] != [] then FirstEmpty(changed, i + 1) else i
  }

  /** FirstEmpty from i reads only the lists from i on. */
  lemma {:induction false} FirstEmptyAgree(a: seq<seq<int>>, b: seq<seq<int>>, i: int)
    requires |a| == MAX_NODE_LEVEL && |b| == MAX_NODE_LEVEL && 0 <= i <= MAX_NODE_LEVEL
    requires forall l :: i <= l < MAX_NODE_LEVEL ==> a[l] == b[l]
    ensures FirstEmpty(a, i) == FirstEmpty(b, i)
    decreases MAX_NODE_LEVEL - i
  {
    if i < MAX_NODE_LEVEL {
      FirstEmptyAgree(a, b, i + 1);
    }
  }

  /** Node c is in none of the lists that the sweep from i processes. */
  predicate Untouched(changed: seq<seq<int>>, i: int, c: int)
    requires |changed| == MAX_NODE_LEVEL && 0 <= i <= MAX_NODE_LEVEL
  {
    forall l :: i <= l < FirstEmpty(changed, i) ==> c !in changed[l]
  }

  /** Every id in the list of a level is a node at that level, as markAsChanged files them. */
  predicate ListedAtOwnLevel(h: seq<Hierarchy>, changed: seq<seq<int>>)
    requires |changed| == MAX_NODE_LEVEL
  {
    forall l, k :: 0 <= l < MAX_NODE_LEVEL && 0 <= k < |changed[l]| ==>
      0 <= changed[l][k] < |h| && h[changed[l][k]].level == l
  }

  /** The lists `after` are the lists `before` with the levels from i up to e emptied. */
  predicate ClearedBetween(after: seq<seq<int>>, before: seq<seq<int>>, i: int, e: int)
    requires |after| == MAX_NODE_LEVEL && |before| == MAX_NODE_LEVEL
  {
    forall l :: 0 <= l < MAX_NODE_LEVEL ==> after[l] == if i <= l < e then [] else before[l]
  }

  lemma ClearedStep(after: seq<seq<int>>, changed: seq<seq<int>>, i: int, e: int)
    requires |after| == MAX_NODE_LEVEL && |changed| == MAX_NODE_LEVEL && 0 <= i < e <= MAX_NODE_LEVEL
    requires ClearedBetween(after, changed[i := []], i + 1, e)
    ensures ClearedBetween(after, changed, i, e)
  {
    forall l | 0 <= l < MAX_NODE_LEVEL ensures after[l] == if i <= l < e then [] else changed[l]
    {
      if l != i {
        assert changed[i := []][l] == changed[l];
      }
    }
  }

  /** The sweep from i empties the lists it processes, the levels from i up to the first
      empty one, and leaves every other list exactly as it was. */
  lemma {:induction false} SweepClears(h: seq<Hierarchy>, local: seq<Mat4>, global: seq<Mat4>, changed: seq<seq<int>>,
                                       i: int, mul: MatMul)
    requires |local| == |h| && |global| == |h| && ChangedListsValid(h, changed) && 1 <= i <= MAX_NODE_LEVEL
    ensures ClearedBetween(Sweep(h, local, global, changed, i, mul).1, changed, i, FirstEmpty(changed, i))
    decreases MAX_NODE_LEVEL - i
  {
    if i < MAX_NODE_LEVEL && changed[i] != [] {
      ClearKeepsValid(h, changed, i);
      SweepClears(h, local, ApplyLevel(h, local, global, changed[i], mul), changed[i := []], i + 1, mul);
      SweepClearsStep(h, local, global, changed, i, mul);
    } else {
      assert ClearedBetween(changed, changed, i, i);
    }
  }

  lemma SweepClearsStep(h: seq<Hierarchy>, local: seq<Mat4>, global: seq<Mat4>, changed: seq<seq<int>>, i: int, mul: MatMul)
    requires |local| == |h| && |global| == |h| && ChangedListsValid(h, changed)
    requires 1 <= i < MAX_NODE_LEVEL && changed[i] != [] && ChangedListsValid(h, changed[i := []])
    requires ClearedBetween(Sweep(h, local, ApplyLevel(h, local, global, changed[i], mul), changed[i := []], i + 1, mul).1,
                            changed[i := []], i + 1, FirstEmpty(changed[i := []], i + 1))
    ensures ClearedBetween(Sweep(h, local, global, changed, i, mul).1, changed, i, FirstEmpty(changed, i))
  {
    SweepStep(h, local, global, changed, i, mul);
    FirstEmptyAgree(changed[i := []], changed, i + 1);
    ClearedStep(Sweep(h, local, global, changed, i, mul).1, changed, i, FirstEmpty(changed, i));
  }

  /** A node that no processed list names keeps its global transform through the sweep. */
  lemma {:induction false} SweepUnlisted(h: seq<Hierarchy>, local: seq<Mat4>, global: seq<Mat4>, changed: seq<seq<int>>,
                                         i: int, mul: MatMul, c: int)
    requires |local| == |h| && |global| == |h| && ChangedListsValid(h, changed) && 1 <= i <= MAX_NODE_LEVEL
    requires 0 <= c < |h| && Untouched(changed, i, c)
    ensures Sweep(h, local, global, changed, i, mul).0[c] == global[c]
    decreases MAX_NODE_LEVEL - i
  {
    if i < MAX_NODE_LEVEL && changed[i] != [] {
      ClearKeepsValid(h, changed, i);
      UntouchedStep(changed, i, c);
      SweepUnlisted(h, local, ApplyLevel(h, local, global, changed[i], mul), changed[i := []], i + 1, mul, c);
    }
  }

  /** A node untouched from level i is not in list i, and stays untouched from level i + 1
      once list i is emptied. */
  lemma UntouchedStep(changed: seq<seq<int>>, i: int, c: int)
    requires |changed| == MAX_NODE_LEVEL && 0 <= i < MAX_NODE_LEVEL && changed[i] != [] && Untouched(changed, i, c)
    ensures c !in changed[i] && Untouched(changed[i := []], i + 1, c)
  {
    FirstEmptyAgree(changed[i := []], changed, i + 1);
  }

  /** No node of the list is the parent of a node of the list. */
  predicate NoListedParent(h: seq<Hierarchy>, list: seq<int>)
  {
    forall k, j :: 0 <= k < |list| && 0 <= j < |list| && 0 <= list[k] < |h| ==> list[j] != h[list[k]].parent
  }

  /** When no listed node is the parent of a listed node, each listed node ends with its
      parent's global transform times its own local one. */
  lemma {:induction false} ApplyLevelValues(h: seq<Hierarchy>, local: seq<Mat4>, global: seq<Mat4>, list: seq<int>,
                                            mul: MatMul)
    requires |local| == |h| && |global| == |h| && ParentsOk(h, list) && NoListedParent(h, list)
    ensures var r := ApplyLevel(h, local, global, list, mul);
            forall k :: 0 <= k < |list| ==> r[list[k]] == mul(global[h[list[k]].parent], local[list[k]])
    decreases |list|
  {
    if list != [] {
      var init := list[..|list| - 1];
      var c := list[|list| - 1];
      ApplyLevelValues(h, local, global, init, mul);
      var g := ApplyLevel(h, local, global, init, mul);
      var r := ApplyLevel(h, local, global, list, mul);
      assert h[c].parent !in init;
      forall k | 0 <= k < |list| ensures r[list[k]] == mul(global[h[list[k]].parent], local[list[k]])
      {
        if list[k] != c {
          assert list[k] == init[k];
        }
      }
    }
  }

  /** Over consistent levels, the parent of a node listed at level i sits at level i - 1, so
      no list names the parent of one of its own nodes. */
  lemma ParentsNotListedAlongside(h: seq<Hierarchy>, changed: seq<seq<int>>, i: int)
    requires ChangedListsValid(h, changed) && LevelsConsistent(h) && ListedAtOwnLevel(h, changed)
    requires 1 <= i < MAX_NODE_LEVEL
    ensures NoListedParent(h, changed[i])
  {
    var list := changed[i];
    assert ParentsOk(h, list);
    forall k, j | 0 <= k < |list| && 0 <= j < |list| ensures list[j] != h[list[k]].parent
    {
      assert LevelConsistentAt(h, list[k]);
    }
  }

  /** A node above level i is in none of the lists from i on. */
  lemma LevelUntouched(h: seq<Hierarchy>, changed: seq<seq<int>>, i: int, c: int)
    requires |changed| == MAX_NODE_LEVEL && ListedAtOwnLevel(h, changed) && 0 <= i <= MAX_NODE_LEVEL
    requires 0 <= c < |h| && h[c].level < i
    ensures Untouched(changed, i, c)
  {
    forall l | i <= l < FirstEmpty(changed, i) ensures c !in changed[l]
    {
      assert forall k :: 0 <= k < |changed[l]| ==> changed[l][k] != c;
    }
  }

  /** Every node listed at a level from i up to the first empty list has a parent, and r
      holds for it its parent's transform in r times its own local one. */
  predicate ParentTimesLocal(h: seq<Hierarchy>, local: seq<Mat4>, r: seq<Mat4>, changed: seq<seq<int>>, i: int, mul: MatMul)
    requires |local| == |h| && |r| == |h| && |changed| == MAX_NODE_LEVEL && 0 <= i <= MAX_NODE_LEVEL
  {
    forall l, k :: i <= l < FirstEmpty(changed, i) && 0 <= k < |changed[l]| ==>
      0 <= changed[l][k] < |h| && 0 <= h[changed[l][k]].parent < |h| &&
      r[changed[l][k]] == mul(r[h[changed[l][k]].parent], local[changed[l][k]])
  }

  /** The sweep's promise: every node of a processed level ends with its parent's new global
      transform times its own local one, when the lists hold each node at its own level over
      consistent levels. */
  lemma {:induction false} SweepValues(h: seq<Hierarchy>, local: seq<Mat4>, global: seq<Mat4>, changed: seq<seq<int>>,
                                       i: int, mul: MatMul)
    requires |local| == |h| && |global| == |h| && ChangedListsValid(h, changed) && 1 <= i <= MAX_NODE_LEVEL
    requires LevelsConsistent(h) && ListedAtOwnLevel(h, changed)
    ensures ParentTimesLocal(h, local, Sweep(h, local, global, changed, i, mul).0, changed, i, mul)
    decreases MAX_NODE_LEVEL - i, 1
  {
    if i < MAX_NODE_LEVEL && changed[i] != [] {
      SweepValuesStep(h, local, global, changed, i, mul);
    } else {
      assert FirstEmpty(changed, i) == i;
      NothingProcessed(h, local, Sweep(h, local, global, changed, i, mul).0, changed, i, mul);
    }
  }

  /** Where the sweep stops at once, there is nothing for ParentTimesLocal to hold of. */
  lemma NothingProcessed(h: seq<Hierarchy>, local: seq<Mat4>, r: seq<Mat4>, changed: seq<seq<int>>, i: int, mul: MatMul)
    requires |local| == |h| && |r| == |h| && |changed| == MAX_NODE_LEVEL && 0 <= i <= MAX_NODE_LEVEL
    requires FirstEmpty(changed, i) == i
    ensures ParentTimesLocal(h, local, r, changed, i, mul)
  {
  }

  /** One level of SweepValues: the nodes of level i get their values from ApplyLevel and
      keep them through the rest of the sweep, and so do their parents one level up. */
  lemma SweepValuesStep(h: seq<Hierarchy>, local: seq<Mat4>, global: seq<Mat4>, changed: seq<seq<int>>, i: int, mul: MatMul)
    requires |local| == |h| && |global| == |h| && ChangedListsValid(h, changed)
    requires LevelsConsistent(h) && ListedAtOwnLevel(h, changed)
    requires 1 <= i < MAX_NODE_LEVEL && changed[i] != []
    ensures ParentTimesLocal(h, local, Sweep(h, local, global, changed, i, mul).0, changed, i, mul)
    decreases MAX_NODE_LEVEL - i, 0
  {
    var c1 := changed[i := []];
    ClearKeepsValid(h, changed, i);
    ClearKeepsListed(h, changed, i);
    var g := ApplyLevel(h, local, global, changed[i], mul);
    SweepValues(h, local, g, c1, i + 1, mul);
    SweepStep(h, local, global, changed, i, mul);
    var r := Sweep(h, local, g, c1, i + 1, mul).0;
    forall l, k | i <= l < FirstEmpty(changed, i) && 0 <= k < |changed[l]|
      ensures 0 <= changed[l][k] < |h| && 0 <= h[changed[l][k]].parent < |h| &&
              r[changed[l][k]] == mul(r[h[changed[l][k]].parent], local[changed[l][k]])
    {
      SweepValuesAt(h, local, global, changed, i, mul, l, k);
    }
  }

  /** One node of a level the sweep from i processes: level i takes its value from
      ApplyLevel, a later level from the rest of the sweep. */
  lemma SweepValuesAt(h: seq<Hierarchy>, local: seq<Mat4>, global: seq<Mat4>, changed: seq<seq<int>>, i: int, mul: MatMul,
                      l: int, k: int)
    requires |local| == |h| && |global| == |h| && ChangedListsValid(h, changed)
    requires LevelsConsistent(h) && ListedAtOwnLevel(h, changed)
    requires 1 <= i < MAX_NODE_LEVEL && changed[i] != [] && ChangedListsValid(h, changed[i := []])
    requires ParentTimesLocal(h, local, Sweep(h, local, ApplyLevel(h, local, global, changed[i], mul), changed[i := []], i + 1, mul).0,
                              changed[i := []], i + 1, mul)
    requires i <= l < FirstEmpty(changed, i) && 0 <= k < |changed[l]|
    ensures var r := Sweep(h, local, ApplyLevel(h, local, global, changed[i], mul), changed[i := []], i + 1, mul).0;
            0 <= changed[l][k] < |h| && 0 <= h[changed[l][k]].parent < |h| &&
            r[changed[l][k]] == mul(r[h[changed[l][k]].parent], local[changed[l][k]])
  {
    var c1 := changed[i := []];
    if l == i {
      ParentsNotListedAlongside(h, changed, i);
      ApplyLevelValues(h, local, global, changed[i], mul);
      AppliedNodeKept(h, local, global, changed, i, mul, k);
    } else {
      FirstEmptyAgree(c1, changed, i + 1);
      assert c1[l] == changed[l];
    }
  }

  /** A node of level i keeps through the rest of the sweep the value ApplyLevel gave it, and
      so does its parent one level up. */
  lemma AppliedNodeKept(h: seq<Hierarchy>, local: seq<Mat4>, global: seq<Mat4>, changed: seq<seq<int>>, i: int, mul: MatMul,
                        k: int)
    requires |local| == |h| && |global| == |h| && ChangedListsValid(h, changed)
    requires LevelsConsistent(h) && ListedAtOwnLevel(h, changed)
    requires 1 <= i < MAX_NODE_LEVEL && 0 <= k < |changed[i]| && ChangedListsValid(h, changed[i := []])
    requires forall j :: 0 <= j < |changed[i]| ==> changed[i][j] != h[changed[i][k]].parent
    ensures var c := changed[i][k];
            var g := ApplyLevel(h, local, global, changed[i], mul);
            var r := Sweep(h, local, g, changed[i := []], i + 1, mul).0;
            0 <= h[c].parent < |h| && r[c] == g[c] && r[h[c].parent] == g[h[c].parent] && g[h[c].parent] == global[h[c].parent]
  {
    var list := changed[i];
    var c1 := changed[i := []];
    var g := ApplyLevel(h, local, global, list, mul);
    var c := list[k];
    assert ParentsOk(h, list);
    var p := h[c].parent;
    assert LevelConsistentAt(h, c);
    assert ListedAtOwnLevel(h, c1);
    LevelUntouched(h, c1, i + 1, c);
    LevelUntouched(h, c1, i + 1, p);
    SweepUnlisted(h, local, g, c1, i + 1, mul, c);
    SweepUnlisted(h, local, g, c1, i + 1, mul, p);
  }

  /** Emptying one changed list keeps the lists valid. */
  lemma ClearKeepsValid(h: seq<Hierarchy>, changed: seq<seq<int>>, i: int)
    requires ChangedListsValid(h, changed) && 0 <= i < MAX_NODE_LEVEL
    ensures ChangedListsValid(h, changed[i := []])
  {
    var c := changed[i := []];
    forall level | 1 <= level < MAX_NODE_LEVEL
      ensures ParentsOk(h, c[level])
    {
      if level != i {
        assert c[level] == changed[level];
      }
    }
  }

  lemma ClearKeepsListed(h: seq<Hierarchy>, changed: seq<seq<int>>, i: int)
    requires |changed| == MAX_NODE_LEVEL && ListedAtOwnLevel(h, changed) && 0 <= i < MAX_NODE_LEVEL
    ensures ListedAtOwnLevel(h, changed[i := []])
  {
    var c := changed[i := []];
    forall l, k | 0 <= l < MAX_NODE_LEVEL && 0 <= k < |c[l]|
      ensures 0 <= c[l][k] < |h| && h[c[l][k]].level == l
    {
      assert l != i && c[l] == changed[l];
    }
  }

  /** recalculateGlobalTransforms as a function of the state: the first level-0 node takes
      its local transform, then the levels below are swept in order. */
  function Recalc(h: seq<Hierarchy>, local: seq<Mat4>, global: seq<Mat4>, changed: seq<seq<int>>, mul: MatMul)
    : (r: (seq<Mat4>, seq<seq<int>>))
    requires |local| == |h| && |global| == |h| && ChangedListsValid(h, changed)
    ensures |r.0| == |h| && ChangedListsValid(h, r.1)
  {
    ClearKeepsValid(h, changed, 0);
    var g0 := if changed[0] != [] then global[changed[0][0] := local[changed[0][0]]] else global;
    Sweep(h, local, g0, changed[0 := []], 1, mul)
  }

  /** Of the level-0 list only the first node takes its local transform; the other roots
      listed there keep their global transforms unless a processed level lists them too. */
  lemma RecalcRootOnlyFirst(h: seq<Hierarchy>, local: seq<Mat4>, global: seq<Mat4>, changed: seq<seq<int>>, mul: MatMul)
    requires |local| == |h| && |global| == |h| && ChangedListsValid(h, changed) && changed[0] != []
    ensures var r := Recalc(h, local, global, changed, mul).0;
            (Untouched(changed, 1, changed[0][0]) ==> r[changed[0][0]] == local[changed[0][0]]) &&
            forall k :: 1 <= k < |changed[0]| && changed[0][k] != changed[0][0] && Untouched(changed, 1, changed[0][k]) ==>
              r[changed[0][k]] == global[changed[0][k]]
  {
    var c0 := changed[0 := []];
    ClearKeepsValid(h, changed, 0);
    FirstEmptyAgree(c0, changed, 1);
    var root := changed[0][0];
    var g0 := global[root := local[root]];
    if Untouched(changed, 1, root) {
      SweepUnlisted(h, local, g0, c0, 1, mul, root);
    }
    forall k | 1 <= k < |changed[0]| && changed[0][k] != root && Untouched(changed, 1, changed[0][k])
      ensures Recalc(h, local, global, changed, mul).0[changed[0][k]] == global[changed[0][k]]
    {
      SweepUnlisted(h, local, g0, c0, 1, mul, changed[0][k]);
    }
  }

  /** After a recalculation the root level and level 1 are empty, the levels from 1 up to
      the first empty list are emptied, and every list after it is left exactly as it was. */
  lemma RecalcClears(h: seq<Hierarchy>, local: seq<Mat4>, global: seq<Mat4>, changed: seq<seq<int>>, mul: MatMul)
    requires |local| == |h| && |global| == |h| && ChangedListsValid(h, changed)
    ensures var r := Recalc(h, local, global, changed, mul);
            r.1[0] == [] && r.1[1] == [] &&
            forall l :: 1 <= l < MAX_NODE_LEVEL ==> r.1[l] == if l < FirstEmpty(changed, 1) then [] else changed[l]
  {
    ClearKeepsValid(h, changed, 0);
    var g0 := if changed[0] != [] then global[changed[0][0] := local[changed[0][0]]] else global;
    SweepClears(h, local, g0, changed[0 := []], 1, mul);
    FirstEmptyAgree(changed[0 := []], changed, 1);
    var r := Recalc(h, local, global, changed, mul);
    assert ClearedBetween(r.1, changed[0 := []], 1, FirstEmpty(changed, 1));
    assert r.1[0] == [];
  }

  /** recalculateGlobalTransforms' promise, for lists that hold each node at its own level
      over consistent levels: the first level-0 node takes its local transform, every node of
      a processed level its parent's new global transform times its own local one, and every
      other node keeps its global transform. */
  lemma RecalcValues(h: seq<Hierarchy>, local: seq<Mat4>, global: seq<Mat4>, changed: seq<seq<int>>, mul: MatMul)
    requires |local| == |h| && |global| == |h| && ChangedListsValid(h, changed)
    requires LevelsConsistent(h) && ListedAtOwnLevel(h, changed)
    ensures var r := Recalc(h, local, global, changed, mul).0;
            (changed[0] != [] ==> r[changed[0][0]] == local[changed[0][0]]) &&
            (forall l, k :: 1 <= l < FirstEmpty(changed, 1) && 0 <= k < |changed[l]| ==>
               0 <= h[changed[l][k]].parent < |h| &&
               r[changed[l][k]] == mul(r[h[changed[l][k]].parent], local[changed[l][k]])) &&
            (forall c :: 0 <= c < |h| && (changed[0] == [] || c != changed[0][0]) && Untouched(changed, 1, c) ==>
               r[c] == global[c])
  {
    var c0 := changed[0 := []];
    ClearKeepsValid(h, changed, 0);
    FirstEmptyAgree(c0, changed, 1);
    assert ListedAtOwnLevel(h, c0);
    var g0 := if changed[0] != [] then global[changed[0][0] := local[changed[0][0]]] else global;
    SweepValues(h, local, g0, c0, 1, mul);
    if changed[0] != [] {
      LevelUntouched(h, c0, 1, changed[0][0]);
      SweepUnlisted(h, local, g0, c0, 1, mul, changed[0][0]);
    }
    forall c | 0 <= c < |h| && (changed[0] == [] || c != changed[0][0]) && Untouched(changed, 1, c)
      ensures Recalc(h, local, global, changed, mul).0[c] == global[c]
    {
      SweepUnlisted(h, local, g0, c0, 1, mul, c);
    }
  }

  /** No node changed at any level, as at construction. */
  const NO_CHANGES: seq<seq<int>> := seq(MAX_NODE_LEVEL, _ => [])

  /** markAsChanged keeps the changed lists valid and each node filed at its own level, over
      consistent levels. */
  lemma MarkedValid(h: seq<Hierarchy>, changed: seq<seq<int>>, ids: seq<int>)
    requires Linked(h) && LevelsConsistent(h) && ChangedListsValid(h, changed) && ListedAtOwnLevel(h, changed)
    requires forall k :: 0 <= k < |ids| ==> 0 <= ids[k] < |h| && 0 <= h[ids[k]].level < MAX_NODE_LEVEL
    ensures ChangedListsValid(h, Marked(h, changed, ids)) && ListedAtOwnLevel(h, Marked(h, changed, ids))
  {
    var m := Marked(h, changed, ids);
    forall l, k | 0 <= l < MAX_NODE_LEVEL && 0 <= k < |m[l]|
      ensures 0 <= m[l][k] < |h| && h[m[l][k]].level == l && (l >= 1 ==> 0 <= h[m[l][k]].parent < |h|)
    {
      var x := m[l][k];
      if k >= |changed[l]| {
        assert x == AtLevel(h, ids, l)[k - |changed[l]|];
        AtLevelMembers(h, ids, l, x);
      } else if l >= 1 {
        assert ParentsOk(h, changed[l]);
      }
      assert LinkedAt(h, x) && LevelConsistentAt(h, x);
    }
    forall l | 1 <= l < MAX_NODE_LEVEL ensures ParentsOk(h, m[l])
    {
    }
  }

  /** Marking a subtree from no changes files each of its nodes, and nothing else, in the
      list of its own level; the root comes first at level 0. */
  lemma MarkedSubtreeLists(h: seq<Hierarchy>, root: int)
    requires ChildrenAgree(h) && LevelsConsistent(h)
    requires 0 <= root < |h| && h[root].parent == -1 && SubtreeLevelsInRange(h, root)
    ensures NodesOk(h, Subtree(h, root))
    ensures var changed := Marked(h, NO_CHANGES, Subtree(h, root));
            ChangedListsValid(h, changed) && ListedAtOwnLevel(h, changed) &&
            changed[0] != [] && changed[0][0] == root &&
            (forall l :: 0 <= l < MAX_NODE_LEVEL ==> changed[l] == AtLevel(h, Subtree(h, root), l)) &&
            (forall l, k :: 0 <= l < MAX_NODE_LEVEL && 0 <= k < |changed[l]| ==> changed[l][k] in Subtree(h, root))
  {
    var S := Subtree(h, root);
    assert ListedAtOwnLevel(h, NO_CHANGES) && ChangedListsValid(h, NO_CHANGES);
    MarkedValid(h, NO_CHANGES, S);
    var changed := Marked(h, NO_CHANGES, S);
    assert forall l :: 0 <= l < MAX_NODE_LEVEL ==> changed[l] == AtLevel(h, S, l);
    assert LevelConsistentAt(h, root);
    AtLevelMembers(h, S, 0, root);
    AtLevelMembers(h, S, 0, changed[0][0]);
    if changed[0][0] != root {
      SubtreeDeeper(h, root, changed[0][0]);
    }
    forall l, k | 0 <= l < MAX_NODE_LEVEL && 0 <= k < |changed[l]| ensures changed[l][k] in S
    {
      AtLevelMembers(h, S, l, changed[l][k]);
    }
  }

  /** The levels of a marked subtree run without a gap from 0, so every node of it sits
      before the first empty list. */
  lemma MarkedSubtreeProcessed(h: seq<Hierarchy>, root: int)
    requires ChildrenAgree(h) && LevelsConsistent(h)
    requires 0 <= root < |h| && h[root].parent == -1 && SubtreeLevelsInRange(h, root)
    requires NodesOk(h, Subtree(h, root))
    requires forall l :: 0 <= l < MAX_NODE_LEVEL ==>
               Marked(h, NO_CHANGES, Subtree(h, root))[l] == AtLevel(h, Subtree(h, root), l)
    ensures forall c :: c in Subtree(h, root) ==>
              h[c].level < FirstEmpty(Marked(h, NO_CHANGES, Subtree(h, root)), 1)
  {
    var S := Subtree(h, root);
    var fe := FirstEmpty(Marked(h, NO_CHANGES, S), 1);
    assert LevelConsistentAt(h, root);
    forall c | c in S ensures h[c].level < fe
    {
      SubtreeLevelsContiguous(h, root, c);
    }
  }

  /** Marking the subtree of a root from no changes and recalculating: the root takes its
      local transform, every other node of the subtree its parent's new global transform
      times its own local one, every node outside keeps its global transform, and no change
      is left. */
  lemma RecalcMarkedSubtree(h: seq<Hierarchy>, local: seq<Mat4>, global: seq<Mat4>, root: int, mul: MatMul)
    requires ChildrenAgree(h) && LevelsConsistent(h) && |local| == |h| && |global| == |h|
    requires 0 <= root < |h| && h[root].parent == -1 && SubtreeLevelsInRange(h, root)
    ensures NodesOk(h, Subtree(h, root)) && ChangedListsValid(h, Marked(h, NO_CHANGES, Subtree(h, root)))
    ensures var r := Recalc(h, local, global, Marked(h, NO_CHANGES, Subtree(h, root)), mul);
            r.1 == NO_CHANGES &&
            r.0[root] == local[root] &&
            (forall c :: c in Subtree(h, root) && c != root ==>
               0 <= c < |h| && 0 <= h[c].parent < |h| && r.0[c] == mul(r.0[h[c].parent], local[c])) &&
            (forall c :: 0 <= c < |h| && c !in Subtree(h, root) ==> r.0[c] == global[c])
  {
    var S := Subtree(h, root);
    MarkedSubtreeLists(h, root);
    var changed := Marked(h, NO_CHANGES, S);
    RecalcValues(h, local, global, changed, mul);
    RecalcMarkedSubtreeInside(h, local, global, root, mul);
    RecalcMarkedSubtreeOutside(h, local, global, root, mul);
    RecalcMarkedSubtreeClears(h, local, global, root, mul);
  }

  lemma RecalcMarkedSubtreeInside(h: seq<Hierarchy>, local: seq<Mat4>, global: seq<Mat4>, root: int, mul: MatMul)
    requires ChildrenAgree(h) && LevelsConsistent(h) && |local| == |h| && |global| == |h|
    requires 0 <= root < |h| && h[root].parent == -1 && SubtreeLevelsInRange(h, root)
    requires NodesOk(h, Subtree(h, root)) && ChangedListsValid(h, Marked(h, NO_CHANGES, Subtree(h, root)))
    ensures var r := Recalc(h, local, global, Marked(h, NO_CHANGES, Subtree(h, root)), mul).0;
            forall c :: c in Subtree(h, root) && c != root ==>
              0 <= c < |h| && 0 <= h[c].parent < |h| && r[c] == mul(r[h[c].parent], local[c])
  {
    var S := Subtree(h, root);
    MarkedSubtreeLists(h, root);
    var changed := Marked(h, NO_CHANGES, S);
    RecalcValues(h, local, global, changed, mul);
    forall c | c in S && c != root
      ensures 0 <= c < |h| && 0 <= h[c].parent < |h| && 1 <= h[c].level < FirstEmpty(changed, 1) &&
              exists k :: 0 <= k < |changed[h[c].level]| && changed[h[c].level][k] == c
    {
      SubtreeNodeListed(h, root, c);
    }
  }

  /** A node of a marked subtree below its root is listed at its own level, which the sweep
      reaches. */
  lemma SubtreeNodeListed(h: seq<Hierarchy>, root: int, c: int)
    requires ChildrenAgree(h) && LevelsConsistent(h)
    requires 0 <= root < |h| && h[root].parent == -1 && SubtreeLevelsInRange(h, root)
    requires c in Subtree(h, root) && c != root
    ensures NodesOk(h, Subtree(h, root)) && 0 <= c < |h| && 1 <= h[c].level < MAX_NODE_LEVEL
    ensures var changed := Marked(h, NO_CHANGES, Subtree(h, root));
            h[c].level < FirstEmpty(changed, 1) &&
            exists k :: 0 <= k < |changed[h[c].level]| && changed[h[c].level][k] == c
  {
    var S := Subtree(h, root);
    MarkedSubtreeLists(h, root);
    MarkedSubtreeProcessed(h, root);
    SubtreeDeeper(h, root, c);
    AtLevelMembers(h, S, h[c].level, c);
  }

  lemma RecalcMarkedSubtreeOutside(h: seq<Hierarchy>, local: seq<Mat4>, global: seq<Mat4>, root: int, mul: MatMul)
    requires ChildrenAgree(h) && LevelsConsistent(h) && |local| == |h| && |global| == |h|
    requires 0 <= root < |h| && h[root].parent == -1 && SubtreeLevelsInRange(h, root)
    requires NodesOk(h, Subtree(h, root)) && ChangedListsValid(h, Marked(h, NO_CHANGES, Subtree(h, root)))
    ensures var r := Recalc(h, local, global, Marked(h, NO_CHANGES, Subtree(h, root)), mul).0;
            forall c :: 0 <= c < |h| && c !in Subtree(h, root) ==> r[c] == global[c]
  {
    var S := Subtree(h, root);
    MarkedSubtreeLists(h, root);
    var changed := Marked(h, NO_CHANGES, S);
    RecalcValues(h, local, global, changed, mul);
    forall c | 0 <= c < |h| && c !in S ensures Untouched(changed, 1, c)
    {
    }
  }

  lemma RecalcMarkedSubtreeClears(h: seq<Hierarchy>, local: seq<Mat4>, global: seq<Mat4>, root: int, mul: MatMul)
    requires ChildrenAgree(h) && LevelsConsistent(h) && |local| == |h| && |global| == |h|
    requires 0 <= root < |h| && h[root].parent == -1 && SubtreeLevelsInRange(h, root)
    requires NodesOk(h, Subtree(h, root)) && ChangedListsValid(h, Marked(h, NO_CHANGES, Subtree(h, root)))
    ensures Recalc(h, local, global, Marked(h, NO_CHANGES, Subtree(h, root)), mul).1 == NO_CHANGES
  {
    var changed := Marked(h, NO_CHANGES, Subtree(h, root));
    forall l | 1 <= l < MAX_NODE_LEVEL && changed[l] != [] ensures l < FirstEmpty(changed, 1)
    {
      MarkedSubtreeBeforeEmpty(h, root, l);
    }
    RecalcAllCleared(h, local, global, changed, mul);
  }

  /** When the sweep reaches every non-empty list, a recalculation leaves every list empty. */
  lemma RecalcAllCleared(h: seq<Hierarchy>, local: seq<Mat4>, global: seq<Mat4>, changed: seq<seq<int>>, mul: MatMul)
    requires |local| == |h| && |global| == |h| && ChangedListsValid(h, changed)
    requires forall l :: 1 <= l < MAX_NODE_LEVEL && changed[l] != [] ==> l < FirstEmpty(changed, 1)
    ensures Recalc(h, local, global, changed, mul).1 == NO_CHANGES
  {
    RecalcClears(h, local, global, changed, mul);
    var r := Recalc(h, local, global, changed, mul).1;
    assert forall l :: 0 <= l < MAX_NODE_LEVEL ==> r[l] == [];
  }

  /** A level the marked subtree reaches lies before the first empty list. */
  lemma MarkedSubtreeBeforeEmpty(h: seq<Hierarchy>, root: int, l: int)
    requires ChildrenAgree(h) && LevelsConsistent(h)
    requires 0 <= root < |h| && h[root].parent == -1 && SubtreeLevelsInRange(h, root)
    requires 1 <= l < MAX_NODE_LEVEL && Marked(h, NO_CHANGES, Subtree(h, root))[l] != []
    ensures NodesOk(h, Subtree(h, root)) && l < FirstEmpty(Marked(h, NO_CHANGES, Subtree(h, root)), 1)
  {
    var S := Subtree(h, root);
    MarkedSubtreeLists(h, root);
    MarkedSubtreeProcessed(h, root);
    var changed := Marked(h, NO_CHANGES, S);
    var c := changed[l][0];
    assert c in S && h[c].level == l;
  }

  /** A root, its child and its grandchild, as addNode builds them. */
  const CHAIN: seq<Hierarchy> := [Hierarchy(-1, 1, -1, -1, 0), Hierarchy(0, 2, -1, 1, 1), Hierarchy(1, -1, -1, 2, 2)]

  lemma ChainLinks()
    ensures Linked(CHAIN) && LevelsConsistent(CHAIN)
    ensures Children(CHAIN, 0) == [1] && Children(CHAIN, 1) == [2] && Children(CHAIN, 2) == []
  {
    assert LinkedAt(CHAIN, 0) && LinkedAt(CHAIN, 1) && LinkedAt(CHAIN, 2);
    assert LevelConsistentAt(CHAIN, 0) && LevelConsistentAt(CHAIN, 1) && LevelConsistentAt(CHAIN, 2);
  }

  lemma ChainShape()
    ensures ChildrenAgree(CHAIN) && LevelsConsistent(CHAIN) && Subtree(CHAIN, 0) == [0, 1, 2]
    ensures SubtreeLevelsInRange(CHAIN, 0)
  {
    ChainLinks();
    forall p, c | 0 <= p < |CHAIN| && c in Children(CHAIN, p) ensures 0 <= c < |CHAIN| && CHAIN[c].parent == p
    {
    }
    SubtreeStep(CHAIN, 2);
    SubtreeStep(CHAIN, 1);
    ForestStep(CHAIN, 2);
    SubtreeStep(CHAIN, 0);
    ForestStep(CHAIN, 1);
  }

  /** Marking the root of the chain and recalculating composes the transforms down the
      chain: the grandchild ends with root * child * grandchild. */
  lemma RecalcChain(l0: Mat4, l1: Mat4, l2: Mat4, global: seq<Mat4>, mul: MatMul)
    requires |global| == 3
    ensures NodesOk(CHAIN, [0, 1, 2]) && ChangedListsValid(CHAIN, Marked(CHAIN, NO_CHANGES, [0, 1, 2]))
    ensures var r := Recalc(CHAIN, [l0, l1, l2], global, Marked(CHAIN, NO_CHANGES, [0, 1, 2]), mul).0;
            |r| == 3 && r[0] == l0 && r[1] == mul(l0, l1) && r[2] == mul(mul(l0, l1), l2)
  {
    ChainShape();
    RecalcThreeChain(CHAIN, [l0, l1, l2], global, mul);
  }

  /** Any hierarchy whose root 0 has the subtree 0, 1, 2, each node the child of the one
      before. */
  lemma RecalcThreeChain(h: seq<Hierarchy>, local: seq<Mat4>, global: seq<Mat4>, mul: MatMul)
    requires ChildrenAgree(h) && LevelsConsistent(h) && |h| == 3 && |local| == 3 && |global| == 3
    requires h[0].parent == -1 && h[1].parent == 0 && h[2].parent == 1
    requires Subtree(h, 0) == [0, 1, 2] && SubtreeLevelsInRange(h, 0)
    ensures NodesOk(h, [0, 1, 2]) && ChangedListsValid(h, Marked(h, NO_CHANGES, [0, 1, 2]))
    ensures var r := Recalc(h, local, global, Marked(h, NO_CHANGES, [0, 1, 2]), mul).0;
            r[0] == local[0] && r[1] == mul(r[0], local[1]) && r[2] == mul(r[1], local[2])
  {
    RecalcMarkedSubtree(h, local, global, 0, mul);
    assert 1 in Subtree(h, 0) && 2 in Subtree(h, 0);
  }

  /** A second sweep without new changes in between changes nothing. */
  lemma RecalcIdempotent(h: seq<Hierarchy>, local: seq<Mat4>, global: seq<Mat4>, changed: seq<seq<int>>, mul: MatMul)
    requires |local| == |h| && |global| == |h| && ChangedListsValid(h, changed)
    ensures var r := Recalc(h, local, global, changed, mul);
            Recalc(h, local, r.0, r.1, mul) == r
  {
    var r := Recalc(h, local, global, changed, mul);
    RecalcClears(h, local, global, changed, mul);
    assert r.1[0 := []] == r.1;
  }

  /** The inner loop of recalculateGlobalTransforms over the list of one level: each listed
      node takes its parent's global transform times its own local one. */
  method UpdateLevel(scene: Scene, i: int, mul: MatMul)
    requires scene.Shape() && ChangedListsValid(scene.hierarchy, scene.changedAtThisFrame)
    requires 1 <= i < MAX_NODE_LEVEL
    modifies scene
    ensures scene.globalTransforms ==
              ApplyLevel(old(scene.hierarchy), old(scene.localTransforms), old(scene.globalTransforms),
                         old(scene.changedAtThisFrame[i]), mul)
    ensures var list := old(scene.changedAtThisFrame[i]);
            var h := old(scene.hierarchy);
            NoListedParent(h, list) ==>
            forall k :: 0 <= k < |list| ==>
              scene.globalTransforms[list[k]] ==
                mul(old(scene.globalTransforms)[h[list[k]].parent], old(scene.localTransforms)[list[k]])
    ensures scene.changedAtThisFrame == old(scene.changedAtThisFrame)
    ensures scene.Frame() == old(scene.Frame())
  {
    var list := scene.changedAtThisFrame[i];
    var h := scene.hierarchy;
    var local := scene.localTransforms;
    assert ParentsOk(h, list);
    for k := 0 to |list|
      invariant scene.Frame() == old(scene.Frame()) && scene.changedAtThisFrame == old(scene.changedAtThisFrame)
      invariant scene.globalTransforms == ApplyLevel(h, local, old(scene.globalTransforms), list[..k], mul)
    {
      var c := list[k];
      var p := h[c].parent;
      assert list[..k + 1][..k] == list[..k];
      scene.globalTransforms := scene.globalTransforms[c := mul(scene.globalTransforms[p], local[c])];
    }
    assert list[..|list|] == list;
    if NoListedParent(h, list) {
      ApplyLevelValues(h, local, old(scene.globalTransforms), list, mul);
    }
  }

  /** One level of the sweep: the level's list is applied and emptied, and the sweep goes on
      from the next level. */
  lemma SweepStep(h: seq<Hierarchy>, local: seq<Mat4>, global: seq<Mat4>, changed: seq<seq<int>>, i: int, mul: MatMul)
    requires |local| == |h| && |global| == |h| && ChangedListsValid(h, changed)
    requires 1 <= i < MAX_NODE_LEVEL && changed[i] != []
    ensures ChangedListsValid(h, changed[i := []])
    ensures Sweep(h, local, global, changed, i, mul) ==
              Sweep(h, local, ApplyLevel(h, local, global, changed[i], mul), changed[i := []], i + 1, mul)
  {
    ClearKeepsValid(h, changed, i);
  }

  /** The level-0 step of recalculateGlobalTransforms: the first listed root takes its local
      transform as its global one, and the level-0 list is emptied. */
  method UpdateRootLevel(scene: Scene)
    requires scene.Shape() && ChangedListsValid(scene.hierarchy, scene.changedAtThisFrame)
    modifies scene
    ensures var changed := old(scene.changedAtThisFrame);
            scene.globalTransforms ==
              (if changed[0] != [] then old(scene.globalTransforms)[changed[0][0] := old(scene.localTransforms)[changed[0][0]]]
               else old(scene.globalTransforms))
    ensures scene.changedAtThisFrame == old(scene.changedAtThisFrame)[0 := []]
    ensures ChangedListsValid(scene.hierarchy, scene.changedAtThisFrame)
    ensures scene.Frame() == old(scene.Frame())
  {
    ClearKeepsValid(scene.hierarchy, scene.changedAtThisFrame, 0);
    if scene.changedAtThisFrame[0] != [] {
      var c := scene.changedAtThisFrame[0][0];
      scene.globalTransforms := scene.globalTransforms[c := scene.localTransforms[c]];
      scene.changedAtThisFrame := scene.changedAtThisFrame[0 := []];
    } else {
      assert scene.changedAtThisFrame[0 := []] == scene.changedAtThisFrame;
    }
  }

  /** The loop of recalculateGlobalTransforms over the levels below the root: from level 1
      on, each level's list is applied and emptied, until the first empty list. */
  method SweepLevels(scene: Scene, mul: MatMul)
    requires scene.Shape() && ChangedListsValid(scene.hierarchy, scene.changedAtThisFrame)
    modifies scene
    ensures (scene.globalTransforms, scene.changedAtThisFrame) ==
              Sweep(old(scene.hierarchy), old(scene.localTransforms), old(scene.globalTransforms),
                    old(scene.changedAtThisFrame), 1, mul)
    ensures scene.Frame() == old(scene.Frame())
  {
    var h := scene.hierarchy;
    var local := scene.localTransforms;
    ghost var result := Sweep(h, local, scene.globalTransforms, scene.changedAtThisFrame, 1, mul);
    var i := 1;
    while i < MAX_NODE_LEVEL && scene.changedAtThisFrame[i] != []
      invariant 1 <= i <= MAX_NODE_LEVEL
      invariant scene.Frame() == old(scene.Frame())
      invariant |scene.globalTransforms| == |h|
      invariant ChangedListsValid(h, scene.changedAtThisFrame)
      invariant Sweep(h, local, scene.globalTransforms, scene.changedAtThisFrame, i, mul) == result
      decreases MAX_NODE_LEVEL - i
    {
      SweepStep(h, local, scene.globalTransforms, scene.changedAtThisFrame, i, mul);
      SweepLevel(scene, i, mul);
      i := i + 1;
    }
  }

  /** One round of the loop over the levels: level i is updated, then its list is cleared. */
  method SweepLevel(scene: Scene, i: int, mul: MatMul)
    requires scene.Shape() && ChangedListsValid(scene.hierarchy, scene.changedAtThisFrame)
    requires 1 <= i < MAX_NODE_LEVEL
    modifies scene
    ensures scene.globalTransforms ==
              ApplyLevel(old(scene.hierarchy), old(scene.localTransforms), old(scene.globalTransforms),
                         old(scene.changedAtThisFrame[i]), mul)
    ensures scene.changedAtThisFrame == old(scene.changedAtThisFrame)[i := []]
    ensures scene.Frame() == old(scene.Frame())
  {
    UpdateLevel(scene, i, mul);
    scene.changedAtThisFrame := scene.changedAtThisFrame[i := []];
  }

  /** recalculateGlobalTransforms */
  method RecalculateGlobalTransforms(scene: Scene, mul: MatMul)
    requires scene.Shape() && ChangedListsValid(scene.hierarchy, scene.changedAtThisFrame)
    modifies scene
    ensures (scene.globalTransforms, scene.changedAtThisFrame) ==
              Recalc(old(scene.hierarchy), old(scene.localTransforms), old(scene.globalTransforms),
                     old(scene.changedAtThisFrame), mul)
    ensures scene.Frame() == old(scene.Frame())
  {
    UpdateRootLevel(scene);
    SweepLevels(scene, mul);
  }

  // ---------------------------------------------------------------- names and lookups

  /** getNodeName: the node's name, or the empty string when it has no name id. The node is
      looked up as a quint32 key and the id read back as a qint32. */
  function GetNodeName(scene: Scene, node: int): (s: string)
    reads scene
    requires scene.NameIdOk(ToU32(node))
    ensures ToU32(node) !in scene.nameForNode ==> s == ""
    ensures ToU32(node) in scene.nameForNode && scene.nameForNode[ToU32(node)] < TWO_31 ==>
              s == scene.names[scene.nameForNode[ToU32(node)]]
  {
    var strId := AsInt32(if ToU32(node) in scene.nameForNode then scene.nameForNode[ToU32(node)] else ToU32(-1));
    if strId > -1 then scene.names[strId] else ""
  }

  /** setNodeName: appends the name and points the node at it; the node's previous name
      stays in names_. */
  method SetNodeName(scene: Scene, node: int, name: string)
    modifies scene
    ensures scene.names == old(scene.names) + [name]
    ensures scene.nameForNode == old(scene.nameForNode)[ToU32(node) := ToU32(|old(scene.names)|)]
    ensures |old(scene.names)| < TWO_31 ==> scene.NameIdOk(ToU32(node)) && GetNodeName(scene, node) == name
    // no other node's name changes
    ensures forall m :: ToU32(m) != ToU32(node) && old(scene.NameIdOk(ToU32(m))) ==>
              scene.NameIdOk(ToU32(m)) && GetNodeName(scene, m) == old(GetNodeName(scene, m))
    ensures scene.hierarchy == old(scene.hierarchy)
    ensures scene.localTransforms == old(scene.localTransforms)
    ensures scene.globalTransforms == old(scene.globalTransforms)
    ensures scene.changedAtThisFrame == old(scene.changedAtThisFrame)
    ensures scene.meshes == old(scene.meshes) && scene.materialForNode == old(scene.materialForNode)
    ensures scene.materialNames == old(scene.materialNames)
  {
    var stringId := ToU32(|scene.names|);
    scene.names := scene.names + [name];
    scene.nameForNode := scene.nameForNode[ToU32(node) := stringId];
  }

  /** Node i carries a name id that is non-negative as a qint32 and names `name`. */
  predicate NamedAs(scene: Scene, i: int, name: string)
    reads scene
    requires 0 <= i < TWO_32 && scene.NameIdOk(i)
    ensures NamedAs(scene, i, name) ==> i in scene.nameForNode && GetNodeName(scene, i) == name
  {
    i in scene.nameForNode && scene.nameForNode[i] < TWO_31 && scene.names[scene.nameForNode[i]] == name
  }

  /** For a non-empty name, carrying it and getNodeName returning it are the same thing. */
  lemma NamedAsIsGetNodeName(scene: Scene, i: int, name: string)
    requires 0 <= i < TWO_32 && scene.NameIdOk(i) && name != ""
    ensures NamedAs(scene, i, name) <==> GetNodeName(scene, i) == name
  {
  }

  /** findNodeByName: a linear scan over the node ids, the first node carrying the name. */
  method FindNodeByName(scene: Scene, name: string) returns (r: int)
    requires |scene.localTransforms| < TWO_31
    requires forall i :: 0 <= i < |scene.localTransforms| ==> scene.NameIdOk(i)
    ensures -1 <= r < |scene.localTransforms|
    ensures r >= 0 ==> NamedAs(scene, r, name)
    ensures r >= 0 ==> forall j :: 0 <= j < r ==> !NamedAs(scene, j, name)
    ensures r == -1 ==> forall j :: 0 <= j < |scene.localTransforms| ==> !NamedAs(scene, j, name)
  {
    var i := 0;
    while i < |scene.localTransforms|
      invariant 0 <= i <= |scene.localTransforms|
      invariant forall j :: 0 <= j < i ==> !NamedAs(scene, j, name)
    {
      assert scene.NameIdOk(i);
      if i in scene.nameForNode {
        var strId := AsInt32(scene.nameForNode[i]);
        if strId > -1 {
          if scene.names[strId] == name {
            return i;
          }
        }
      }
      i := i + 1;
    }
    return -1;
  }

  /** getNodeLevel as written: the walk starts at node 0 whatever n is, so with linked
      parents it always answers 0. */
  method GetNodeLevelAsWritten(scene: Scene, n: int) returns (level: int)
    requires scene.Valid() && |scene.hierarchy| > 0
    ensures level == 0
  {
    level := -1;
    var p := 0;
    while p != -1
      invariant (p == 0 && level == -1) || (p == -1 && level == 0)
      decreases p + 1
    {
      assert LinkedAt(scene.hierarchy, p);
      p := scene.hierarchy[p].parent;
      level := level + 1;
    }
  }

  /** getNodeLevel with the walk starting at n: the number of parent steps to a root. */
  method GetNodeLevel(scene: Scene, n: int) returns (level: int)
    requires scene.Valid() && 0 <= n < |scene.hierarchy|
    ensures level == Depth(scene.hierarchy, n)
    ensures LevelsConsistent(scene.hierarchy) ==> level == scene.hierarchy[n].level
  {
    level := -1;
    var p := n;
    while p != -1
      invariant p == -1 || 0 <= p <= n
      invariant p == -1 ==> level == Depth(scene.hierarchy, n)
      invariant p != -1 ==> level + 1 + Depth(scene.hierarchy, p) == Depth(scene.hierarchy, n)
      decreases p + 1
    {
      assert LinkedAt(scene.hierarchy, p);
      p := scene.hierarchy[p].parent;
      level := level + 1;
    }
    if LevelsConsistent(scene.hierarchy) {
      DepthIsLevel(scene.hierarchy, n);
    }
  }

  /** The node getNodeLevel as written gets wrong: a child of the root sits at level 1. */
  lemma GetNodeLevelCounterexample()
    ensures var h := [Hierarchy(-1, 1, -1, -1, 0), Hierarchy(0, -1, -1, 1, 1)];
            Linked(h) && LevelsConsistent(h) && Depth(h, 1) == 1 && h[1].level == 1
  {
  }
}
