/** What mergeScenes makes of the scenes it merges: where each node of each scene ends up,
    with which links and level, and that the merged hierarchy is again a well-formed forest
    under the new root, whose children are the old roots in scene order. */
module MergeFacts {
  import opened Common
  import opened SceneGraph
  import opened Merge

  /** Every scene has a node; a scene without one would share its start with the next. */
  predicate NonEmptyScenes(D: seq<SceneData>)
  {
    forall c :: 0 <= c < |D| ==> |D[c].hierarchy| > 0
  }

  /** Node k of scene c sits at Start(D, c) + k with its links
      shifted by Start(D, c). */
  lemma {:induction false} HierarchyAtNode(D: seq<SceneData>, b: int, c: int, k: int)
    requires 0 <= c < b <= |D| && 0 <= k < |D[c].hierarchy|
    ensures Start(D, c) + k < Start(D, b)
    ensures HierarchyAt(D, b)[Start(D, c) + k] == ShiftEntry(D[c].hierarchy[k], Start(D, c))
  {
    if c < b - 1 {
      HierarchyAtNode(D, b - 1, c, k);
      StartMono(D, c + 1, b - 1);
    }
  }

  /** Node 0 is the new root. */
  lemma {:induction false} HierarchyAtRoot(D: seq<SceneData>, b: int)
    requires 0 <= b <= |D|
    ensures HierarchyAt(D, b)[0] == Hierarchy(-1, 1, -1, -1, 0)
  {
    if b > 0 {
      HierarchyAtRoot(D, b - 1);
    }
  }

  /** With every scene non-empty, the scene starts strictly increase. */
  lemma {:induction false} StartStrict(D: seq<SceneData>, b: int, c: int)
    requires NonEmptyScenes(D) && 0 <= b < c <= |D|
    ensures Start(D, b) < Start(D, c)
    decreases c
  {
    if b < c - 1 {
      StartStrict(D, b, c - 1);
    }
  }

  /** The second loop leaves every entry that is not an old root alone. */
  lemma {:induction false} RootsFixedOther(data: SceneData, D: seq<SceneData>, rootTransforms: seq<Mat4>, mul: MatMul,
                                           b: int, j: int)
    requires RootsFixable(data, D, rootTransforms) && 0 <= b <= |D| && 0 <= j < |data.hierarchy|
    requires forall c :: 0 <= c < b ==> Start(D, c) != j
    ensures RootsFixed(data, D, rootTransforms, mul, b).hierarchy[j] == data.hierarchy[j]
    ensures j < |data.local| ==> RootsFixed(data, D, rootTransforms, mul, b).local[j] == data.local[j]
  {
    if b > 0 {
      RootsFixedOther(data, D, rootTransforms, mul, b - 1, j);
    }
  }

  /** The old root of scene c, once fixed, hangs under node 0, links to the next old root, and
      has its local transform premultiplied by its root transform when those are given. */
  lemma {:induction false} RootsFixedRoot(data: SceneData, D: seq<SceneData>, rootTransforms: seq<Mat4>, mul: MatMul,
                                          b: int, c: int)
    requires RootsFixable(data, D, rootTransforms) && NonEmptyScenes(D) && 0 <= c < b <= |D|
    ensures Start(D, c) < |data.hierarchy|
    ensures RootsFixed(data, D, rootTransforms, mul, b).hierarchy[Start(D, c)] ==
              data.hierarchy[Start(D, c)].(nextSibling := NextRoot(D, c), parent := 0)
    ensures |rootTransforms| > 0 ==>
              Start(D, c) < |data.local| &&
              RootsFixed(data, D, rootTransforms, mul, b).local[Start(D, c)] ==
                mul(rootTransforms[c], data.local[Start(D, c)])
    ensures |rootTransforms| == 0 ==>
              RootsFixed(data, D, rootTransforms, mul, b).local == data.local
  {
    StartMono(D, c, |D| - 1);
    if c < b - 1 {
      RootsFixedRoot(data, D, rootTransforms, mul, b - 1, c);
      StartStrict(D, c, b - 1);
    } else {
      forall c' | 0 <= c' < c ensures Start(D, c') != Start(D, c) {
        StartStrict(D, c', c);
      }
      RootsFixedOther(data, D, rootTransforms, mul, c, Start(D, c));
      if |rootTransforms| == 0 && c > 0 {
        RootsFixedRoot(data, D, rootTransforms, mul, c, c - 1);
      }
    }
  }

  /** The merged hierarchy: the first loop's hierarchy with the old roots fixed, every level
      but the new root's one deeper. */
  lemma MergedHierarchyIs(t: SceneData, D: seq<SceneData>, rootTransforms: seq<Mat4>, meshCounts: seq<u32>,
                          mergeMeshes: bool, mergeMaterials: bool, mul: MatMul)
    requires MergeRequires(t, D, rootTransforms, meshCounts, mergeMeshes) && 0 < |D|
    ensures var p := Stage(t, D, meshCounts, mergeMeshes, mergeMaterials, |D|);
            RootsFixable(p.data, D, rootTransforms) &&
            Merged(t, D, rootTransforms, meshCounts, mergeMeshes, mergeMaterials, mul).hierarchy ==
              LevelsDown(RootsFixed(p.data, D, rootTransforms, mul, |D|).hierarchy) &&
            Merged(t, D, rootTransforms, meshCounts, mergeMeshes, mergeMaterials, mul).local ==
              RootsFixed(p.data, D, rootTransforms, mul, |D|).local
  {
    StageRootsFixable(t, D, rootTransforms, meshCounts, mergeMeshes, mergeMaterials);
  }

  /** Node k of scene c as the merge leaves it: its links shifted by the start of the scene,
      its level one deeper, and, for the old root, hung under node 0 and linked to the next
      old root. */
  function Moved(D: seq<SceneData>, c: int, k: int): Hierarchy
    requires 0 <= c < |D| && 0 <= k < |D[c].hierarchy|
  {
    var e := ShiftEntry(D[c].hierarchy[k], Start(D, c));
    var f := if k == 0 then e.(nextSibling := NextRoot(D, c), parent := 0) else e;
    f.(level := f.level + 1)
  }

  /** The second and third loops on the first loop's hierarchy, node by node. */
  lemma FixedNodeAt(data: SceneData, D: seq<SceneData>, rootTransforms: seq<Mat4>, mul: MatMul, c: int, k: int)
    requires RootsFixable(data, D, rootTransforms) && NonEmptyScenes(D)
    requires data.hierarchy == HierarchyAt(D, |D|)
    requires 0 <= c < |D| && 0 <= k < |D[c].hierarchy|
    ensures var H := LevelsDown(RootsFixed(data, D, rootTransforms, mul, |D|).hierarchy);
            |H| == Start(D, |D|) && H[0] == Hierarchy(-1, 1, -1, -1, 0) &&
            Start(D, c) + k < |H| && H[Start(D, c) + k] == Moved(D, c, k)
  {
    var fixed := RootsFixed(data, D, rootTransforms, mul, |D|).hierarchy;
    var j := Start(D, c) + k;
    HierarchyAtNode(D, |D|, c, k);
    HierarchyAtRoot(D, |D|);
    RootsFixedOther(data, D, rootTransforms, mul, |D|, 0);
    if k == 0 {
      RootsFixedRoot(data, D, rootTransforms, mul, |D|, c);
    } else {
      forall c' | 0 <= c' < |D| ensures Start(D, c') != j {
        if c' <= c {
          StartMono(D, c', c);
        } else {
          StartMono(D, c + 1, c');
        }
      }
      RootsFixedOther(data, D, rootTransforms, mul, |D|, j);
    }
  }

  /** Where node k of scene c ends up: at Start(D, c) + k, as Moved(D, c, k). Node 0 is the
      new root, and the hierarchy holds nothing else. */
  lemma MergedNodeAt(t: SceneData, D: seq<SceneData>, rootTransforms: seq<Mat4>, meshCounts: seq<u32>,
                     mergeMeshes: bool, mergeMaterials: bool, mul: MatMul, c: int, k: int)
    requires MergeRequires(t, D, rootTransforms, meshCounts, mergeMeshes) && NonEmptyScenes(D)
    requires 0 <= c < |D| && 0 <= k < |D[c].hierarchy|
    ensures var H := Merged(t, D, rootTransforms, meshCounts, mergeMeshes, mergeMaterials, mul).hierarchy;
            |H| == Start(D, |D|) && H[0] == Hierarchy(-1, 1, -1, -1, 0) &&
            Start(D, c) + k < |H| && H[Start(D, c) + k] == Moved(D, c, k)
  {
    MergedHierarchyIs(t, D, rootTransforms, meshCounts, mergeMeshes, mergeMaterials, mul);
    FixedNodeAt(Stage(t, D, meshCounts, mergeMeshes, mergeMaterials, |D|).data, D, rootTransforms, mul, c, k);
  }

  // ------------------------------------------------------- the merged hierarchy as a whole

  /** A hierarchy laid out as mergeScenes lays out the scenes D. */
  predicate Placed(H: seq<Hierarchy>, D: seq<SceneData>)
  {
    |H| == Start(D, |D|) && H[0] == Hierarchy(-1, 1, -1, -1, 0) &&
    forall c, k :: 0 <= c < |D| && 0 <= k < |D[c].hierarchy| ==> PlacedNode(H, D, c, k)
  }

  /** Node k of scene c is in H, moved as Moved says. */
  predicate PlacedNode(H: seq<Hierarchy>, D: seq<SceneData>, c: int, k: int)
    requires 0 <= c < |D| && 0 <= k < |D[c].hierarchy|
  {
    Start(D, c) + k < |H| && H[Start(D, c) + k] == Moved(D, c, k)
  }

  lemma PlacedAt(H: seq<Hierarchy>, D: seq<SceneData>, c: int, k: int)
    requires Placed(H, D) && 0 <= c < |D| && 0 <= k < |D[c].hierarchy|
    ensures Start(D, c) + k < |H| && H[Start(D, c) + k] == Moved(D, c, k)
  {
    assert PlacedNode(H, D, c, k);
  }

  lemma MergedPlaced(t: SceneData, D: seq<SceneData>, rootTransforms: seq<Mat4>, meshCounts: seq<u32>,
                     mergeMeshes: bool, mergeMaterials: bool, mul: MatMul)
    requires MergeRequires(t, D, rootTransforms, meshCounts, mergeMeshes) && NonEmptyScenes(D) && 0 < |D|
    ensures Placed(Merged(t, D, rootTransforms, meshCounts, mergeMeshes, mergeMaterials, mul).hierarchy, D)
  {
    var H := Merged(t, D, rootTransforms, meshCounts, mergeMeshes, mergeMaterials, mul).hierarchy;
    MergedNodeAt(t, D, rootTransforms, meshCounts, mergeMeshes, mergeMaterials, mul, 0, 0);
    forall c, k | 0 <= c < |D| && 0 <= k < |D[c].hierarchy|
      ensures PlacedNode(H, D, c, k)
    {
      MergedNodeAt(t, D, rootTransforms, meshCounts, mergeMeshes, mergeMaterials, mul, c, k);
    }
    assert |H| == Start(D, |D|);
    assert H[0] == Hierarchy(-1, 1, -1, -1, 0);
    assert Placed(H, D);
  }

  /** The scene holding node j of the merged hierarchy, j > 0. */
  function SceneOf(D: seq<SceneData>, b: int, j: int): (c: int)
    requires 0 <= b <= |D| && 1 <= j < Start(D, b)
    ensures 0 <= c < b && Start(D, c) <= j < Start(D, c + 1)
  {
    if j >= Start(D, b - 1) then b - 1 else SceneOf(D, b - 1, j)
  }

  /** Scenes whose links are well formed and whose node 0 is their only root. */
  predicate SingleRootedScenes(D: seq<SceneData>)
  {
    NonEmptyScenes(D) &&
    forall c :: 0 <= c < |D| ==>
      Linked(D[c].hierarchy) &&
      forall k :: 0 < k < |D[c].hierarchy| ==> D[c].hierarchy[k].parent >= 0
  }

  /** Merging well-formed scenes gives a well-formed hierarchy: every link names a node, the
      parents before and the children and siblings after. */
  lemma PlacedLinked(H: seq<Hierarchy>, D: seq<SceneData>)
    requires Placed(H, D) && SingleRootedScenes(D) && 0 < |D|
    ensures Linked(H)
  {
    forall j | 0 <= j < |H| ensures LinkedAt(H, j) {
      if j > 0 {
        var c := SceneOf(D, |D|, j);
        var k := j - Start(D, c);
        assert LinkedAt(D[c].hierarchy, k);
        PlacedAt(H, D, c, k);
        StartMono(D, c + 1, |D|);
        if c < |D| - 1 {
          StartStrict(D, c + 1, |D|);
        }
      } else {
        StartStrict(D, 0, |D|);
        StartMono(D, 1, |D|);
      }
    }
  }

  /** Merging scenes whose levels are consistent keeps them consistent: every old root, at
      level 0 before, is at level 1 under the new root, and every other node stays one below
      its parent. */
  lemma PlacedLevelsConsistent(H: seq<Hierarchy>, D: seq<SceneData>)
    requires Placed(H, D) && SingleRootedScenes(D) && 0 < |D|
    requires forall c :: 0 <= c < |D| ==> LevelsConsistent(D[c].hierarchy)
    ensures LevelsConsistent(H)
  {
    forall j | 0 <= j < |H| ensures LevelConsistentAt(H, j) {
      if j > 0 {
        var c := SceneOf(D, |D|, j);
        var k := j - Start(D, c);
        var h := D[c].hierarchy;
        assert LinkedAt(h, k) && LevelConsistentAt(h, k);
        PlacedAt(H, D, c, k);
        if k > 0 {
          var p := h[k].parent;
          assert LevelConsistentAt(h, p);
          PlacedAt(H, D, c, p);
        }
      }
    }
  }

  /** The old roots of scenes c, c + 1, ..., in scene order. */
  function RootsFrom(D: seq<SceneData>, c: int): seq<int>
    requires 0 <= c <= |D|
    decreases |D| - c
  {
    if c == |D| then [] else [Start(D, c)] + RootsFrom(D, c + 1)
  }

  lemma {:induction false} SiblingsOfRoots(H: seq<Hierarchy>, D: seq<SceneData>, c: int)
    requires Placed(H, D) && SingleRootedScenes(D) && Linked(H) && 0 <= c < |D|
    ensures Start(D, c) < |H| && Siblings(H, Start(D, c)) == RootsFrom(D, c)
    decreases |D| - c
  {
    PlacedAt(H, D, c, 0);
    var s := Start(D, c);
    assert H[s].nextSibling == NextRoot(D, c);
    if c < |D| - 1 {
      SiblingsOfRoots(H, D, c + 1);
      assert H[s].nextSibling == Start(D, c + 1);
      assert Siblings(H, s) == [s] + Siblings(H, Start(D, c + 1));
    } else {
      assert Siblings(H, s) == [s];
    }
  }

  /** The children of the new root are the old roots, in scene order. */
  lemma PlacedChildren(H: seq<Hierarchy>, D: seq<SceneData>)
    requires Placed(H, D) && SingleRootedScenes(D) && Linked(H) && 0 < |D|
    ensures Children(H, 0) == RootsFrom(D, 0)
  {
    SiblingsOfRoots(H, D, 0);
  }

  /** The ids of a chain, each moved by amount. */
  function ShiftIds(chain: seq<int>, amount: int): seq<int>
  {
    seq(|chain|, k requires 0 <= k < |chain| => chain[k] + amount)
  }

  /** Every node of h but its root sits at off plus its index in H, its links moved by off and
      one level deeper. */
  predicate ShiftedBlock(H: seq<Hierarchy>, h: seq<Hierarchy>, off: int)
  {
    0 <= off && forall k :: 0 < k < |h| ==> off + k < |H| && H[off + k] == ShiftEntry(h[k], off).(level := h[k].level + 1)
  }

  lemma PlacedBlock(H: seq<Hierarchy>, D: seq<SceneData>, c: int)
    requires Placed(H, D) && 0 <= c < |D|
    ensures ShiftedBlock(H, D[c].hierarchy, Start(D, c))
  {
    var h := D[c].hierarchy;
    var off := Start(D, c);
    forall k | 0 < k < |h| ensures off + k < |H| && H[off + k] == ShiftEntry(h[k], off).(level := h[k].level + 1)
    {
      PlacedAt(H, D, c, k);
    }
  }

  /** Away from the root of a shifted block, a sibling chain of H is the block's chain moved
      by the block's offset. */
  lemma {:induction false} ShiftedSiblings(H: seq<Hierarchy>, h: seq<Hierarchy>, off: int, x: int)
    requires Linked(H) && Linked(h) && ShiftedBlock(H, h, off) && 0 <= off
    requires x == -1 || 0 < x < |h|
    ensures var s := if x == -1 then -1 else off + x;
            IsNodeOrNone(H, s) && Siblings(H, s) == ShiftIds(Siblings(h, x), off)
    decreases if x < 0 then 0 else |h| + 1 - x
  {
    if x != -1 {
      var s := off + x;
      assert LinkedAt(h, x);
      assert H[s] == ShiftEntry(h[x], off).(level := h[x].level + 1);
      var n := h[x].nextSibling;
      ShiftedSiblings(H, h, off, n);
      assert H[s].nextSibling == if n == -1 then -1 else off + n;
      assert Siblings(H, s) == [s] + Siblings(H, H[s].nextSibling);
      assert Siblings(h, x) == [x] + Siblings(h, n);
      ShiftIdsCons(x, Siblings(h, n), off);
    }
  }

  lemma ShiftIdsCons(x: int, t: seq<int>, off: int)
    ensures ShiftIds([x] + t, off) == [x + off] + ShiftIds(t, off)
  {
    assert forall k :: 0 < k <= |t| ==> ([x] + t)[k] == t[k - 1];
  }

  /** The children of a node of a shifted block whose first child moved with it are its
      children in the block, moved by the block's offset. */
  lemma ShiftedChildren(H: seq<Hierarchy>, h: seq<Hierarchy>, off: int, p: int)
    requires Linked(H) && Linked(h) && ShiftedBlock(H, h, off) && 0 <= off && 0 <= p < |h| && off + p < |H|
    requires H[off + p].firstChild == if h[p].firstChild > -1 then h[p].firstChild + off else h[p].firstChild
    ensures Children(H, off + p) == ShiftIds(Children(h, p), off)
  {
    assert LinkedAt(h, p);
    ShiftedSiblings(H, h, off, h[p].firstChild);
  }

  /** A node of a shifted block other than its root sits in its moved parent's chain, when
      the block's parent fields agree with its chains. */
  lemma ShiftedParentAgrees(H: seq<Hierarchy>, h: seq<Hierarchy>, off: int, k: int)
    requires Linked(H) && ParentsAgree(h) && ShiftedBlock(H, h, off) && 0 <= off && 0 < k < |h|
    requires 0 <= h[k].parent < k && off + h[k].parent < |H|
    requires var q := h[k].parent;
             H[off + q].firstChild == if h[q].firstChild > -1 then h[q].firstChild + off else h[q].firstChild
    ensures H[off + k].parent == off + h[k].parent && off + k in Children(H, off + h[k].parent)
  {
    var p := h[k].parent;
    ShiftedChildren(H, h, off, p);
    var ch := Children(h, p);
    assert k in ch;
    var i :| 0 <= i < |ch| && ch[i] == k;
    assert ShiftIds(ch, off)[i] == off + k;
  }

  /** Every old root is among the roots from scene b on, when its scene is. */
  lemma {:induction false} RootsFromHas(D: seq<SceneData>, b: int, c: int)
    requires 0 <= b <= c < |D|
    ensures Start(D, c) in RootsFrom(D, b)
    decreases c - b
  {
    if b < c {
      RootsFromHas(D, b + 1, c);
    }
  }

  /** Merging scenes whose parent fields agree with their child chains keeps them in
      agreement: an old root sits in the new root's chain, every other node in its moved
      parent's chain. */
  lemma PlacedParentsAgree(H: seq<Hierarchy>, D: seq<SceneData>)
    requires Placed(H, D) && SingleRootedScenes(D) && Linked(H) && 0 < |D|
    requires forall c :: 0 <= c < |D| ==> ParentsAgree(D[c].hierarchy)
    ensures ParentsAgree(H)
  {
    forall j | 0 <= j < |H| && 0 <= H[j].parent < |H| ensures j in Children(H, H[j].parent) {
      if j > 0 {
        PlacedParentAgreesAt(H, D, j);
      }
    }
  }

  lemma PlacedParentAgreesAt(H: seq<Hierarchy>, D: seq<SceneData>, j: int)
    requires Placed(H, D) && SingleRootedScenes(D) && Linked(H) && 0 < |D|
    requires forall c :: 0 <= c < |D| ==> ParentsAgree(D[c].hierarchy)
    requires 0 < j < |H| && 0 <= H[j].parent < |H|
    ensures j in Children(H, H[j].parent)
  {
    var c := SceneOf(D, |D|, j);
    var k := j - Start(D, c);
    if k == 0 {
      PlacedAt(H, D, c, k);
      PlacedChildren(H, D);
      RootsFromHas(D, 0, c);
    } else {
      var h := D[c].hierarchy;
      var off := Start(D, c);
      InnerNode(D, c, k);
      PlacedFirstChild(H, D, c, h[k].parent);
      PlacedBlock(H, D, c);
      assert ParentsAgree(h);
      ShiftedParentAgrees(H, h, off, k);
    }
  }

  /** Every node of scene c, its root included, keeps its first child moved by the scene's
      start. */
  lemma PlacedFirstChild(H: seq<Hierarchy>, D: seq<SceneData>, c: int, p: int)
    requires Placed(H, D) && 0 <= c < |D| && 0 <= p < |D[c].hierarchy|
    ensures var q := D[c].hierarchy[p].firstChild;
            Start(D, c) + p < |H| && H[Start(D, c) + p].firstChild == if q > -1 then q + Start(D, c) else q
  {
    PlacedAt(H, D, c, p);
  }

  /** A node of a single-rooted scene other than its root has a parent before it. */
  lemma InnerNode(D: seq<SceneData>, c: int, k: int)
    requires SingleRootedScenes(D) && 0 <= c < |D| && 0 < k < |D[c].hierarchy|
    ensures Linked(D[c].hierarchy) && 0 <= D[c].hierarchy[k].parent < k
  {
    assert LinkedAt(D[c].hierarchy, k);
  }

  // ------------------------------------------------------------------ the three hashes

  /** The node ids hash x of every scene maps are ids of that scene's nodes. */
  predicate KeysInRange(D: seq<SceneData>, x: Hash)
  {
    forall c, k :: 0 <= c < |D| && k in HashOf(D[c], x) ==> k < |D[c].hierarchy|
  }

  /** Every key of hash x of the merge so far is a node of it, when the target's hash has no
      key but that of the new root. */
  lemma {:induction false} HashAtBound(x: Hash, t: SceneData, D: seq<SceneData>, meshCounts: seq<u32>,
                                       mergeMeshes: bool, mergeMaterials: bool, b: int, j: u32)
    requires (mergeMeshes ==> |meshCounts| >= |D|) && Start(D, |D|) < TWO_31 && KeysInRange(D, x)
    requires HashOf(t, x).Keys <= {0} && 0 <= b <= |D|
    ensures j in HashAt(x, t, D, meshCounts, mergeMeshes, mergeMaterials, b) ==> j < Start(D, b)
    decreases b
  {
    if b > 0 {
      HashAtBound(x, t, D, meshCounts, mergeMeshes, mergeMaterials, b - 1, j);
      var keyOff := ToU32(Start(D, b - 1));
      StartMono(D, b, |D|);
      ShiftedMapAt(HashOf(D[b - 1], x), keyOff,
                   ToU32(ValueShift(x, D, meshCounts, mergeMeshes, mergeMaterials, b - 1)), j);
      AddSubU32(SubU32(j, keyOff), keyOff);
    }
  }

  /** Node k of scene c has an entry in hash x of the merge so far exactly when it had one in
      its own scene, and the entry is its old value shifted by ValueShift, in quint32
      arithmetic: no later scene overwrites it. */
  lemma {:induction false} HashAtNode(x: Hash, t: SceneData, D: seq<SceneData>, meshCounts: seq<u32>,
                                      mergeMeshes: bool, mergeMaterials: bool, b: int, c: int, k: int)
    requires (mergeMeshes ==> |meshCounts| >= |D|) && Start(D, |D|) < TWO_31 && KeysInRange(D, x)
    requires HashOf(t, x).Keys <= {0} && 0 <= c < b <= |D| && 0 <= k < |D[c].hierarchy|
    ensures Start(D, c) + k < TWO_31
    ensures var m := HashAt(x, t, D, meshCounts, mergeMeshes, mergeMaterials, b);
            var j := Start(D, c) + k;
            (j in m <==> k in HashOf(D[c], x)) &&
            (j in m ==> m[j] == AddU32(HashOf(D[c], x)[k],
                                       ToU32(ValueShift(x, D, meshCounts, mergeMeshes, mergeMaterials, c))))
  {
    StartMono(D, c + 1, |D|);
    var j := Start(D, c) + k;
    HashAtOwn(x, t, D, meshCounts, mergeMeshes, mergeMaterials, c + 1, k);
    HashAtKeepsFrom(x, t, D, meshCounts, mergeMeshes, mergeMaterials, c + 1, b, j);
    EntryCarried(HashAt(x, t, D, meshCounts, mergeMeshes, mergeMaterials, c + 1),
                 HashAt(x, t, D, meshCounts, mergeMeshes, mergeMaterials, b), j, HashOf(D[c], x), k,
                 ToU32(ValueShift(x, D, meshCounts, mergeMeshes, mergeMaterials, c)));
  }

  /** The rounds from b0 on leave the entries of the nodes before scene b0 alone. */
  lemma {:induction false} HashAtKeepsFrom(x: Hash, t: SceneData, D: seq<SceneData>, meshCounts: seq<u32>,
                                           mergeMeshes: bool, mergeMaterials: bool, b0: int, b: int, j: int)
    requires (mergeMeshes ==> |meshCounts| >= |D|) && Start(D, |D|) < TWO_31 && KeysInRange(D, x)
    requires 0 <= b0 <= b <= |D| && 0 <= j < Start(D, b0)
    ensures var m := HashAt(x, t, D, meshCounts, mergeMeshes, mergeMaterials, b);
            var m0 := HashAt(x, t, D, meshCounts, mergeMeshes, mergeMaterials, b0);
            (j in m <==> j in m0) && (j in m ==> m[j] == m0[j])
    decreases b
  {
    if b > b0 {
      HashAtKeepsFrom(x, t, D, meshCounts, mergeMeshes, mergeMaterials, b0, b - 1, j);
      StartMono(D, b0, b - 1);
      HashAtKeepsEarlier(x, t, D, meshCounts, mergeMeshes, mergeMaterials, b, j);
      EntryKept(HashAt(x, t, D, meshCounts, mergeMeshes, mergeMaterials, b0),
                HashAt(x, t, D, meshCounts, mergeMeshes, mergeMaterials, b - 1),
                HashAt(x, t, D, meshCounts, mergeMeshes, mergeMaterials, b), j);
    }
  }

  /** Keeping an entry twice keeps it. */
  lemma EntryKept(m0: map<u32, u32>, m1: map<u32, u32>, m2: map<u32, u32>, j: int)
    requires (j in m1 <==> j in m0) && (j in m1 ==> m1[j] == m0[j])
    requires (j in m2 <==> j in m1) && (j in m2 ==> m2[j] == m1[j])
    ensures (j in m2 <==> j in m0) && (j in m2 ==> m2[j] == m0[j])
  {
  }

  /** An entry that a map step leaves alone keeps its relation to the scene it came from. */
  lemma EntryCarried(m0: map<u32, u32>, m: map<u32, u32>, j: int, own: map<u32, u32>, k: int, v: u32)
    requires (j in m <==> j in m0) && (j in m ==> m[j] == m0[j])
    requires (j in m0 <==> k in own) && (j in m0 ==> m0[j] == AddU32(own[k], v))
    ensures (j in m <==> k in own) && (j in m ==> m[j] == AddU32(own[k], v))
  {
  }

  /** Round b - 1 of the first loop writes the entries of its own scene's nodes. */
  lemma HashAtOwn(x: Hash, t: SceneData, D: seq<SceneData>, meshCounts: seq<u32>,
                  mergeMeshes: bool, mergeMaterials: bool, b: int, k: int)
    requires (mergeMeshes ==> |meshCounts| >= |D|) && Start(D, |D|) < TWO_31 && KeysInRange(D, x)
    requires HashOf(t, x).Keys <= {0} && 0 < b <= |D| && 0 <= k < |D[b - 1].hierarchy|
    requires Start(D, b - 1) + k < TWO_31
    ensures var m := HashAt(x, t, D, meshCounts, mergeMeshes, mergeMaterials, b);
            var j := Start(D, b - 1) + k;
            (j in m <==> k in HashOf(D[b - 1], x)) &&
            (j in m ==> m[j] == AddU32(HashOf(D[b - 1], x)[k],
                                       ToU32(ValueShift(x, D, meshCounts, mergeMeshes, mergeMaterials, b - 1))))
  {
    var j := Start(D, b - 1) + k;
    var other := HashOf(D[b - 1], x);
    var keyOff := ToU32(Start(D, b - 1));
    var valOff := ToU32(ValueShift(x, D, meshCounts, mergeMeshes, mergeMaterials, b - 1));
    StartMono(D, b - 1, |D|);
    ShiftedMapAt(other, keyOff, valOff, j);
    HashAtBound(x, t, D, meshCounts, mergeMeshes, mergeMaterials, b - 1, j);
    assert SubU32(j, keyOff) == k;
  }

  /** Round b - 1 of the first loop leaves the entries of the nodes before its scene alone. */
  lemma HashAtKeepsEarlier(x: Hash, t: SceneData, D: seq<SceneData>, meshCounts: seq<u32>,
                           mergeMeshes: bool, mergeMaterials: bool, b: int, j: int)
    requires (mergeMeshes ==> |meshCounts| >= |D|) && Start(D, |D|) < TWO_31 && KeysInRange(D, x)
    requires 0 < b <= |D| && 0 <= j < Start(D, b - 1)
    ensures var m := HashAt(x, t, D, meshCounts, mergeMeshes, mergeMaterials, b);
            var m0 := HashAt(x, t, D, meshCounts, mergeMeshes, mergeMaterials, b - 1);
            (j in m <==> j in m0) && (j in m ==> m[j] == m0[j])
  {
    var other := HashOf(D[b - 1], x);
    var keyOff := ToU32(Start(D, b - 1));
    var valOff := ToU32(ValueShift(x, D, meshCounts, mergeMeshes, mergeMaterials, b - 1));
    StartMono(D, b, |D|);
    ShiftedMapAt(other, keyOff, valOff, j);
    assert SubU32(j, keyOff) >= TWO_31;
    assert SubU32(j, keyOff) !in other;
  }

  /** The second and third loops touch only the hierarchy and the local transforms: the
      merged hashes and string tables are those the first loop leaves. */
  lemma MergedTables(t: SceneData, D: seq<SceneData>, rootTransforms: seq<Mat4>, meshCounts: seq<u32>,
                     mergeMeshes: bool, mergeMaterials: bool, mul: MatMul)
    requires MergeRequires(t, D, rootTransforms, meshCounts, mergeMeshes) && 0 < |D|
    ensures var d := Merged(t, D, rootTransforms, meshCounts, mergeMeshes, mergeMaterials, mul);
            var p := Stage(t, D, meshCounts, mergeMeshes, mergeMaterials, |D|).data;
            d.meshes == p.meshes && d.materialForNode == p.materialForNode && d.nameForNode == p.nameForNode &&
            d.names == p.names && d.materialNames == p.materialNames
  {
    StageRootsFixable(t, D, rootTransforms, meshCounts, mergeMeshes, mergeMaterials);
  }

  /** The entries of hash x of the merged scene that belong to node k of scene c. */
  lemma MergedHashAt(x: Hash, t: SceneData, D: seq<SceneData>, rootTransforms: seq<Mat4>, meshCounts: seq<u32>,
                     mergeMeshes: bool, mergeMaterials: bool, mul: MatMul, c: int, k: int)
    requires MergeRequires(t, D, rootTransforms, meshCounts, mergeMeshes) && KeysInRange(D, x)
    requires HashOf(t, x).Keys <= {0} && 0 <= c < |D| && 0 <= k < |D[c].hierarchy|
    ensures var m := HashOf(Merged(t, D, rootTransforms, meshCounts, mergeMeshes, mergeMaterials, mul), x);
            var j := Start(D, c) + k;
            (j in m <==> k in HashOf(D[c], x)) &&
            (j in m ==> m[j] == AddU32(HashOf(D[c], x)[k],
                                       ToU32(ValueShift(x, D, meshCounts, mergeMeshes, mergeMaterials, c))))
  {
    StageRootsFixable(t, D, rootTransforms, meshCounts, mergeMeshes, mergeMaterials);
    HashAtNode(x, t, D, meshCounts, mergeMeshes, mergeMaterials, |D|, c, k);
  }

  /** The key of the new root is never shifted onto: a later scene's keys start at its own
      start, which is at least 1 and below 2^31. */
  lemma {:induction false} HashAtRootKey(x: Hash, t: SceneData, D: seq<SceneData>, meshCounts: seq<u32>,
                                         mergeMeshes: bool, mergeMaterials: bool, b: int)
    requires (mergeMeshes ==> |meshCounts| >= |D|) && Start(D, |D|) < TWO_31 && KeysInRange(D, x)
    requires 0 <= b <= |D|
    ensures var m := HashAt(x, t, D, meshCounts, mergeMeshes, mergeMaterials, b);
            var p := HashOf(Preamble(t), x);
            (0 in m <==> 0 in p) && (0 in m ==> m[0] == p[0])
    decreases b
  {
    if b > 0 {
      HashAtRootKey(x, t, D, meshCounts, mergeMeshes, mergeMaterials, b - 1);
      var keyOff := ToU32(Start(D, b - 1));
      StartMono(D, b, |D|);
      ShiftedMapAt(HashOf(D[b - 1], x), keyOff,
                   ToU32(ValueShift(x, D, meshCounts, mergeMeshes, mergeMaterials, b - 1)), 0);
      assert SubU32(0, keyOff) >= TWO_31;
    }
  }

  /** The new root is named "NewRoot" in the merged scene, however many scenes are merged. */
  lemma MergedRootName(t: SceneData, D: seq<SceneData>, rootTransforms: seq<Mat4>, meshCounts: seq<u32>,
                       mergeMeshes: bool, mergeMaterials: bool, mul: MatMul)
    requires MergeRequires(t, D, rootTransforms, meshCounts, mergeMeshes) && KeysInRange(D, Names)
    ensures var d := Merged(t, D, rootTransforms, meshCounts, mergeMeshes, mergeMaterials, mul);
            0 in d.nameForNode && d.nameForNode[0] == 0 && 0 < |d.names| && d.names[0] == "NewRoot"
  {
    if 0 < |D| {
      StageRootsFixable(t, D, rootTransforms, meshCounts, mergeMeshes, mergeMaterials);
      HashAtRootKey(Names, t, D, meshCounts, mergeMeshes, mergeMaterials, |D|);
    }
  }

  /** Name v of scene c is name NameCount(D, c) + v of the scenes before b. */
  lemma {:induction false} NamesBeforeAt(D: seq<SceneData>, b: int, c: int, v: int)
    requires 0 <= c < b <= |D| && 0 <= v < |D[c].names|
    ensures NameCount(D, c) + v < NameCount(D, b) && NamesBefore(D, b)[NameCount(D, c) + v] == D[c].names[v]
    decreases b
  {
    if c < b - 1 {
      NamesBeforeAt(D, b - 1, c, v);
    }
  }

  /** The first loop maps every named node of every scene to a name id that indexes the
      concatenated names at the same string. */
  lemma StageNodeName(t: SceneData, D: seq<SceneData>, meshCounts: seq<u32>, mergeMeshes: bool, mergeMaterials: bool,
                      c: int, k: int)
    requires (mergeMeshes ==> |meshCounts| >= |D|) && Start(D, |D|) < TWO_31 && KeysInRange(D, Names)
    requires t.nameForNode.Keys <= {0} && NameCount(D, |D|) < TWO_31
    requires 0 <= c < |D| && 0 <= k < |D[c].hierarchy|
    requires k in D[c].nameForNode && D[c].nameForNode[k] < |D[c].names|
    ensures var m := HashAt(Names, t, D, meshCounts, mergeMeshes, mergeMaterials, |D|);
            var names := ["NewRoot"] + NamesBefore(D, |D|);
            var j := Start(D, c) + k;
            j in m && m[j] < |names| && names[m[j]] == D[c].names[D[c].nameForNode[k]]
  {
    var v := D[c].nameForNode[k];
    HashAtNode(Names, t, D, meshCounts, mergeMeshes, mergeMaterials, |D|, c, k);
    NamesBeforeAt(D, |D|, c, v);
    assert AddU32(v, ToU32(1 + NameCount(D, c))) == 1 + NameCount(D, c) + v;
  }

  /** Every named node of every scene keeps its name: the merged scene maps it to a name id
      that indexes the merged names at the same string. */
  lemma MergedNodeName(t: SceneData, D: seq<SceneData>, rootTransforms: seq<Mat4>, meshCounts: seq<u32>,
                       mergeMeshes: bool, mergeMaterials: bool, mul: MatMul, c: int, k: int)
    requires MergeRequires(t, D, rootTransforms, meshCounts, mergeMeshes) && KeysInRange(D, Names)
    requires t.nameForNode.Keys <= {0} && NameCount(D, |D|) < TWO_31
    requires 0 <= c < |D| && 0 <= k < |D[c].hierarchy|
    requires k in D[c].nameForNode && D[c].nameForNode[k] < |D[c].names|
    ensures var d := Merged(t, D, rootTransforms, meshCounts, mergeMeshes, mergeMaterials, mul);
            var j := Start(D, c) + k;
            j in d.nameForNode && d.nameForNode[j] < |d.names| &&
            d.names[d.nameForNode[j]] == D[c].names[D[c].nameForNode[k]]
  {
    MergedTables(t, D, rootTransforms, meshCounts, mergeMeshes, mergeMaterials, mul);
    StageNodeName(t, D, meshCounts, mergeMeshes, mergeMaterials, c, k);
  }


  /** With mergeMaterials, material name v of scene c follows the target's material names and
      those of the scenes before c. */
  lemma {:induction false} MaterialNamesAtIndex(t: SceneData, D: seq<SceneData>, b: int, c: int, v: int)
    requires 0 <= c < b <= |D| && 0 <= v < |D[c].materialNames|
    ensures var i := |t.materialNames| + MaterialCount(D, c) + v;
            i < |MaterialNamesAt(t, D, true, b)| && MaterialNamesAt(t, D, true, b)[i] == D[c].materialNames[v]
    decreases b
  {
    MaterialNamesAtSize(t, D, b);
    if c < b - 1 {
      MaterialNamesAtIndex(t, D, b - 1, c, v);
    } else {
      MaterialNamesAtSize(t, D, b - 1);
    }
  }

  lemma {:induction false} MaterialNamesAtSize(t: SceneData, D: seq<SceneData>, b: int)
    requires 0 <= b <= |D| && 0 < |D|
    ensures |MaterialNamesAt(t, D, true, b)| == |t.materialNames| + MaterialCount(D, b)
    decreases b
  {
    if b > 0 {
      MaterialNamesAtSize(t, D, b - 1);
    }
  }

  /** Without mergeMaterials the merged material names are those of the first scene. */
  lemma {:induction false} MaterialNamesAtFirst(t: SceneData, D: seq<SceneData>, b: int)
    requires 0 <= b <= |D| && 0 < |D|
    ensures MaterialNamesAt(t, D, false, b) == D[0].materialNames
    decreases b
  {
    if b > 0 {
      MaterialNamesAtFirst(t, D, b - 1);
    }
  }

  /** The first loop maps every node with a material to the same material name (with
      mergeMaterials) or to the same id over the first scene's material names (without). */
  lemma StageNodeMaterial(t: SceneData, D: seq<SceneData>, meshCounts: seq<u32>, mergeMeshes: bool, mergeMaterials: bool,
                          c: int, k: int)
    requires (mergeMeshes ==> |meshCounts| >= |D|) && Start(D, |D|) < TWO_31 && KeysInRange(D, Materials)
    requires t.materialForNode.Keys <= {0} && MaterialCount(D, |D|) < TWO_31
    requires 0 <= c < |D| && 0 <= k < |D[c].hierarchy| && k in D[c].materialForNode
    requires mergeMaterials ==> t.materialNames == [] && D[c].materialForNode[k] < |D[c].materialNames|
    ensures var m := HashAt(Materials, t, D, meshCounts, mergeMeshes, mergeMaterials, |D|);
            var names := MaterialNamesAt(t, D, mergeMaterials, |D|);
            var j := Start(D, c) + k;
            var v := D[c].materialForNode[k];
            j in m &&
            (mergeMaterials ==> m[j] < |names| && names[m[j]] == D[c].materialNames[v]) &&
            (!mergeMaterials ==> m[j] == v && names == D[0].materialNames)
  {
    var v := D[c].materialForNode[k];
    HashAtNode(Materials, t, D, meshCounts, mergeMeshes, mergeMaterials, |D|, c, k);
    if mergeMaterials {
      MaterialNamesAtIndex(t, D, |D|, c, v);
      MaterialNamesAtSize(t, D, |D|);
      assert AddU32(v, ToU32(MaterialCount(D, c))) == MaterialCount(D, c) + v;
    } else {
      MaterialNamesAtFirst(t, D, |D|);
    }
  }

  /** Every node of every scene that has a material keeps it. With mergeMaterials and a
      target without material names, its id is shifted past the material names of the
      scenes before; without mergeMaterials the id is kept and read against the first
      scene's material names. */
  lemma MergedNodeMaterial(t: SceneData, D: seq<SceneData>, rootTransforms: seq<Mat4>, meshCounts: seq<u32>,
                           mergeMeshes: bool, mergeMaterials: bool, mul: MatMul, c: int, k: int)
    requires MergeRequires(t, D, rootTransforms, meshCounts, mergeMeshes) && KeysInRange(D, Materials)
    requires t.materialForNode.Keys <= {0} && MaterialCount(D, |D|) < TWO_31
    requires 0 <= c < |D| && 0 <= k < |D[c].hierarchy| && k in D[c].materialForNode
    requires mergeMaterials ==> t.materialNames == [] && D[c].materialForNode[k] < |D[c].materialNames|
    ensures var d := Merged(t, D, rootTransforms, meshCounts, mergeMeshes, mergeMaterials, mul);
            var j := Start(D, c) + k;
            var v := D[c].materialForNode[k];
            j in d.materialForNode &&
            (mergeMaterials ==> d.materialForNode[j] < |d.materialNames| &&
                                d.materialNames[d.materialForNode[j]] == D[c].materialNames[v]) &&
            (!mergeMaterials ==> d.materialForNode[j] == v && d.materialNames == D[0].materialNames)
  {
    MergedTables(t, D, rootTransforms, meshCounts, mergeMeshes, mergeMaterials, mul);
    StageNodeMaterial(t, D, meshCounts, mergeMeshes, mergeMaterials, c, k);
  }


  // ------------------------------------------------------------------ the local transforms

  /** Every scene has one local transform per node. */
  predicate TransformsAligned(D: seq<SceneData>)
  {
    forall c :: 0 <= c < |D| ==> |D[c].local| == |D[c].hierarchy|
  }

  lemma {:induction false} LocalCountIsStart(D: seq<SceneData>, b: int)
    requires TransformsAligned(D) && 0 <= b <= |D|
    ensures LocalCount(D, b) == Start(D, b) - 1
    decreases b
  {
    if b > 0 {
      LocalCountIsStart(D, b - 1);
    }
  }

  /** Local transform k of scene c follows the target's, the new root's and those of the
      scenes before c. */
  lemma {:induction false} LocalsAtIndex(t: SceneData, D: seq<SceneData>, b: int, c: int, k: int)
    requires 0 <= c < b <= |D| && 0 <= k < |D[c].local|
    ensures var i := |t.local| + 1 + LocalCount(D, c) + k;
            i < |LocalsAt(t, D, b)| && LocalsAt(t, D, b)[i] == D[c].local[k]
    decreases b
  {
    if c < b - 1 {
      LocalsAtIndex(t, D, b - 1, c, k);
    }
  }

  /** A node of scene c other than its root is no scene's start. */
  lemma InsideScene(D: seq<SceneData>, c: int, k: int)
    requires 0 <= c < |D| && 0 < k < |D[c].hierarchy|
    ensures Start(D, c) + k < Start(D, |D|)
    ensures forall c' :: 0 <= c' < |D| ==> Start(D, c') != Start(D, c) + k
  {
    forall c' | 0 <= c' < |D| ensures Start(D, c') != Start(D, c) + k {
      if c' <= c {
        StartMono(D, c', c);
      } else {
        StartMono(D, c + 1, c');
      }
    }
    StartMono(D, c + 1, |D|);
  }

  /** Merged into a target without transforms, every node keeps its local transform at its
      new index, except that an old root's is premultiplied by its root transform when
      those are given. */
  lemma MergedLocalAt(t: SceneData, D: seq<SceneData>, rootTransforms: seq<Mat4>, meshCounts: seq<u32>,
                      mergeMeshes: bool, mergeMaterials: bool, mul: MatMul, c: int, k: int)
    requires MergeRequires(t, D, rootTransforms, meshCounts, mergeMeshes) && NonEmptyScenes(D)
    requires t.local == [] && TransformsAligned(D)
    requires 0 <= c < |D| && 0 <= k < |D[c].hierarchy|
    ensures var L := Merged(t, D, rootTransforms, meshCounts, mergeMeshes, mergeMaterials, mul).local;
            var j := Start(D, c) + k;
            j < |L| &&
            L[j] == if k == 0 && |rootTransforms| > 0 then mul(rootTransforms[c], D[c].local[0]) else D[c].local[k]
  {
    var data := Stage(t, D, meshCounts, mergeMeshes, mergeMaterials, |D|).data;
    var j := Start(D, c) + k;
    MergedHierarchyIs(t, D, rootTransforms, meshCounts, mergeMeshes, mergeMaterials, mul);
    LocalCountIsStart(D, c);
    LocalCountIsStart(D, |D|);
    LocalsAtIndex(t, D, |D|, c, k);
    if k == 0 {
      RootsFixedRoot(data, D, rootTransforms, mul, |D|, c);
    } else {
      InsideScene(D, c, k);
      RootsFixedOther(data, D, rootTransforms, mul, |D|, j);
    }
  }


  // ------------------------------------------------------------------ the whole result

  /** Merging non-empty, single-rooted scenes with consistent levels yields one tree: the
      links are well formed, every level is one below its parent's, and the children of the
      new root are the old roots in scene order. */
  lemma MergedForest(t: SceneData, D: seq<SceneData>, rootTransforms: seq<Mat4>, meshCounts: seq<u32>,
                     mergeMeshes: bool, mergeMaterials: bool, mul: MatMul)
    requires MergeRequires(t, D, rootTransforms, meshCounts, mergeMeshes) && SingleRootedScenes(D) && 0 < |D|
    requires forall c :: 0 <= c < |D| ==> LevelsConsistent(D[c].hierarchy)
    ensures var H := Merged(t, D, rootTransforms, meshCounts, mergeMeshes, mergeMaterials, mul).hierarchy;
            Linked(H) && LevelsConsistent(H) && Children(H, 0) == RootsFrom(D, 0)
    ensures (forall c :: 0 <= c < |D| ==> ParentsAgree(D[c].hierarchy)) ==>
              ParentsAgree(Merged(t, D, rootTransforms, meshCounts, mergeMeshes, mergeMaterials, mul).hierarchy)
  {
    var H := Merged(t, D, rootTransforms, meshCounts, mergeMeshes, mergeMaterials, mul).hierarchy;
    MergedPlaced(t, D, rootTransforms, meshCounts, mergeMeshes, mergeMaterials, mul);
    PlacedLinked(H, D);
    PlacedLevelsConsistent(H, D);
    PlacedChildren(H, D);
    if forall c :: 0 <= c < |D| ==> ParentsAgree(D[c].hierarchy) {
      PlacedParentsAgree(H, D);
    }
  }

  /** Merging no scenes leaves the new root alone, its first child pointing past the end:
      the result is not a well-linked hierarchy. */
  lemma MergedNoScenes(t: SceneData, rootTransforms: seq<Mat4>, meshCounts: seq<u32>,
                       mergeMeshes: bool, mergeMaterials: bool, mul: MatMul)
    requires MergeRequires(t, [], rootTransforms, meshCounts, mergeMeshes)
    ensures var H := Merged(t, [], rootTransforms, meshCounts, mergeMeshes, mergeMaterials, mul).hierarchy;
            |H| == 1 && !Linked(H)
  {
    var H := Merged(t, [], rootTransforms, meshCounts, mergeMeshes, mergeMaterials, mul).hierarchy;
    assert !LinkedAt(H, 0);
  }
}
