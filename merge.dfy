/** mergeScenes and its helpers: several scenes become the subtrees of one new root,
    with every node id, name id, mesh id and material id shifted past the scenes
    before it. */
module Merge {
  import opened Common
  import opened SceneGraph
  import opened Scenes

  // ---------------------------------------------------------------- mergeMaps

  /** quint32 addition, wrapping modulo 2^32. */
  function AddU32(a: u32, b: u32): u32
  {
    if a + b < TWO_32 then a + b else a + b - TWO_32
  }

  /** quint32 subtraction, wrapping modulo 2^32. */
  function SubU32(a: u32, b: u32): u32
  {
    if a >= b then a - b else a - b + TWO_32
  }

  /** Wrapping addition is addition modulo 2^32, and subtraction undoes it. */
  lemma AddSubU32(a: u32, b: u32)
    ensures AddU32(a, b) == ToU32(a + b)
    ensures SubU32(AddU32(a, b), b) == a && AddU32(SubU32(a, b), b) == a
  {
  }

  /** The entries of `other` with every key shifted by `keyOff` and every value by `valOff`,
      in quint32 arithmetic, inserted one entry at a time. */
  ghost function ShiftedMap(other: map<u32, u32>, keyOff: u32, valOff: u32): map<u32, u32>
    decreases other.Keys
  {
    if other == map[] then map[]
    else
      var k :| k in other;
      ShiftedMap(other - {k}, keyOff, valOff)[AddU32(k, keyOff) := AddU32(other[k], valOff)]
  }

  /** Key j of the shifted map is the shifted key of exactly one entry of `other`, and holds
      that entry's shifted value. */
  lemma {:induction false} ShiftedMapAt(other: map<u32, u32>, keyOff: u32, valOff: u32, j: u32)
    ensures j in ShiftedMap(other, keyOff, valOff) <==> SubU32(j, keyOff) in other
    ensures j in ShiftedMap(other, keyOff, valOff) ==>
              ShiftedMap(other, keyOff, valOff)[j] == AddU32(other[SubU32(j, keyOff)], valOff)
    decreases other.Keys
  {
    if other != map[] {
      var k :| k in other && ShiftedMap(other, keyOff, valOff) ==
               ShiftedMap(other - {k}, keyOff, valOff)[AddU32(k, keyOff) := AddU32(other[k], valOff)];
      ShiftedMapAt(other - {k}, keyOff, valOff, j);
      AddSubU32(k, keyOff);
      AddSubU32(SubU32(j, keyOff), keyOff);
    }
  }

  /** The shifted map holds exactly the shifted entries. */
  lemma ShiftedMapEntries(other: map<u32, u32>, keyOff: u32, valOff: u32, k: u32)
    ensures k in other ==>
              AddU32(k, keyOff) in ShiftedMap(other, keyOff, valOff) &&
              ShiftedMap(other, keyOff, valOff)[AddU32(k, keyOff)] == AddU32(other[k], valOff)
    ensures k in ShiftedMap(other, keyOff, valOff) <==> SubU32(k, keyOff) in other
  {
    ShiftedMapAt(other, keyOff, valOff, k);
    ShiftedMapAt(other, keyOff, valOff, AddU32(k, keyOff));
    AddSubU32(k, keyOff);
  }

  /** Shifting by the opposite offsets restores every entry: a key is present after the
      round trip exactly when it was before, with the same value. */
  lemma ShiftedMapRoundTrip(other: map<u32, u32>, keyOff: u32, valOff: u32, k: u32)
    ensures var t := ShiftedMap(ShiftedMap(other, keyOff, valOff), SubU32(0, keyOff), SubU32(0, valOff));
            (k in t <==> k in other) && (k in t ==> t[k] == other[k])
  {
    var nk := SubU32(0, keyOff);
    var once := ShiftedMap(other, keyOff, valOff);
    ShiftedMapAt(once, nk, SubU32(0, valOff), k);
    ShiftedMapAt(other, keyOff, valOff, SubU32(k, nk));
    assert SubU32(SubU32(k, nk), keyOff) == k;
    if k in other {
      assert AddU32(AddU32(other[k], valOff), SubU32(0, valOff)) == other[k];
    }
  }

  /** Shifting a map with one more entry adds that entry, shifted. */
  lemma ShiftedMapInsert(d: map<u32, u32>, k: u32, v: u32, keyOff: u32, valOff: u32)
    ensures ShiftedMap(d[k := v], keyOff, valOff) ==
              ShiftedMap(d, keyOff, valOff)[AddU32(k, keyOff) := AddU32(v, valOff)]
  {
    var l := ShiftedMap(d[k := v], keyOff, valOff);
    var r := ShiftedMap(d, keyOff, valOff)[AddU32(k, keyOff) := AddU32(v, valOff)];
    forall j: u32
      ensures j in l <==> j in r
      ensures j in l ==> l[j] == r[j]
    {
      InsertAt(d, k, v, keyOff, valOff, j);
    }
    assert l == r;
  }

  lemma InsertAt(d: map<u32, u32>, k: u32, v: u32, keyOff: u32, valOff: u32, j: u32)
    ensures var l := ShiftedMap(d[k := v], keyOff, valOff);
            var r := ShiftedMap(d, keyOff, valOff)[AddU32(k, keyOff) := AddU32(v, valOff)];
            (j in l <==> j in r) && (j in l ==> l[j] == r[j])
  {
    ShiftedMapAt(d[k := v], keyOff, valOff, j);
    ShiftedMapAt(d, keyOff, valOff, j);
    AddSubU32(SubU32(j, keyOff), keyOff);
    AddSubU32(k, keyOff);
    if j == AddU32(k, keyOff) {
      assert SubU32(j, keyOff) == k;
    } else {
      assert SubU32(j, keyOff) != k;
    }
  }

  /** After the entries of otherMap outside `rest` have been inserted into m. */
  ghost predicate MergedSoFar(r: map<u32, u32>, m: map<u32, u32>, otherMap: map<u32, u32>, rest: map<u32, u32>,
                        ko: u32, vo: u32)
  {
    (forall k :: k in rest ==> k in otherMap && rest[k] == otherMap[k]) &&
    r == m + ShiftedMap(otherMap - rest.Keys, ko, vo)
  }

  lemma MergedSoFarStep(r: map<u32, u32>, m: map<u32, u32>, otherMap: map<u32, u32>, rest: map<u32, u32>,
                        ko: u32, vo: u32, k: u32)
    requires MergedSoFar(r, m, otherMap, rest, ko, vo) && k in rest
    ensures MergedSoFar(r[AddU32(k, ko) := AddU32(rest[k], vo)], m, otherMap, rest - {k}, ko, vo)
  {
    var done := otherMap - rest.Keys;
    ShiftedMapInsert(done, k, rest[k], ko, vo);
    DoneStep(otherMap, rest, k);
    UnionUpdate(m, ShiftedMap(done, ko, vo), AddU32(k, ko), AddU32(rest[k], vo));
    RestShrinks(otherMap, rest, k);
  }

  lemma UnionUpdate(m: map<u32, u32>, s: map<u32, u32>, x: u32, y: u32)
    ensures (m + s)[x := y] == m + s[x := y]
  {
  }

  lemma DoneStep(all: map<u32, u32>, rest: map<u32, u32>, k: u32)
    requires k in rest && forall j :: j in rest ==> j in all && rest[j] == all[j]
    ensures all - (rest - {k}).Keys == (all - rest.Keys)[k := rest[k]]
  {
  }

  lemma RestShrinks(all: map<u32, u32>, rest: map<u32, u32>, k: u32)
    requires forall j :: j in rest ==> j in all && rest[j] == all[j]
    ensures forall j :: j in rest - {k} ==> j in all && (rest - {k})[j] == all[j]
  {
  }

  lemma MergedSoFarEnds(r: map<u32, u32>, m: map<u32, u32>, otherMap: map<u32, u32>, ko: u32, vo: u32)
    requires MergedSoFar(r, m, otherMap, map[], ko, vo)
    ensures r == m + ShiftedMap(otherMap, ko, vo)
  {
    var none: map<u32, u32> := map[];
    assert none.Keys == {};
    assert otherMap - none.Keys == otherMap;
  }

  lemma MergedSoFarStarts(m: map<u32, u32>, otherMap: map<u32, u32>, ko: u32, vo: u32)
    ensures MergedSoFar(m, m, otherMap, otherMap, ko, vo)
  {
    assert otherMap - otherMap.Keys == map[];
    assert ShiftedMap(map[], ko, vo) == map[];
    assert m + map[] == m;
  }

  /** m with the entries of otherMap, shifted by the two qint32 offsets taken as quint32,
      inserted over it. */
  ghost function MergedMap(m: map<u32, u32>, otherMap: map<u32, u32>, indexOffset: int, itemOffset: int): map<u32, u32>
  {
    m + ShiftedMap(otherMap, ToU32(indexOffset), ToU32(itemOffset))
  }

  /** mergeMaps: every entry of otherMap goes into m with its key shifted by indexOffset and
      its value by itemOffset, both converted to quint32, replacing an entry m already has
      under that key. The hash is walked in an order the result does not depend on. */
  method MergeMaps(m: map<u32, u32>, otherMap: map<u32, u32>, indexOffset: int, itemOffset: int)
    returns (r: map<u32, u32>)
    ensures r == MergedMap(m, otherMap, indexOffset, itemOffset)
  {
    var ko, vo := ToU32(indexOffset), ToU32(itemOffset);
    r := m;
    var rest := otherMap;
    MergedSoFarStarts(m, otherMap, ko, vo);
    while rest != map[]
      invariant MergedSoFar(r, m, otherMap, rest, ko, vo)
      decreases |rest|
    {
      var k :| k in rest;
      MergedSoFarStep(r, m, otherMap, rest, ko, vo, k);
      r := r[AddU32(k, ko) := AddU32(rest[k], vo)];
      rest := rest - {k};
    }
    MergedSoFarEnds(r, m, otherMap, ko, vo);
  }

  // ---------------------------------------------------------------- shiftNodes

  /** The shiftNode lambda: every link that is not negative moves by `amount`. */
  function ShiftEntry(e: Hierarchy, amount: int): Hierarchy
  {
    Hierarchy(if e.parent > -1 then e.parent + amount else e.parent,
              if e.firstChild > -1 then e.firstChild + amount else e.firstChild,
              if e.nextSibling > -1 then e.nextSibling + amount else e.nextSibling,
              if e.lastSibling > -1 then e.lastSibling + amount else e.lastSibling,
              e.level)
  }

  /** Shifting forward and back again restores the entry. */
  lemma ShiftEntryRoundTrip(e: Hierarchy, amount: int)
    requires amount >= 0
    ensures ShiftEntry(ShiftEntry(e, amount), -amount) == e
  {
  }

  /** A block of hierarchy entries, each shifted by `amount`. */
  function ShiftBlock(h: seq<Hierarchy>, amount: int): (r: seq<Hierarchy>)
    ensures |r| == |h|
  {
    seq(|h|, j requires 0 <= j < |h| => ShiftEntry(h[j], amount))
  }

  /** The hierarchy with the entries startOffset .. startOffset + nodeCount - 1 shifted. */
  function ShiftRange(h: seq<Hierarchy>, startOffset: int, nodeCount: int, shiftAmount: int): (r: seq<Hierarchy>)
    ensures |r| == |h|
  {
    seq(|h|, k requires 0 <= k < |h| =>
          if startOffset <= k < startOffset + nodeCount then ShiftEntry(h[k], shiftAmount) else h[k])
  }

  /** shiftNodes: the nodeCount entries from startOffset on are shifted by shiftAmount, and
      nothing else in the scene changes. */
  method ShiftNodes(scene: Scene, startOffset: int, nodeCount: int, shiftAmount: int)
    requires 0 <= startOffset && 0 <= nodeCount && startOffset + nodeCount <= |scene.hierarchy|
    modifies scene
    ensures scene.hierarchy == ShiftRange(old(scene.hierarchy), startOffset, nodeCount, shiftAmount)
    ensures Data(scene) == old(Data(scene)).(hierarchy := scene.hierarchy)
    ensures scene.changedAtThisFrame == old(scene.changedAtThisFrame)
  {
    var h := scene.hierarchy;
    ghost var h0 := h;
    for i := 0 to nodeCount
      invariant |h| == |h0|
      invariant forall k :: 0 <= k < |h0| ==>
                  h[k] == if startOffset <= k < startOffset + i then ShiftEntry(h0[k], shiftAmount) else h0[k]
    {
      h := h[i + startOffset := ShiftEntry(h[i + startOffset], shiftAmount)];
    }
    scene.hierarchy := h;
  }

  /** Shifting a range changes the entries inside it only, and shifting the block just appended
      to a hierarchy shifts exactly the appended entries. */
  lemma ShiftAppended(h: seq<Hierarchy>, d: seq<Hierarchy>, offs: int)
    requires offs == |h|
    ensures ShiftRange(h + d, offs, |d|, offs) == h + ShiftBlock(d, offs)
  {
  }

  // ---------------------------------------------------------------- mergeScenes

  /** The parts of a Scene that mergeScenes reads or writes, as one value. */
  datatype SceneData = SceneData(local: seq<Mat4>, global: seq<Mat4>, hierarchy: seq<Hierarchy>,
                                 meshes: map<u32, u32>, materialForNode: map<u32, u32>,
                                 nameForNode: map<u32, u32>, names: seq<string>, materialNames: seq<string>)

  function Data(s: Scene): SceneData
    reads s
  {
    SceneData(s.localTransforms, s.globalTransforms, s.hierarchy, s.meshes, s.materialForNode,
              s.nameForNode, s.names, s.materialNames)
  }

  function Snapshots(ss: seq<Scene>): (r: seq<SceneData>)
    reads ss
    ensures |r| == |ss|
  {
    seq(|ss|, i requires 0 <= i < |ss| reads ss => Data(ss[i]))
  }

  /** The index of the first node of scene b in the merged hierarchy; Start(D, |D|) is its length. */
  function Start(D: seq<SceneData>, b: int): (r: int)
    requires 0 <= b <= |D|
    ensures r >= 1
  {
    if b == 0 then 1 else Start(D, b - 1) + |D[b - 1].hierarchy|
  }

  lemma {:induction false} StartMono(D: seq<SceneData>, b: int, c: int)
    requires 0 <= b <= c <= |D|
    ensures Start(D, b) <= Start(D, c)
    decreases c
  {
    if b < c {
      StartMono(D, b, c - 1);
    }
  }

  /** The number of local transforms of the scenes before b. */
  function LocalCount(D: seq<SceneData>, b: int): (r: int)
    requires 0 <= b <= |D|
    ensures r >= 0
  {
    if b == 0 then 0 else LocalCount(D, b - 1) + |D[b - 1].local|
  }

  /** The new root, the identity transforms appended for it and its name. The other hashes
      and the local transforms already present are kept. */
  function Preamble(t: SceneData): SceneData
  {
    SceneData(t.local + [IDENTITY_MAT], t.global + [IDENTITY_MAT], [Hierarchy(-1, 1, -1, -1, 0)],
              t.meshes, t.materialForNode, t.nameForNode[0 := 0], ["NewRoot"], t.materialNames)
  }

  /** The running state of the first loop: the scene so far and the four offsets. */
  datatype Progress = Progress(data: SceneData, offs: int, meshOffs: int, materialOfs: int, nameOffs: int)

  /** The three hashes mergeScenes merges, keyed by node id. */
  datatype Hash = Meshes | Materials | Names

  function HashOf(d: SceneData, x: Hash): map<u32, u32>
  {
    match x
    case Meshes => d.meshes
    case Materials => d.materialForNode
    case Names => d.nameForNode
  }

  /** The number of names, respectively material names, of the scenes before b. */
  function NameCount(D: seq<SceneData>, b: int): (r: int)
    requires 0 <= b <= |D|
    ensures r >= 0
  {
    if b == 0 then 0 else NameCount(D, b - 1) + |D[b - 1].names|
  }

  function MaterialCount(D: seq<SceneData>, b: int): (r: int)
    requires 0 <= b <= |D|
    ensures r >= 0
  {
    if b == 0 then 0 else MaterialCount(D, b - 1) + |D[b - 1].materialNames|
  }

  /** The sum of the first b mesh counts. */
  function MeshSum(meshCounts: seq<u32>, b: int): (r: int)
    requires 0 <= b <= |meshCounts|
    ensures r >= 0
  {
    if b == 0 then 0 else MeshSum(meshCounts, b - 1) + meshCounts[b - 1]
  }

  /** What mergeScenes adds to the values of hash x of scene c: the mesh counts of the scenes
      before it when meshes are merged, their material name counts when materials are, and
      the number of names before its own (the new root's included). */
  function ValueShift(x: Hash, D: seq<SceneData>, meshCounts: seq<u32>, mergeMeshes: bool, mergeMaterials: bool,
                      c: int): int
    requires 0 <= c <= |D| && (mergeMeshes ==> |meshCounts| >= |D|)
  {
    match x
    case Meshes => if mergeMeshes then MeshSum(meshCounts, c) else 0
    case Materials => if mergeMaterials then MaterialCount(D, c) else 0
    case Names => 1 + NameCount(D, c)
  }

  /** The lists of d appended to those of the scene, its block of the hierarchy shifted by
      offs; the material names only when materials are merged. */
  ghost function ListsAppended(data: SceneData, d: SceneData, offs: int, mergeMaterials: bool): SceneData
  {
    data.(local := data.local + d.local,
          global := data.global + d.global,
          hierarchy := data.hierarchy + ShiftBlock(d.hierarchy, offs),
          names := data.names + d.names,
          materialNames := if mergeMaterials then data.materialNames + d.materialNames else data.materialNames)
  }

  /** The three hashes of d merged into those of the scene: keys shifted by offs, values by
      the offset given for each hash. */
  ghost function HashesMerged(data: SceneData, d: SceneData, offs: int, meshOffs: int, materialOfs: int, nameOffs: int)
    : SceneData
  {
    data.(meshes := MergedMap(data.meshes, d.meshes, offs, meshOffs),
          materialForNode := MergedMap(data.materialForNode, d.materialForNode, offs, materialOfs),
          nameForNode := MergedMap(data.nameForNode, d.nameForNode, offs, nameOffs))
  }

  /** One round of the first loop: the lists of d appended, its hashes merged, and the offsets
      advanced. Mesh and material ids are shifted only when meshes, respectively materials,
      are merged. The offsets go through mergeMaps' qint32 parameters into quint32
      arithmetic. */
  ghost function AddScene(p: Progress, d: SceneData, mergeMeshes: bool, mergeMaterials: bool, meshCount: int)
    : (r: Progress)
    requires p.offs == |p.data.hierarchy|
    ensures r.offs == |r.data.hierarchy|
  {
    Progress(
      HashesMerged(ListsAppended(p.data, d, p.offs, mergeMaterials), d, p.offs,
                   if mergeMeshes then p.meshOffs else 0, if mergeMaterials then p.materialOfs else 0, p.nameOffs),
      p.offs + |d.hierarchy|,
      p.meshOffs + (if mergeMeshes then meshCount else 0),
      p.materialOfs + |d.materialNames|,
      p.nameOffs + |d.names|)
  }

  // The state after b rounds of the first loop, one component at a time.

  /** The local transforms: the target's, the new root's identity, then each scene's. */
  function LocalsAt(t: SceneData, D: seq<SceneData>, b: int): (r: seq<Mat4>)
    requires 0 <= b <= |D|
    ensures |r| == |t.local| + 1 + LocalCount(D, b)
  {
    if b == 0 then t.local + [IDENTITY_MAT] else LocalsAt(t, D, b - 1) + D[b - 1].local
  }

  /** The global transforms, laid out as the local ones. */
  function GlobalsAt(t: SceneData, D: seq<SceneData>, b: int): seq<Mat4>
    requires 0 <= b <= |D|
  {
    if b == 0 then t.global + [IDENTITY_MAT] else GlobalsAt(t, D, b - 1) + D[b - 1].global
  }

  /** The hierarchy: the new root followed by the nodes of each scene, its links shifted by
      the scene's start. */
  function HierarchyAt(D: seq<SceneData>, b: int): (r: seq<Hierarchy>)
    requires 0 <= b <= |D|
    ensures |r| == Start(D, b)
  {
    if b == 0 then [Hierarchy(-1, 1, -1, -1, 0)]
    else HierarchyAt(D, b - 1) + ShiftBlock(D[b - 1].hierarchy, Start(D, b - 1))
  }

  /** The names of the scenes before b, one list after the other. */
  function NamesBefore(D: seq<SceneData>, b: int): (r: seq<string>)
    requires 0 <= b <= |D|
    ensures |r| == NameCount(D, b)
  {
    if b == 0 then [] else NamesBefore(D, b - 1) + D[b - 1].names
  }

  /** The material names: with mergeMaterials the target's followed by each scene's, without
      it those of the first scene alone. */
  function MaterialNamesAt(t: SceneData, D: seq<SceneData>, mergeMaterials: bool, b: int): seq<string>
    requires 0 < |D| && 0 <= b <= |D|
  {
    if b == 0 then (if mergeMaterials then t.materialNames else D[0].materialNames)
    else if mergeMaterials then MaterialNamesAt(t, D, mergeMaterials, b - 1) + D[b - 1].materialNames
    else MaterialNamesAt(t, D, mergeMaterials, b - 1)
  }

  /** Hash x: the target's (with the new root's name id), then each scene's merged in with
      mergeMaps. */
  ghost function HashAt(x: Hash, t: SceneData, D: seq<SceneData>, meshCounts: seq<u32>, mergeMeshes: bool,
                        mergeMaterials: bool, b: int): map<u32, u32>
    requires 0 <= b <= |D| && (mergeMeshes ==> |meshCounts| >= |D|)
  {
    if b == 0 then HashOf(Preamble(t), x)
    else MergedMap(HashAt(x, t, D, meshCounts, mergeMeshes, mergeMaterials, b - 1), HashOf(D[b - 1], x),
                   Start(D, b - 1), ValueShift(x, D, meshCounts, mergeMeshes, mergeMaterials, b - 1))
  }

  /** The state after the first b rounds of the first loop, offsets included. */
  ghost function Stage(t: SceneData, D: seq<SceneData>, meshCounts: seq<u32>, mergeMeshes: bool, mergeMaterials: bool,
                       b: int): (r: Progress)
    requires 0 < |D| && 0 <= b <= |D| && (mergeMeshes ==> |meshCounts| >= |D|)
  {
    Progress(SceneData(LocalsAt(t, D, b), GlobalsAt(t, D, b), HierarchyAt(D, b),
                       HashAt(Meshes, t, D, meshCounts, mergeMeshes, mergeMaterials, b),
                       HashAt(Materials, t, D, meshCounts, mergeMeshes, mergeMaterials, b),
                       HashAt(Names, t, D, meshCounts, mergeMeshes, mergeMaterials, b),
                       ["NewRoot"] + NamesBefore(D, b), MaterialNamesAt(t, D, mergeMaterials, b)),
             Start(D, b), ValueShift(Meshes, D, meshCounts, mergeMeshes, mergeMaterials, b), MaterialCount(D, b),
             ValueShift(Names, D, meshCounts, mergeMeshes, mergeMaterials, b))
  }

  /** One round of the first loop merges hash x of the scene as HashAt says. */
  lemma HashStep(x: Hash, t: SceneData, D: seq<SceneData>, meshCounts: seq<u32>, mergeMeshes: bool,
                 mergeMaterials: bool, b: int, p: Progress, meshCount: int)
    requires 0 < |D| && 0 <= b < |D| && (mergeMeshes ==> |meshCounts| >= |D|)
    requires p == Stage(t, D, meshCounts, mergeMeshes, mergeMaterials, b)
    ensures HashOf(AddScene(p, D[b], mergeMeshes, mergeMaterials, meshCount).data, x) ==
              HashAt(x, t, D, meshCounts, mergeMeshes, mergeMaterials, b + 1)
  {
  }

  /** One more round of the first loop is one more AddScene: the loop computes Stage. */
  lemma StageStep(t: SceneData, D: seq<SceneData>, meshCounts: seq<u32>, mergeMeshes: bool, mergeMaterials: bool,
                  b: int, p: Progress, meshCount: int)
    requires 0 < |D| && 0 <= b < |D| && (mergeMeshes ==> |meshCounts| >= |D|)
    requires p == Stage(t, D, meshCounts, mergeMeshes, mergeMaterials, b)
    requires meshCount == if mergeMeshes then meshCounts[b] as int else 0
    ensures Stage(t, D, meshCounts, mergeMeshes, mergeMaterials, b + 1) ==
              AddScene(p, D[b], mergeMeshes, mergeMaterials, meshCount)
  {
    HashStep(Meshes, t, D, meshCounts, mergeMeshes, mergeMaterials, b, p, meshCount);
    HashStep(Materials, t, D, meshCounts, mergeMeshes, mergeMaterials, b, p, meshCount);
    HashStep(Names, t, D, meshCounts, mergeMeshes, mergeMaterials, b, p, meshCount);
    assert (["NewRoot"] + NamesBefore(D, b)) + D[b].names == ["NewRoot"] + NamesBefore(D, b + 1);
  }

  /** What the second loop needs of the state after the first: every scene start indexes the
      hierarchy, and the local transforms when there are root transforms to apply. */
  predicate RootsFixable(data: SceneData, D: seq<SceneData>, rootTransforms: seq<Mat4>)
  {
    0 < |D| && Start(D, |D| - 1) < |data.hierarchy| &&
    (|rootTransforms| > 0 ==> |rootTransforms| >= |D| && Start(D, |D| - 1) < |data.local|)
  }

  /** The node that follows the root of scene b among the new root's children. */
  function NextRoot(D: seq<SceneData>, b: int): int
    requires 0 <= b < |D|
  {
    if b == |D| - 1 then -1 else Start(D, b) + |D[b].hierarchy|
  }

  /** The second loop after b rounds: the old root of each scene so far hangs under node 0 and
      links to the next old root, and its local transform is premultiplied by its root
      transform when root transforms are given. */
  function RootsFixed(data: SceneData, D: seq<SceneData>, rootTransforms: seq<Mat4>, mul: MatMul, b: int)
    : (r: SceneData)
    requires RootsFixable(data, D, rootTransforms) && 0 <= b <= |D|
    ensures |r.hierarchy| == |data.hierarchy| && |r.local| == |data.local|
    ensures r.(hierarchy := data.hierarchy, local := data.local) == data
  {
    if b == 0 then data
    else
      var prev := RootsFixed(data, D, rootTransforms, mul, b - 1);
      var o := Start(D, b - 1);
      StartMono(D, b - 1, |D| - 1);
      var e := prev.hierarchy[o];
      prev.(hierarchy := prev.hierarchy[o := e.(nextSibling := NextRoot(D, b - 1), parent := 0)],
            local := if |rootTransforms| > 0 then prev.local[o := mul(rootTransforms[b - 1], prev.local[o])]
                     else prev.local)
  }

  /** The third loop: every node but the new root moves one level down. */
  function LevelsDown(h: seq<Hierarchy>): (r: seq<Hierarchy>)
    ensures |r| == |h|
  {
    seq(|h|, i requires 0 <= i < |h| => if i == 0 then h[i] else h[i].(level := h[i].level + 1))
  }

  /** What mergeScenes demands: the last scene has a node (its root is written through
      the list operator), a mesh count per scene when meshes are merged, a root transform
      per scene and a local transform at every old root when root transforms are given,
      and node ids that fit the qint32 offsets. */
  predicate MergeRequires(t: SceneData, D: seq<SceneData>, rootTransforms: seq<Mat4>, meshCounts: seq<u32>,
                          mergeMeshes: bool)
  {
    Start(D, |D|) < TWO_31 &&
    (0 < |D| ==>
       |D[|D| - 1].hierarchy| > 0 &&
       (mergeMeshes ==> |meshCounts| >= |D|) &&
       (|rootTransforms| > 0 ==>
          |rootTransforms| >= |D| && Start(D, |D| - 1) < |t.local| + 1 + LocalCount(D, |D|)))
  }

  /** After the first loop the second loop's needs are met. */
  lemma StageRootsFixable(t: SceneData, D: seq<SceneData>, rootTransforms: seq<Mat4>, meshCounts: seq<u32>,
                          mergeMeshes: bool, mergeMaterials: bool)
    requires MergeRequires(t, D, rootTransforms, meshCounts, mergeMeshes) && 0 < |D|
    ensures RootsFixable(Stage(t, D, meshCounts, mergeMeshes, mergeMaterials, |D|).data, D, rootTransforms)
  {
    assert Start(D, |D|) == Start(D, |D| - 1) + |D[|D| - 1].hierarchy|;
  }

  /** The scene mergeScenes leaves behind. */
  ghost function Merged(t: SceneData, D: seq<SceneData>, rootTransforms: seq<Mat4>, meshCounts: seq<u32>,
                  mergeMeshes: bool, mergeMaterials: bool, mul: MatMul): SceneData
    requires MergeRequires(t, D, rootTransforms, meshCounts, mergeMeshes)
  {
    if |D| == 0 then Preamble(t)
    else
      var p := Stage(t, D, meshCounts, mergeMeshes, mergeMaterials, |D|);
      StageRootsFixable(t, D, rootTransforms, meshCounts, mergeMeshes, mergeMaterials);
      var r := RootsFixed(p.data, D, rootTransforms, mul, |D|);
      r.(hierarchy := LevelsDown(r.hierarchy))
  }

  /** The list appends of one round of the first loop of mergeScenes, and shiftNodes. */
  method AppendLists(scene: Scene, s: Scene, offs: int, mergeMaterials: bool)
    requires scene != s && offs == |scene.hierarchy|
    modifies scene
    ensures Data(scene) == ListsAppended(old(Data(scene)), Data(s), offs, mergeMaterials)
    ensures scene.changedAtThisFrame == old(scene.changedAtThisFrame)
  {
    scene.localTransforms := scene.localTransforms + s.localTransforms;
    scene.globalTransforms := scene.globalTransforms + s.globalTransforms;
    ShiftAppended(scene.hierarchy, s.hierarchy, offs);
    scene.hierarchy := scene.hierarchy + s.hierarchy;
    scene.names := scene.names + s.names;
    if mergeMaterials {
      scene.materialNames := scene.materialNames + s.materialNames;
    }
    ShiftNodes(scene, offs, |s.hierarchy|, offs);
  }

  /** The three mergeMaps calls of one round of the first loop of mergeScenes. */
  method MergeHashes(scene: Scene, s: Scene, offs: int, meshOffs: int, materialOfs: int, nameOffs: int)
    requires scene != s
    modifies scene
    ensures Data(scene) == HashesMerged(old(Data(scene)), Data(s), offs, meshOffs, materialOfs, nameOffs)
    ensures scene.changedAtThisFrame == old(scene.changedAtThisFrame)
  {
    var meshes := MergeMaps(scene.meshes, s.meshes, offs, meshOffs);
    var materialForNode := MergeMaps(scene.materialForNode, s.materialForNode, offs, materialOfs);
    var nameForNode := MergeMaps(scene.nameForNode, s.nameForNode, offs, nameOffs);
    scene.meshes, scene.materialForNode, scene.nameForNode := meshes, materialForNode, nameForNode;
  }

  /** One round of the first loop of mergeScenes, on the scene itself. */
  method AppendScene(scene: Scene, s: Scene, offs: int, meshOffs: int, materialOfs: int, nameOffs: int,
                     mergeMeshes: bool, mergeMaterials: bool, meshCount: int, ghost d: SceneData)
    returns (offs': int, meshOffs': int, materialOfs': int, nameOffs': int)
    requires scene != s && offs == |scene.hierarchy| && Data(s) == d
    modifies scene
    ensures Progress(Data(scene), offs', meshOffs', materialOfs', nameOffs') ==
              AddScene(Progress(old(Data(scene)), offs, meshOffs, materialOfs, nameOffs), d,
                       mergeMeshes, mergeMaterials, meshCount)
    ensures scene.changedAtThisFrame == old(scene.changedAtThisFrame)
  {
    AppendLists(scene, s, offs, mergeMaterials);
    MergeHashes(scene, s, offs, if mergeMeshes then meshOffs else 0, if mergeMaterials then materialOfs else 0,
                nameOffs);
    offs' := offs + |s.hierarchy|;
    materialOfs' := materialOfs + |s.materialNames|;
    nameOffs' := nameOffs + |s.names|;
    meshOffs' := meshOffs;
    if mergeMeshes {
      meshOffs' := meshOffs' + meshCount;
    }
  }

  /** The start of mergeScenes: the new root replaces the hierarchy and the names, and gets
      its identity transforms and name id. */
  method AddNewRoot(scene: Scene)
    modifies scene
    ensures Data(scene) == Preamble(old(Data(scene)))
    ensures scene.changedAtThisFrame == old(scene.changedAtThisFrame)
  {
    scene.hierarchy := [Hierarchy(-1, 1, -1, -1, 0)];
    scene.nameForNode := scene.nameForNode[0 := 0];
    scene.names := ["NewRoot"];
    scene.localTransforms := scene.localTransforms + [IDENTITY_MAT];
    scene.globalTransforms := scene.globalTransforms + [IDENTITY_MAT];
  }

  /** One round of the first loop of mergeScenes, stated against Stage. */
  method AppendNext(scene: Scene, s: Scene, offs: int, meshOffs: int, materialOfs: int, nameOffs: int,
                    meshCount: int, mergeMeshes: bool, mergeMaterials: bool, ghost meshCounts: seq<u32>,
                    ghost t: SceneData, ghost D: seq<SceneData>, ghost b: int)
    returns (offs': int, meshOffs': int, materialOfs': int, nameOffs': int)
    requires 0 <= b < |D| && (mergeMeshes ==> |meshCounts| >= |D|)
    requires meshCount == if mergeMeshes then meshCounts[b] as int else 0
    requires scene != s && Data(s) == D[b]
    requires Progress(Data(scene), offs, meshOffs, materialOfs, nameOffs) ==
               Stage(t, D, meshCounts, mergeMeshes, mergeMaterials, b)
    modifies scene
    ensures Progress(Data(scene), offs', meshOffs', materialOfs', nameOffs') ==
              Stage(t, D, meshCounts, mergeMeshes, mergeMaterials, b + 1)
    ensures scene.changedAtThisFrame == old(scene.changedAtThisFrame)
  {
    ghost var p := Progress(Data(scene), offs, meshOffs, materialOfs, nameOffs);
    StageStep(t, D, meshCounts, mergeMeshes, mergeMaterials, b, p, meshCount);
    offs', meshOffs', materialOfs', nameOffs' :=
      AppendScene(scene, s, offs, meshOffs, materialOfs, nameOffs, mergeMeshes, mergeMaterials, meshCount, D[b]);
  }

  /** The material names and the offsets the first loop of mergeScenes starts from. */
  method StartAppending(scene: Scene, first: Scene, mergeMeshes: bool, mergeMaterials: bool, ghost meshCounts: seq<u32>,
                        ghost t: SceneData, ghost D: seq<SceneData>)
    returns (offs: int, meshOffs: int, materialOfs: int, nameOffs: int)
    requires scene != first && 0 < |D| && Data(first) == D[0] && (mergeMeshes ==> |meshCounts| >= |D|)
    requires Data(scene) == Preamble(t)
    modifies scene
    ensures Progress(Data(scene), offs, meshOffs, materialOfs, nameOffs) ==
              Stage(t, D, meshCounts, mergeMeshes, mergeMaterials, 0)
    ensures scene.changedAtThisFrame == old(scene.changedAtThisFrame)
  {
    offs, meshOffs, nameOffs, materialOfs := 1, 0, |scene.names|, 0;
    if !mergeMaterials {
      scene.materialNames := first.materialNames;
    }
  }

  /** The first loop of mergeScenes, with the material names it starts from. */
  method AppendScenes(scene: Scene, scenes: seq<Scene>, meshCounts: seq<u32>, mergeMeshes: bool,
                      mergeMaterials: bool, ghost t: SceneData)
    requires scene !in scenes && 0 < |scenes| && (mergeMeshes ==> |meshCounts| >= |scenes|)
    requires Data(scene) == Preamble(t)
    modifies scene
    ensures Data(scene) == Stage(t, old(Snapshots(scenes)), meshCounts, mergeMeshes, mergeMaterials, |scenes|).data
    ensures scene.changedAtThisFrame == old(scene.changedAtThisFrame)
  {
    ghost var D := Snapshots(scenes);
    var offs, meshOffs, materialOfs, nameOffs := StartAppending(scene, scenes[0], mergeMeshes, mergeMaterials, meshCounts, t, D);
    AppendEach(scene, scenes, offs, meshOffs, materialOfs, nameOffs, meshCounts, mergeMeshes, mergeMaterials, t, D);
  }

  /** The rounds of the first loop of mergeScenes, one scene each. */
  method AppendEach(scene: Scene, scenes: seq<Scene>, offs0: int, meshOffs0: int, materialOfs0: int, nameOffs0: int,
                    meshCounts: seq<u32>, mergeMeshes: bool, mergeMaterials: bool, ghost t: SceneData,
                    ghost D: seq<SceneData>)
    requires scene !in scenes && D == Snapshots(scenes) && 0 < |D| && (mergeMeshes ==> |meshCounts| >= |D|)
    requires Progress(Data(scene), offs0, meshOffs0, materialOfs0, nameOffs0) ==
               Stage(t, D, meshCounts, mergeMeshes, mergeMaterials, 0)
    modifies scene
    ensures Data(scene) == Stage(t, D, meshCounts, mergeMeshes, mergeMaterials, |D|).data
    ensures scene.changedAtThisFrame == old(scene.changedAtThisFrame)
  {
    var offs, meshOffs, materialOfs, nameOffs := offs0, meshOffs0, materialOfs0, nameOffs0;
    for b := 0 to |scenes|
      invariant Progress(Data(scene), offs, meshOffs, materialOfs, nameOffs) ==
                  Stage(t, D, meshCounts, mergeMeshes, mergeMaterials, b)
      invariant scene.changedAtThisFrame == old(scene.changedAtThisFrame)
    {
      assert D[b] == old(Data(scenes[b]));
      offs, meshOffs, materialOfs, nameOffs :=
        AppendNext(scene, scenes[b], offs, meshOffs, materialOfs, nameOffs,
                   if mergeMeshes then meshCounts[b] else 0, mergeMeshes, mergeMaterials, meshCounts, t, D, b);
    }
  }

  /** One round of the second loop of mergeScenes, stated against RootsFixed. */
  method FixRoot(scene: Scene, offs: int, next: int, idx: int, rootTransforms: seq<Mat4>, mul: MatMul,
                 ghost data1: SceneData, ghost D: seq<SceneData>)
    requires RootsFixable(data1, D, rootTransforms) && 0 <= idx < |D|
    requires offs == Start(D, idx) && next == NextRoot(D, idx)
    requires Data(scene) == RootsFixed(data1, D, rootTransforms, mul, idx)
    modifies scene
    ensures Data(scene) == RootsFixed(data1, D, rootTransforms, mul, idx + 1)
    ensures scene.changedAtThisFrame == old(scene.changedAtThisFrame)
  {
    StartMono(D, idx, |D| - 1);
    var h := scene.hierarchy;
    var local := scene.localTransforms;
    h := h[offs := h[offs].(nextSibling := next, parent := 0)];
    if |rootTransforms| > 0 {
      local := local[offs := mul(rootTransforms[idx], local[offs])];
    }
    scene.hierarchy, scene.localTransforms := h, local;
  }

  /** The second loop of mergeScenes: the old roots hang under the new root, linked in scene
      order, with their root transforms applied when given. */
  method FixOldRoots(scene: Scene, scenes: seq<Scene>, rootTransforms: seq<Mat4>, mul: MatMul,
                     ghost D: seq<SceneData>)
    requires scene !in scenes && D == Snapshots(scenes)
    requires RootsFixable(Data(scene), D, rootTransforms)
    modifies scene
    ensures Data(scene) == RootsFixed(old(Data(scene)), D, rootTransforms, mul, |D|)
    ensures scene.changedAtThisFrame == old(scene.changedAtThisFrame)
  {
    ghost var data1 := Data(scene);
    var offs := 1;
    var idx := 0;
    while idx < |scenes|
      invariant 0 <= idx <= |scenes|
      invariant offs == Start(D, idx)
      invariant Data(scene) == RootsFixed(data1, D, rootTransforms, mul, idx)
      invariant scene.changedAtThisFrame == old(scene.changedAtThisFrame)
    {
      assert D[idx] == old(Data(scenes[idx]));
      var nodeCount := |scenes[idx].hierarchy|;
      var next := if idx == |scenes| - 1 then -1 else offs + nodeCount;
      FixRoot(scene, offs, next, idx, rootTransforms, mul, data1, D);
      offs := offs + nodeCount;
      idx := idx + 1;
    }
  }

  /** The third loop of mergeScenes: every node after the new root gets one level deeper. */
  method LevelsBelowRoot(scene: Scene)
    requires |scene.hierarchy| >= 1
    modifies scene
    ensures Data(scene) == old(Data(scene)).(hierarchy := LevelsDown(old(scene.hierarchy)))
    ensures scene.changedAtThisFrame == old(scene.changedAtThisFrame)
  {
    var h := scene.hierarchy;
    ghost var h0 := h;
    for i := 1 to |h|
      invariant |h| == |h0|
      invariant forall k :: 0 <= k < |h| ==> h[k] == if 1 <= k < i then h0[k].(level := h0[k].level + 1) else h0[k]
    {
      h := h[i := h[i].(level := h[i].level + 1)];
    }
    scene.hierarchy := h;
  }

  /** mergeScenes: the target gets a new root, node 0, and the scenes become its subtrees,
      in order, each with its node ids, name ids and (when merged) mesh and material ids
      shifted past those of the scenes before it. */
  method MergeScenes(scene: Scene, scenes: seq<Scene>, rootTransforms: seq<Mat4>, meshCounts: seq<u32>,
                     mergeMeshes: bool, mergeMaterials: bool, mul: MatMul)
    requires scene !in scenes
    requires MergeRequires(Data(scene), Snapshots(scenes), rootTransforms, meshCounts, mergeMeshes)
    modifies scene
    ensures Data(scene) == Merged(old(Data(scene)), old(Snapshots(scenes)), rootTransforms, meshCounts,
                                  mergeMeshes, mergeMaterials, mul)
    ensures scene.changedAtThisFrame == old(scene.changedAtThisFrame)
  {
    ghost var t := Data(scene);
    ghost var D := Snapshots(scenes);
    AddNewRoot(scene);
    if |scenes| == 0 {
      return;
    }
    AppendScenes(scene, scenes, meshCounts, mergeMeshes, mergeMaterials, t);
    ghost var p := Stage(t, D, meshCounts, mergeMeshes, mergeMaterials, |D|);
    assert Data(scene) == p.data;
    StageRootsFixable(t, D, rootTransforms, meshCounts, mergeMeshes, mergeMaterials);
    assert D == Snapshots(scenes) by {
      forall i | 0 <= i < |scenes| ensures D[i] == Data(scenes[i]) {
        assert D[i] == old(Data(scenes[i]));
      }
    }
    FixOldRoots(scene, scenes, rootTransforms, mul, D);
    ghost var r := RootsFixed(p.data, D, rootTransforms, mul, |D|);
    assert Data(scene) == r;
    LevelsBelowRoot(scene);
  }
}
