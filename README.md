# jcqtGLTFLoader scene graph and glTF decoders, in Dafny

This project models the core of jcqtGLTFLoader, a Qt library that loads glTF 2.0 files. It has two parts.

- **The scene graph** (`GLTFScene.cpp`, `GLTFScene.h`). A `Scene` keeps every node in node-indexed parallel lists:
  - local transforms, global transforms and a `Hierarchy` entry per node (parent, first child, next sibling, cached last sibling, cached level);
  - sixteen per-level lists of changed nodes;
  - three sparse node-to-id hashes (mesh, material, name);
  - two string tables.

  The model covers node insertion, change marking, the level-by-level sweep of global transforms, name lookup, merging several scenes under a new root, deleting nodes with their subtrees, and the binary file layout of a scene.
- **The glTF decoders.** These are the tables and defaults that turn glTF JSON objects into samplers, mesh primitives, animations, materials, images and buffer views.

Modules, one per file:
- `Common`: quint32 and qint32 arithmetic, Option/Result, and ASCII case-insensitive comparison.
- `Json`: a QJsonObject abstraction with Qt's conversion defaults.
- `Sampler`, `Mesh`, `Animation`, `Material`, `Image`, `BufferView`: the glTF decoders.
- `SceneGraph`: value-level hierarchy predicates and traversal orders.
- `Scenes`: the `Scene` class and its per-node operations.
- `Merge` and `MergeFacts`: mergeScenes.
- `Deletion`: deleteSceneNodes.
- `Persist`: the save/load file layout.

Code that mutates state is modelled as imperative Dafny; the rest as functions:
- The `Scene` class has methods with `modifies` clauses.
- `GltfBufferView` is a class whose fields are updated in place.
- The loops of the decoders, of mergeScenes and of deleteSceneNodes are methods with loop invariants, each proved against a specification function.
- Pure lookups and the file layout are functions.

Matrices are sixteen raw 32-bit words. The float product of two matrices is a parameter `mul`, because QMatrix4x4 arithmetic is foreign floating-point code.

## Model

| member | source | states |
|---|---|---|
| Sampler.FieldCode | GLTFSampler.h:69-72 | An absent key yields the given default (0 for the filters, 10497 for the wrap modes). A present integer code is used as is. A present value that is not a number reads as 0. |
| Sampler.MagFilterFromCode | GLTFSampler.h:74-88 | Each is an if-and-only-if: 0 gives NOT_SET, 9728 NEAREST, 9729 LINEAR, and every other code INVALID. A recognised filter's numeric value is the code. |
| Sampler.MinFilterFromCode | GLTFSampler.h:90-116 | 0 gives NOT_SET. A code outside {0, 9728, 9729, 9984..9987} gives INVALID, and only those codes do. Every other result's numeric value is the code. |
| Sampler.WrapModeFromCode | GLTFSampler.h:118-154 | One table for wrapS and wrapT, each direction an if-and-only-if: 0 gives NOT_SET, 10497 REPEAT, 33071 CLAMP_TO_EDGE, 33648 MIRRORED_REPEAT, anything else INVALID. |
| Sampler.CreateSamplerFromJson | GLTFSampler.h:66-158 | Absent filters and an explicit 0 both give NOT_SET. Absent wrap modes give REPEAT. A present integer code goes through its table. A non-number wrapS value gives NOT_SET. The JSON object is kept. |
| Sampler.MagFilterCodeRoundTrip | GLTFSampler.h:36-46 | Decoding the numeric value of NEAREST or LINEAR as a magFilter gives the same filter back. |
| Sampler.MipmapCodesInvalidForMag | GLTFSampler.h:74-116 | The mipmap codes 9984-9987 are INVALID as a magFilter but valid as a minFilter. |
| Sampler.MinFilterCodeRoundTrip | GLTFSampler.h:36-46 | Decoding the numeric value of any real filter as a minFilter gives the same filter back. |
| Sampler.WrapModeCodeRoundTrip | GLTFSampler.h:48-55 | Decoding the numeric value of any real wrap mode gives the same mode back. |
| Mesh.ModeFromCode | GLTFMesh.h:80-107 | A code in 0..6 gives the mode whose numeric value is that code; any other code gives INVALID. |
| Mesh.GetMeshPrimitiveFromJson | GLTFMesh.h:68-111 | An absent "indices" or "material" gives index 0, and an absent "mode" gives TRIANGLES. Present keys are decoded through toInteger and the mode table. |
| Mesh.ModeCodeRoundTrip | GLTFMesh.h:41-51 | Every topology mode decodes back from its own numeric value. |
| Mesh.GetPrimitivesFromJsonArray | GLTFMesh.h:113-121 | The output has the array's length, and element i is decoded from array element i. |
| Mesh.CreateMeshFromJson | GLTFMesh.h:133-159 | The result fails with INVALID JSON EXCEPTION exactly when "primitives" is absent. Otherwise the primitives are decoded element by element, and the weights are taken only when "weights" is present. |
| Animation.PathFromString | GLTFAnimation.h:92-112 | Each is an if-and-only-if: the path is TRANSLATION, ROTATION, SCALE or WEIGHTS when the string matches that name case-insensitively. The result is never NOT_SET; anything else is INVALID. |
| Animation.CreateChannelTargetFromJson | GLTFAnimation.h:86-116 | An absent "node" gives -1, and an absent "path" gives INVALID, never NOT_SET. A present path goes through the case-insensitive table. |
| Animation.InterpolationFromString | GLTFAnimation.h:124-141 | Each is an if-and-only-if: "linear", "step" and "cubicspline" (ignoring case) give LINEAR, STEP and CUBICSPLINE. Anything else gives INVALID, never NOT_SET. |
| Animation.CreateAnimationSamplerFromJson | GLTFAnimation.h:118-146 | The input and output indices come from their keys. The interpolation is LINEAR when absent and decoded through the table otherwise. |
| Animation.CreateChannelFromJson | GLTFAnimation.h:148-155 | samplerIdx comes from "sampler" and the target from the "target" object. A channel without a target gets node -1 and path INVALID. |
| Animation.CreateAnimationFromJson | GLTFAnimation.h:157-183 | There are exactly as many channels and samplers as the JSON arrays hold, each decoded from the array element at the same index. |
| Animation.UpperCasePathAccepted | GLTFAnimation.h:92-141 | Case is ignored: "ROTATION" is the rotation path and "Step" is STEP interpolation. |
| Material.CreateTextureFromJson | GLTFMaterial.h:102-114 | The sampler and source indices are -1 when their keys are absent, and toInteger of the value otherwise. |
| Material.TexCoord | GLTFMaterial.h:120-121 | texCoord is 0 when absent, and toInteger of the value otherwise. |
| Material.CreateTextureInfoFromJson | GLTFMaterial.h:116-125 | The index is read unconditionally, so a missing "index" gives 0. texCoord defaults to 0. |
| Material.CreateNormalTextureInfoFromJson | GLTFMaterial.h:127-139 | The index comes from "index"; texCoord defaults to 0. |
| Material.CreateOcclusionTextureInfoFromJson | GLTFMaterial.h:169-181 | The index comes from "index"; texCoord defaults to 0. |
| Material.CreatePbrMetallicRoughnessFromJson | GLTFMaterial.h:141-167 | Each of the two textures is decoded only when its key is present; otherwise it keeps the initial TextureInfo. |
| Material.AlphaModeFromString | GLTFMaterial.h:207-226 | Each is an if-and-only-if: "mask", "blend" and "opaque" (ignoring case) give MASK, BLEND and OPAQUE, and every other string gives INVALID. |
| Material.CreateMaterialFromJson | GLTFMaterial.h:183-232 | An absent alphaMode is OPAQUE. doubleSided holds iff the key holds true. Each sub-object (pbr, normal, occlusion, emissive) is decoded only when present; otherwise it keeps its defaults. |
| Image.IsValidJsonGltfImage | GLTFImage.h:48-65 | Valid iff "uri" is present without "bufferView", or "bufferView" and "mimeType" are present without "uri". |
| Image.IsValidJson | GLTFImage.cpp:12-29 | The four cases of the class's validity test: uri without bufferView is valid; uri with bufferView is not; bufferView alone is valid iff mimeType is present; neither is invalid. |
| Image.ValidityTestsAgree | GLTFImage.cpp:12-29 | The class's validity test and the free function agree on every object. |
| Image.IsInternal | GLTFImage.h:67-70 | True iff the uri starts with "data:", compared case-insensitively. |
| Image.IndexOf | GLTFImage.h:77-78 | QString::indexOf: -1 iff the pattern does not occur; otherwise the first position where it occurs. |
| Image.After | GLTFImage.h:80-80 | The text after the first occurrence of a marker, or nothing when the marker does not occur. |
| Image.Payload | GLTFImage.h:76-128 | The markers are tried in order: "base64,", then "application/octet-stream,", then "application/gltf-buffer,". The payload follows the first marker found; there is none iff no marker occurs. |
| Image.Base64PayloadExample | GLTFImage.h:76-92 | The payload of "data:image/png;base64,QUJD" is "QUJD". |
| Image.GetImageFromInternal | GLTFImage.h:72-137 | An image is produced iff a marker occurs and the payload decodes; its bytes are the decoded payload with the given format. There is no image iff no marker occurs. A decoding failure is an explicit BASE 64 DECODING FAILED failure. |
| Image.CreateImageFromJson | GLTFImage.h:145-187 | The result fails iff the object is invalid (INVALID JSON EXCEPTION) or its data URI fails to decode. An empty mimeType decodes as "image/jpeg". An external URI is loaded from a file. A buffer-view image is left null. |
| BufferView.IsValidJson | GLTFBufferView.cpp:41-44 | Valid iff both "buffer" and "byteLength" are present. |
| BufferView.ApplyJson | GLTFBufferView.cpp:172-220 | The flag is true iff the object is valid. Without "buffer" nothing changes. Without "byteLength" only bufferIndex and byteOffset are updated. On success every field comes from the object, with byteOffset 0, byteStride -1 and target -1 as defaults. |
| BufferView.ApplyJsonForgetsOldFields | GLTFBufferView.cpp:172-220 | On valid JSON the resulting fields do not depend on the fields before. |
| BufferView.ApplyJsonIdempotent | GLTFBufferView.cpp:172-220 | Applying the same object twice is applying it once. |
| BufferView.GltfBufferView.constructor | GLTFBufferView.cpp:14-21 | The fields start at bufferIndex -1, byteOffset 0, byteLength -1, byteStride -1 and target -1, with an empty object. |
| BufferView.GltfBufferView.FromJson | GLTFBufferView.cpp:23-36 | The object is stored. The fields stay at their initial values on invalid JSON and are read as setValuesFromJson reads them on valid JSON. |
| BufferView.GltfBufferView.IsValid | GLTFBufferView.cpp:86-89 | True iff the stored object has "buffer" and "byteLength". |
| BufferView.GltfBufferView.SetValuesFromJson | GLTFBufferView.cpp:172-220 | The flag and the new fields are ApplyJson of the old fields, including the partial update on the early return; the object is unchanged. |
| BufferView.GltfBufferView.SetJsonObject | GLTFBufferView.cpp:161-170 | Returns true iff the object is valid. An invalid object changes neither the stored object nor any field. A valid one is stored and applied. |
| SceneGraph.Siblings | GLTFScene.cpp:160-160 | The nextSibling chain from s is empty iff s is -1, starts at s, and ends at a node whose nextSibling is -1. |
| SceneGraph.Subtree | GLTFScene.cpp:153-164 | The pre-order of a subtree starts at its root and holds only nodes at or after it. |
| SceneGraph.Forest | GLTFScene.cpp:160-163 | The subtrees of a sibling chain, one after the other, are empty iff the chain is. |
| SceneGraph.Descendants | GLTFScene.cpp:762-769 | The subtree of n is n followed by its descendants, and every descendant comes after n. |
| SceneGraph.SubtreeParentIn | GLTFScene.cpp:153-164 | Every node of a subtree other than its root has its parent inside the subtree. |
| SceneGraph.SubtreeDeeper | GLTFScene.cpp:153-164 | With consistent levels, every node of a subtree other than its root is deeper than the root. |
| SceneGraph.SubtreeLevelsContiguous | GLTFScene.cpp:153-164 | With consistent levels, a subtree has a node at every level from its root's level down to that of any of its nodes, so markAsChanged leaves no empty list between them. |
| SceneGraph.AtLevel | GLTFScene.cpp:156-157 | The level filter of a list never holds more ids than the list; AtLevelMembers states which ids it keeps. |
| SceneGraph.AtLevelMembers | GLTFScene.cpp:156-157 | An id is in the level-l filter iff it is in the list and its node has level l. |
| SceneGraph.LevelCountsTotal | GLTFScene.h:39-71 | With every level below MAX_NODE_LEVEL, the sixteen per-level filters of a list add up to the whole list. |
| SceneGraph.Depth | GLTFScene.cpp:186-191 | The number of parent steps from n to a root is at most n. |
| SceneGraph.DepthIsLevel | GLTFScene.h:51-52 | With consistent levels, a node's cached level is its depth. |
| Scenes.Scene.constructor | GLTFScene.h:64-91 | A default Scene: every list and hash empty, and sixteen empty changed lists. Its empty hierarchy satisfies Agreement. |
| Scenes.LastSibling | GLTFScene.cpp:134-134 | The uncached walk ends at a node of the chain whose nextSibling is -1. |
| Scenes.LastSiblingIsChainEnd | GLTFScene.cpp:130-135 | The walk answers with the last element of the sibling chain. |
| Scenes.AppendTarget | GLTFScene.cpp:122-135 | There is no target iff the parent has no child; otherwise the target is a node of the children's chain, after the parent. |
| Scenes.AddToHierarchy | GLTFScene.cpp:101-151 | The new entry has the given parent and level, firstChild and nextSibling -1, and caches itself as lastSibling iff it is the first child. The first child of a childless parent becomes the new node. Otherwise the append target's nextSibling and the first child's lastSibling become the new node. No other entry changes. |
| Scenes.AddKeepsLinked | GLTFScene.cpp:101-151 | addNode keeps every link in range and pointing the right way. |
| Scenes.AddKeepsLevels | GLTFScene.cpp:146-147 | Levels stay in range when the new level is, and stay consistent when the new level is the parent's level plus one. |
| Scenes.AddNode | GLTFScene.cpp:101-151 | Returns the old node count. Both transform lists grow by one zero matrix, the hierarchy becomes AddToHierarchy, the scene stays valid, and nothing else changes. A hierarchy that satisfies Agreement still does afterwards. |
| Scenes.LinkNewNode | GLTFScene.cpp:112-150 | The hierarchy part of addNode: the entry appended and linked after the cached lastSibling, or after the chain end the for loop walks to, is AddToHierarchy. |
| Scenes.SiblingsExtended | GLTFScene.cpp:141-142 | Linking after the end of a chain extends that chain by the new node, which becomes its last node. |
| Scenes.AddNodeAppendsChild | GLTFScene.cpp:120-143 | When the lastSibling cache is -1 or correct, the new node becomes the parent's last child: the children are the old ones followed by it, and the cache names it afterwards. |
| Scenes.SiblingsAfterAppend | GLTFScene.cpp:130-143 | Linking the new node after the end of a chain extends exactly the chains that reach that end by the new node; every other chain is unchanged. |
| Scenes.ChildrenAfterAdd | GLTFScene.cpp:101-151 | With a correct or empty lastSibling cache, the children of an old node after addNode are its old children, followed by the new node exactly when it is the parent. |
| Scenes.AddKeepsParents | GLTFScene.cpp:101-151 | With a correct or empty lastSibling cache, parents that agree with the child chains still agree after addNode. |
| Scenes.AddParentAgreesAt | GLTFScene.cpp:101-151 | After addNode, each node with a parent, the new one included, is on its parent's child chain. |
| Scenes.AddKeepsChildren | GLTFScene.cpp:101-151 | With a correct or empty lastSibling cache, every node on a child chain still names that chain's parent after addNode. |
| Scenes.AddKeepsAgreement | GLTFScene.cpp:101-151 | Both agreements between parent fields and child chains survive addNode. |
| Scenes.AddKeepsCache | GLTFScene.cpp:120-143 | When child chains agree with parent fields, addNode keeps every first child's lastSibling cache -1 or the end of its chain. |
| Scenes.AddKeepsCacheAt | GLTFScene.cpp:120-143 | The cache of one old node's first child is still -1 or its chain end after addNode: the parent's names the new node, and every other chain and cache is unchanged. |
| Scenes.AppendPointsElsewhere | GLTFScene.cpp:130-142 | The two entries addNode writes, the parent's first child and the append target, are never the first child of another node. |
| Scenes.AddKeepsInvariants | GLTFScene.cpp:101-151 | addNode keeps Agreement: parent fields and child chains agree, and every lastSibling cache is -1 or correct. |
| Scenes.AddTwiceKeepsInvariants | GLTFScene.cpp:101-151 | Two addNode calls in a row, the second under any node including the first new one, keep Agreement. |
| Scenes.Marked | GLTFScene.cpp:156-157 | Appending a list of ids grows each level's changed list by exactly the ids at that level, in order. |
| Scenes.MarkAsChanged | GLTFScene.cpp:153-164 | When the levels of the subtree (and only those) are below sixteen, the node and every descendant, in pre-order, are appended to the changed list of their own level. Transforms, hierarchy, hashes and names are unchanged. |
| Scenes.MarkAsChangedCount | GLTFScene.cpp:153-164 | When the subtree's levels are below sixteen, markAsChanged adds, over all levels, exactly one id per node of the subtree. |
| Scenes.ApplyLevel | GLTFScene.cpp:258-273 | Only the listed nodes' global transforms are written; every other node keeps its global transform. ApplyLevelValues gives the written values. |
| Scenes.Sweep | GLTFScene.cpp:255-277 | The sweep keeps the changed lists valid and the transform count fixed. The lists it empties are stated by SweepClears, the values it computes by SweepValues and the nodes it leaves alone by SweepUnlisted. |
| Scenes.SweepClears | GLTFScene.cpp:255-277 | The sweep from level i empties exactly the lists from i up to the first empty list at or after i. Every list before i, and every list from that first empty one on, is left exactly as it was. |
| Scenes.FirstEmpty | GLTFScene.cpp:255-255 | The level where the sweep stops: the first empty list at or after i, or sixteen when there is none; every list before it is non-empty. |
| Scenes.ApplyLevelValues | GLTFScene.cpp:258-273 | When no listed node is the parent of a listed node, each listed node gets mul(global of its parent, its local). |
| Scenes.ParentsNotListedAlongside | GLTFScene.cpp:255-273 | With consistent levels and each id filed at its own level, no node of a level's list is the parent of another node of that list. |
| Scenes.SweepUnlisted | GLTFScene.cpp:255-277 | A node that no list processed by the sweep names keeps its global transform. |
| Scenes.SweepValues | GLTFScene.cpp:255-277 | With consistent levels and each id filed at its own level, every node of a processed level ends with mul(its parent's new global, its local). |
| Scenes.SweepLevels | GLTFScene.cpp:255-277 | The while loop over the levels from 1 computes Sweep of the state on entry. |
| Scenes.SweepStep | GLTFScene.cpp:255-277 | One level of the sweep applies that level's list, empties it, and goes on from the next level. |
| Scenes.SweepLevel | GLTFScene.cpp:258-276 | One round of the level loop: the globals become ApplyLevel of that level's list, that list alone is emptied, and the hierarchy and locals are unchanged. |
| Scenes.SweepValuesAt | GLTFScene.cpp:255-277 | For one node of a processed level, its global after the sweep is mul(its parent's global after the sweep, its local). |
| Scenes.Recalc | GLTFScene.cpp:239-280 | A recalculation keeps the changed lists valid and the transform count fixed. |
| Scenes.RecalcRootOnlyFirst | GLTFScene.cpp:242-247 | With a non-empty level-0 list, its first id gets its local transform as global, and every other level-0 id keeps its global transform, unless a level the sweep processes lists that id too. |
| Scenes.RecalcClears | GLTFScene.cpp:239-280 | Afterwards level 0 is empty, the lists from level 1 up to the first empty list are emptied, and every list from that one on is exactly as it was. |
| Scenes.RecalcAllCleared | GLTFScene.cpp:239-280 | When no non-empty list lies beyond the first empty one, recalculateGlobalTransforms leaves every list empty. |
| Scenes.RecalcIdempotent | GLTFScene.cpp:239-280 | A second recalculation with no markAsChanged in between changes nothing. |
| Scenes.RecalcValues | GLTFScene.cpp:239-280 | With consistent levels and each id filed at its own level: the first root gets its local transform; every node of a processed level gets mul(its parent's new global, its local); every node neither first root nor in a processed list keeps its global. |
| Scenes.MarkedValid | GLTFScene.cpp:153-164 | Marking nodes whose levels are below sixteen keeps the changed lists valid and each id filed at its own level. |
| Scenes.MarkedSubtreeLists | GLTFScene.cpp:153-164 | Marking the subtree of a root into empty lists files the root first at level 0 and each subtree node at its own level. |
| Scenes.MarkedSubtreeProcessed | GLTFScene.cpp:153-164 | After marking a subtree, the sweep reaches the level of every node of it. |
| Scenes.RecalcMarkedSubtree | GLTFScene.cpp:153-280 | markAsChanged of a root followed by recalculateGlobalTransforms: the root gets its local transform, every other subtree node gets mul(its parent's new global, its local), every other node keeps its global, and all lists end empty. |
| Scenes.SubtreeNodeListed | GLTFScene.cpp:153-163 | After markAsChanged of a root, every other node of its subtree has a parent, a level from 1 below the first empty list, and is filed in that level's list. |
| Scenes.RecalcThreeChain | GLTFScene.cpp:153-280 | For a root, its child and grandchild marked together: the root gets its local L0, the child mul(L0, L1) and the grandchild mul(mul(L0, L1), L2). |
| Scenes.RecalcChain | GLTFScene.cpp:153-280 | The same on the concrete three-node chain. |
| Scenes.UpdateLevel | GLTFScene.cpp:258-273 | The loop computes ApplyLevel of the level's list. When no listed node is the parent of a listed node, each listed node's global transform becomes mul(old global of its parent, its local). The lists and everything else are unchanged. |
| Scenes.UpdateRootLevel | GLTFScene.cpp:242-247 | With a non-empty level-0 list, only its first root gets its local transform as global; the level-0 list is emptied and everything else is unchanged. |
| Scenes.RecalculateGlobalTransforms | GLTFScene.cpp:239-280 | The new global transforms and changed lists are Recalc of the old state; local transforms, hierarchy, hashes and names are unchanged. |
| Scenes.GetNodeName | GLTFScene.h:100-104 | A node without a name id yields the empty string; otherwise the name its id indexes. |
| Scenes.SetNodeName | GLTFScene.h:106-111 | Exactly one string is appended, and the node maps to its index, the old names_ size. getNodeName then returns the name. No other node's name changes, and the old string stays. |
| Scenes.NamedAs | GLTFScene.cpp:172-177 | The scan's test on a node: when it holds, the node has a name id and getNodeName returns the name. |
| Scenes.NamedAsIsGetNodeName | GLTFScene.cpp:172-177 | For a non-empty name, the scan's test on a node holds iff getNodeName returns that name. |
| Scenes.FindNodeByName | GLTFScene.cpp:166-184 | Returns the first node carrying the name, or -1 iff no node does. |
| Scenes.GetNodeLevelAsWritten | GLTFScene.cpp:186-191 | As written, the walk starts at node 0 whatever n is, so the answer is always 0. |
| Scenes.GetNodeLevel | GLTFScene.cpp:186-191 | With the walk starting at n, the answer is n's depth, which is its cached level when levels are consistent. |
| Scenes.GetNodeLevelCounterexample | GLTFScene.cpp:186-191 | In a well-formed two-node scene the child is at depth and level 1, which the as-written walk does not answer. |
| Merge.AddSubU32 | GLTFScene.cpp:620-620 | quint32 addition is addition modulo 2^32, and subtraction undoes it. |
| Merge.ShiftedMapAt | GLTFScene.cpp:614-622 | Key j of the shifted hash is present iff j minus the key offset is a key of the source. Its value is that entry's value plus the value offset. |
| Merge.ShiftedMapEntries | GLTFScene.cpp:614-622 | Every source entry appears under its shifted key with its shifted value. |
| Merge.ShiftedMapRoundTrip | GLTFScene.cpp:614-622 | Shifting by the opposite offsets restores every entry exactly. |
| Merge.ShiftedMapInsert | GLTFScene.cpp:614-622 | Shifting a hash with one more entry adds that entry, shifted. |
| Merge.MergeMaps | GLTFScene.cpp:614-622 | The result is the hash overwritten by the shifted entries of the other, whatever the iteration order. |
| Merge.ShiftEntryRoundTrip | GLTFScene.cpp:595-605 | Shifting the non-negative links forward and back restores the entry. |
| Merge.ShiftNodes | GLTFScene.cpp:593-611 | The given range of entries is shifted, and nothing else in the scene changes. |
| Merge.ShiftAppended | GLTFScene.cpp:676-678 | Shifting the block just appended shifts exactly the appended entries. |
| Merge.AddScene | GLTFScene.cpp:663-694 | After each round the running offset equals the hierarchy length. |
| Merge.LocalsAt | GLTFScene.cpp:643-665 | The local transforms are the target's, the new root's, and then every scene's. |
| Merge.HierarchyAt | GLTFScene.cpp:627-678 | The hierarchy after b rounds has Start(D, b) entries. |
| Merge.NamesBefore | GLTFScene.cpp:670-670 | The names of the scenes before b, concatenated, number NameCount(D, b). |
| Merge.StageStep | GLTFScene.cpp:663-694 | One more round of the first loop is one more AddScene. |
| Merge.RootsFixed | GLTFScene.cpp:696-721 | The second loop changes only the hierarchy and the local transforms, and neither length. |
| Merge.StageRootsFixable | GLTFScene.cpp:696-721 | After the first loop every scene start indexes the hierarchy, and the local transforms too when there are root transforms. |
| Merge.AppendLists | GLTFScene.cpp:665-678 | One round's list appends and shiftNodes, as ListsAppended describes. |
| Merge.MergeHashes | GLTFScene.cpp:680-682 | One round's three mergeMaps calls, as HashesMerged describes. |
| Merge.AppendScene | GLTFScene.cpp:663-694 | One round of the first loop computes AddScene on the scene and the four offsets. |
| Merge.AddNewRoot | GLTFScene.cpp:627-644 | The new root replaces the hierarchy and the names and gets its identity transforms and name id 0. |
| Merge.AppendNext | GLTFScene.cpp:663-694 | One round takes Stage(b) to Stage(b + 1). |
| Merge.StartAppending | GLTFScene.cpp:651-660 | The offsets and material names the first loop starts from are Stage(0). |
| Merge.AppendScenes | GLTFScene.cpp:663-694 | The first loop leaves the scene at Stage of all the scenes, as they were on entry. |
| Merge.AppendEach | GLTFScene.cpp:662-688 | After all rounds of the first loop, from Stage 0, the scene is at Stage of all the scenes; the changed lists are unchanged. |
| Merge.FixRoot | GLTFScene.cpp:699-721 | One round of the second loop takes RootsFixed(idx) to RootsFixed(idx + 1). |
| Merge.FixOldRoots | GLTFScene.cpp:696-721 | The second loop leaves RootsFixed of all the scenes. |
| Merge.LevelsBelowRoot | GLTFScene.cpp:723-727 | Every entry after the new root gets one level deeper, and nothing else changes. |
| Merge.MergeScenes | GLTFScene.cpp:624-728 | The scene becomes Merged of its old data and the sources as they were on entry; the changed lists are unchanged. |
| MergeFacts.HierarchyAtNode | GLTFScene.cpp:668-678 | Node k of scene c sits at Start(c) + k with its links shifted by Start(c). |
| MergeFacts.HierarchyAtRoot | GLTFScene.cpp:627-635 | Node 0 is {parent -1, firstChild 1, nextSibling -1, lastSibling -1, level 0}. |
| MergeFacts.RootsFixedOther | GLTFScene.cpp:699-721 | The second loop leaves every entry that is not an old root alone. |
| MergeFacts.RootsFixedRoot | GLTFScene.cpp:699-721 | Each old root gets parent 0 and nextSibling set to the next block start (-1 for the last). Its local transform is premultiplied by its root transform when root transforms are given. |
| MergeFacts.MergedHierarchyIs | GLTFScene.cpp:624-728 | The merged hierarchy is the first loop's, with the old roots fixed and every level but the root's one deeper. |
| MergeFacts.FixedNodeAt | GLTFScene.cpp:696-727 | After the second and third loops, node k of scene c is Moved(c, k): links shifted, old root re-parented, level plus one. |
| MergeFacts.MergedNodeAt | GLTFScene.cpp:624-728 | The merged hierarchy has 1 + the sum of the source sizes entries. Entry 0 is the new root, and node k of scene c is at Start(c) + k as Moved(c, k). |
| MergeFacts.MergedPlaced | GLTFScene.cpp:624-728 | The merged hierarchy is laid out block by block as Placed describes. |
| MergeFacts.PlacedLinked | GLTFScene.cpp:624-728 | Merging well-formed single-rooted scenes gives a well-linked hierarchy. |
| MergeFacts.PlacedLevelsConsistent | GLTFScene.cpp:723-727 | With consistent source levels, every merged level is its parent's level plus one. |
| MergeFacts.SiblingsOfRoots | GLTFScene.cpp:702-707 | The old roots from scene c on form one sibling chain, in scene order. |
| MergeFacts.PlacedChildren | GLTFScene.cpp:696-707 | The children of the new root are the old roots, in scene order. |
| MergeFacts.ShiftedSiblings | GLTFScene.cpp:668-678 | Inside a shifted block, the sibling chain from a shifted node is the source chain, shifted. |
| MergeFacts.ShiftedChildren | GLTFScene.cpp:668-678 | Inside a shifted block, the children of a shifted node are the source children, shifted. |
| MergeFacts.PlacedParentsAgree | GLTFScene.cpp:624-728 | When every source scene's parents agree with its child chains, so do the merged hierarchy's: inner nodes through the shifted blocks, old roots through the new root's chain. |
| MergeFacts.HashAtBound | GLTFScene.cpp:680-682 | Every key of a merged hash is a node of the merge so far. |
| MergeFacts.HashAtNode | GLTFScene.cpp:680-693 | Node k of scene c has a merged entry iff k had one. Its value is the source value plus that hash's value offset, so no later scene overwrites it. |
| MergeFacts.HashAtOwn | GLTFScene.cpp:680-693 | The round for scene c writes node k of c: the merged entry is present iff k's was, with the shifted value. |
| MergeFacts.HashAtKeepsFrom | GLTFScene.cpp:678-693 | All rounds from scene b0 on leave the entries of nodes before scene b0 exactly as they were. |
| MergeFacts.HashAtKeepsEarlier | GLTFScene.cpp:678-680 | A round of mergeMaps for a later scene neither adds nor changes an entry for a node of an earlier scene. |
| MergeFacts.MergedHashAt | GLTFScene.cpp:680-693 | The merged scene's hash entry for node Start(c) + k is present iff k's was, with the shifted value. |
| MergeFacts.HashAtRootKey | GLTFScene.cpp:637-637 | The new root's key is never overwritten by a later scene. |
| MergeFacts.MergedRootName | GLTFScene.cpp:637-638 | The new root is named "NewRoot" in the merged scene. |
| MergeFacts.NamesBeforeAt | GLTFScene.cpp:670-670 | Name v of scene c is name NameCount(c) + v of the concatenated names. |
| MergeFacts.MergedNodeName | GLTFScene.cpp:637-687 | Every named source node keeps its name: its merged name id indexes the same string. |
| MergeFacts.StageNodeName | GLTFScene.cpp:671-687 | After the first loop, a named source node's name id indexes the same string in the merged name list. |
| MergeFacts.MaterialNamesAtIndex | GLTFScene.cpp:671-674 | With mergeMaterials, material name v of scene c follows the target's material names and those of the earlier scenes. |
| MergeFacts.MaterialNamesAtSize | GLTFScene.cpp:671-674 | With mergeMaterials, the material-name count is the target's plus every scene's. |
| MergeFacts.MaterialNamesAtFirst | GLTFScene.cpp:657-660 | Without mergeMaterials, the material names are those of the first scene. |
| MergeFacts.MergedNodeMaterial | GLTFScene.cpp:657-686 | With mergeMaterials, a node's merged material id names the same material name. Without it, the id is copied unchanged and the names are the first scene's. |
| MergeFacts.StageNodeMaterial | GLTFScene.cpp:657-686 | After the first loop, a node's material id names the same material name, shifted when materials are merged and copied when not. |
| MergeFacts.MergedTables | GLTFScene.cpp:696-727 | The second and third loops leave the three hashes, the names and the material names as the first loop left them. |
| MergeFacts.LocalsAtIndex | GLTFScene.cpp:665-665 | Local transform k of scene c follows those of the target, the new root and the earlier scenes. |
| MergeFacts.MergedLocalAt | GLTFScene.cpp:643-716 | From an empty target, node Start(c) + k has the source's local transform, premultiplied by the root transform for an old root. |
| MergeFacts.MergedForest | GLTFScene.cpp:624-728 | Merging well-formed scenes gives a linked, level-consistent hierarchy whose root children are the old roots in order; when every source's parents agree with its child chains, so do the merged hierarchy's. |
| MergeFacts.MergedNoScenes | GLTFScene.cpp:646-649 | With no sources, the lone new root's firstChild 1 dangles, so the hierarchy is not well linked. |
| Deletion.BinarySearchSound | GLTFScene.cpp:755-755 | binary_search never reports an element that is not in the list, sorted or not. |
| Deletion.BinarySearchSorted | GLTFScene.cpp:745-748 | On a sorted list, binary_search finds x iff x is in the list. |
| Deletion.UnsortedSearchMisses | GLTFScene.cpp:755-755 | On the unsorted list [1, 2, 4, 3], binary_search misses 3. |
| Deletion.Iota | GLTFScene.cpp:811-812 | The list 0, 1, ..., n - 1. |
| Deletion.EraseSelected | GLTFScene.cpp:735-750 | The result is the stable filter Kept: exactly the elements whose position binary_search does not find, in order. |
| Deletion.EraseSelectedExample | GLTFScene.cpp:736-737 | Removing positions {1, 3} from {1, 2, 3, 4, 5} leaves {1, 3, 5}. |
| Deletion.SurvivorRank | GLTFScene.cpp:819-823 | A kept position i is survivor number KeptBefore(i). |
| Deletion.SurvivorAt | GLTFScene.cpp:819-823 | The j-th survivor is a kept position whose rank is j. |
| Deletion.KeptAt | GLTFScene.cpp:735-750 | Element i lands at its rank among the kept positions. |
| Deletion.KeptElements | GLTFScene.cpp:735-750 | Element j of the filtered list is the element at the j-th survivor. |
| Deletion.KeptIota | GLTFScene.cpp:811-816 | Filtering 0..n-1 leaves exactly the survivors. |
| Deletion.KeptBeforeCount | GLTFScene.cpp:815-816 | A sorted selection of k distinct positions below n leaves exactly n - k survivors. |
| Deletion.AddUniqueIdxMembers | GLTFScene.cpp:753-759 | Afterwards the index is in the list, and nothing else was added. |
| Deletion.AddUniqueIdx | GLTFScene.cpp:753-759 | The list is kept, with the index appended unless binary_search found it; either way the index is in the result. |
| Deletion.AddAll | GLTFScene.cpp:762-769 | Repeated addUniqueIdx only appends: the old list is a prefix. |
| Deletion.AddAllMembers | GLTFScene.cpp:762-769 | After the repeated adds, an id is in the list iff it was before or was added. |
| Deletion.CollectNodesToDelete | GLTFScene.cpp:762-769 | Every descendant of the node, in pre-order, goes through addUniqueIdx. |
| Deletion.CollectAll | GLTFScene.cpp:804-808 | The list collected in step 0 is Closure: the requested nodes, then their descendants as added. |
| Deletion.ClosureMembers | GLTFScene.cpp:804-808 | An id is collected iff it was requested or is a descendant of a requested node. |
| Deletion.CollectAllStep | GLTFScene.cpp:804-808 | Round k of step 0 appends the descendants of the k-th requested node to what the earlier rounds collected. |
| Deletion.DescendantsNested | GLTFScene.cpp:762-769 | A descendant of a descendant is a descendant. |
| Deletion.ClosureClosed | GLTFScene.cpp:804-808 | The collected set is closed under descendants. |
| Deletion.SortedMembersAre | GLTFScene.cpp:745-748 | Sorting and deduplicating gives an increasing list with the same members below n. |
| Deletion.SelectionSearch | GLTFScene.cpp:745-748 | The sorted selection is increasing and made of nodes, and binary_search on it finds exactly the collected nodes. |
| Deletion.SelectionParentsSurvive | GLTFScene.cpp:804-838 | With the sorted selection, no surviving node loses its parent. |
| Deletion.BuildNewIndices | GLTFScene.cpp:818-823 | The table is -1 for erased nodes and each survivor's rank otherwise. |
| Deletion.IndexTableHolds | GLTFScene.cpp:818-823 | The survivors list and newIndices are inverse tables. |
| Deletion.FirstSurvivor | GLTFScene.cpp:771-781 | -1 iff no entry of the chain survives; otherwise the new index of a surviving entry. |
| Deletion.FindLastIsFirstSurvivor | GLTFScene.cpp:771-781 | findLastNonDeletedItem answers with the first survivor of the sibling chain from node. |
| Deletion.FindLastNonDeletedItem | GLTFScene.cpp:771-781 | -1, or the new index of a node at or after node on its chain. |
| Deletion.FindLastBound | GLTFScene.cpp:771-781 | The answer is -1 or a new index at least the number of survivors before node. |
| Deletion.MoveNodeAsWritten | GLTFScene.cpp:826-833 | As written, nodeMover is the corrected move with level 0. |
| Deletion.MoveNode | GLTFScene.cpp:826-833 | Each forward link goes to the first survivor of the chain it starts, the parent through the table, and the level is kept. |
| Deletion.TransformHierarchy | GLTFScene.cpp:835-835 | The transform moves each entry through the table with the corrected MoveNode, which keeps the level, reading the hierarchy as it was before. |
| Deletion.RekeyedInsert | GLTFScene.cpp:783-798 | Re-keying one more entry inserts it under its new key, or drops it when the node is erased. |
| Deletion.ShiftMapIndices | GLTFScene.cpp:783-798 | The new hash is Rekeyed, whatever the iteration order. |
| Deletion.RekeyedAt | GLTFScene.cpp:783-798 | Each survivor's new key holds exactly its old entry, and every key of the result comes from a surviving old key. |
| Deletion.DeletedHierarchy | GLTFScene.cpp:835-838 | The new hierarchy has one entry per survivor. |
| Deletion.DeletedAt | GLTFScene.cpp:835-838 | A kept node lands at its rank, moved through the table. |
| Deletion.DeletedLinked | GLTFScene.cpp:826-838 | Whatever the selection, the links stay in range and point forward. |
| Deletion.DeletedLevels | GLTFScene.cpp:826-838 | When no survivor loses its parent, the levels stay consistent. |
| Deletion.SurvivingIn | GLTFScene.cpp:771-781 | The new positions of the survivors of a chain: no longer than the chain, and holding every survivor's new index. |
| Deletion.DeletedSiblings | GLTFScene.cpp:771-838 | The chain from the first survivor of an old chain is, after the deletion, that chain's survivors at their new positions, in their old order. |
| Deletion.DeletedSiblingsKept | GLTFScene.cpp:826-838 | A kept node lands at its rank, and its new chain is itself followed by the new chain of its old next sibling. |
| Deletion.DeletedChildren | GLTFScene.cpp:826-838 | The children of a kept node, at its new position, are its kept children renumbered, in their old order. |
| Deletion.DeletedParentsAgree | GLTFScene.cpp:826-838 | Parents that agree with the child chains still agree after the deletion, whatever the selection. |
| Deletion.DeletedHierarchyAsWritten | GLTFScene.cpp:826-838 | As written, the result is the corrected hierarchy with every level 0. |
| Deletion.DeletedAsWrittenDropsLevels | GLTFScene.cpp:826-833 | With nothing deleted, a root with one child ends up with the child at level 0, so the levels are inconsistent. |
| Deletion.TwoBranchesClosure | GLTFScene.cpp:804-808 | Requesting [1, 2] in a two-branch tree collects [1, 2, 4, 3], which is not sorted. |
| Deletion.UnsortedSelectionKeepsChild | GLTFScene.cpp:804-838 | With that unsorted list, node 3 survives while its parent goes, and the levels become inconsistent. |
| Deletion.DeletedScene | GLTFScene.cpp:801-853 | With the sorted selection, the hierarchy shrinks by exactly the size of the closure and stays linked. Parents that agree with the child chains still agree afterwards, and levels stay consistent when they were consistent and parents agreed. |
| Deletion.DeleteNodes | GLTFScene.cpp:801-853 | Hierarchy, transforms and the three hashes become DeletedHierarchy, Kept and Rekeyed of the sorted closure; the hierarchy stays linked. |
| Deletion.DeleteSceneNodes | GLTFScene.cpp:801-853 | The scene takes those values and stays valid. Names, material names and changed lists are unchanged. |
| Deletion.SetNodeData | GLTFScene.cpp:835-848 | The scene's hierarchy, transforms and hashes take the new values. Names, material names and changed lists are unchanged. |
| Persist.WordRoundTrip | GLTFScene.cpp:324-324 | A word read from its four bytes is the word. |
| Persist.BytesRoundTrip | GLTFScene.cpp:324-324 | Any four bytes are the bytes of the word they hold. |
| Persist.WordsRoundTrip | GLTFScene.cpp:298-298 | A raw list of words reads back as the same words. |
| Persist.Take | GLTFScene.cpp:72-72 | A read of n bytes yields n bytes when that many remain, and never more than remain. |
| Persist.Skip | GLTFScene.cpp:72-72 | The bytes read and the bytes after them make up the data. |
| Persist.Overlay | GLTFScene.cpp:298-298 | A short read overwrites only the first bytes of the destination. |
| Persist.ReadWords | GLTFScene.cpp:298-298 | Reading into a buffer keeps the buffer's length. |
| Persist.ReadWordSaved | GLTFScene.cpp:288-288 | Reading a saved word gives it back, whatever the variable held. |
| Persist.ReadWordsSaved | GLTFScene.cpp:298-298 | Reading saved words gives them back, whatever the buffer held. |
| Persist.Resize | GLTFScene.cpp:331-333 | QList::resize keeps the first n elements and pads with the given value. |
| Persist.Pairs | GLTFScene.cpp:377-381 | The temporary list holds key, value, key, value, ... in iteration order. |
| Persist.SaveMap | GLTFScene.cpp:370-394 | saveMap writes the word count 2·pairs, then the words. |
| Persist.InsertPairsIs | GLTFScene.cpp:306-309 | Inserting the first n saved pairs sets exactly the first n keys of the order. |
| Persist.InsertPairs | GLTFScene.cpp:306-309 | Every key held before stays and every inserted key is present; a key no pair names keeps its value, and the last pair inserted wins. |
| Persist.LoadMap | GLTFScene.cpp:282-310 | The hash keeps every key it held and the read never grows the input. An exhausted stream reads a count of 0 and leaves the hash as it was. |
| Persist.LoadMapReads | GLTFScene.cpp:282-310 | loadMap of a count 2n followed by 2n words inserts their n pairs. |
| Persist.MapRoundTrip | GLTFScene.cpp:282-310 | loadMap of what saveMap wrote inserts exactly the saved entries, whatever the iteration order. |
| Persist.StringBytes | GLTFScene.cpp:59-59 | One byte per character. |
| Persist.Chars | GLTFScene.cpp:97-97 | One character per byte, with the same value. |
| Persist.LoadLines | GLTFScene.cpp:81-98 | The range-for keeps the list's length. |
| Persist.LoadLineOf | GLTFScene.cpp:83-97 | A length word followed by length + 1 bytes is read whole, with or without its last byte. |
| Persist.CStringChars | GLTFScene.cpp:59-59 | The C string of an ASCII string converts back to it, or to it plus NUL when the terminator is kept. |
| Persist.LineRoundTrip | GLTFScene.cpp:49-65 | A saved line loads back as the line, plus NUL when the terminator is kept. |
| Persist.LoadLinesStep | GLTFScene.cpp:81-98 | One step of the range-for over a saved line. |
| Persist.LinesRoundTrip | GLTFScene.cpp:81-98 | Loading saved lines into positions i.. fills them with the converted lines and leaves the rest of the file. |
| Persist.SaveStringList | GLTFScene.cpp:38-66 | The count of lines reads back first, and the saved lines follow it. |
| Persist.LoadStringListWith | GLTFScene.cpp:68-99 | The list takes the length read, whatever it held before; an exhausted stream gives the empty list. |
| Persist.LoadStringListAsWritten | GLTFScene.cpp:68-99 | As written: the list takes the length read; an exhausted stream gives the empty list. |
| Persist.LoadStringList | GLTFScene.cpp:68-99 | Corrected: the list takes the length read; an exhausted stream gives the empty list. |
| Persist.StringListLoads | GLTFScene.cpp:68-99 | A saved string list loads back line by line, whatever the list held before. |
| Persist.StringListRoundTrip | GLTFScene.cpp:38-99 | Corrected, loadStringList gives back exactly the saved lines. |
| Persist.StringListAsWrittenAddsNul | GLTFScene.cpp:90-97 | As written, every loaded line is the saved line plus a NUL, and so differs from it. |
| Persist.MatWords | GLTFScene.cpp:422-422 | Sixteen words per matrix. |
| Persist.MatsOf | GLTFScene.cpp:335-335 | One matrix per sixteen words. |
| Persist.MatsRoundTrip | GLTFScene.cpp:335-335 | Matrices written as words read back as the same matrices. |
| Persist.HierarchyWords | GLTFScene.cpp:436-436 | Five words per entry. |
| Persist.HierarchyOf | GLTFScene.cpp:349-349 | One entry per five words. |
| Persist.Int32RoundTrip | GLTFScene.h:44-52 | A qint32 field stored as its bits reads back as the same value. |
| Persist.HierarchyRoundTrip | GLTFScene.cpp:349-349 | Entries with qint32 fields, written raw, read back unchanged, level included. |
| Persist.SaveArrays | GLTFScene.cpp:407-445 | The fixed part of the file starts with the node count. |
| Persist.SaveNames | GLTFScene.cpp:447-452 | The names part is non-empty. |
| Persist.SaveScene | GLTFScene.cpp:396-455 | The corrected file starts with the node count, written once. |
| Persist.SaveSceneAsWritten | GLTFScene.cpp:407-420 | As written, the file is one count word longer than the corrected file. |
| Persist.LoadMats | GLTFScene.cpp:331-340 | sz matrices are read over a list resized to sz. |
| Persist.LoadHierarchy | GLTFScene.cpp:349-354 | sz entries are read over a list resized to sz. |
| Persist.LoadArrays | GLTFScene.cpp:323-358 | The local transforms are the sz matrices after the count. The name hash and both string tables are untouched. |
| Persist.LoadNames | GLTFScene.cpp:360-365 | Reading the names part leaves transforms, hierarchy, meshes and materials untouched. |
| Persist.LoadMatsSaved | GLTFScene.cpp:335-335 | Saved matrices load back. |
| Persist.LoadHierarchySaved | GLTFScene.cpp:349-349 | A saved hierarchy loads back. |
| Persist.LoadArraysSaved | GLTFScene.cpp:323-358 | The fixed part loads back the arrays exactly and inserts the two saved hashes into what the scene held. |
| Persist.LoadNamesSaved | GLTFScene.cpp:360-365 | The names part inserts the name hash and replaces both string tables with the loaded lines. |
| Persist.LoadSceneOf | GLTFScene.cpp:360-365 | The names part is read iff bytes remain after the hashes. |
| Persist.LoadSceneWith | GLTFScene.cpp:312-368 | No file leaves the scene as it was. Otherwise the three arrays take the count the file starts with, and a file that ends after the hashes leaves the names as they were. |
| Persist.LoadScene | GLTFScene.cpp:312-368 | Corrected loadScene, with the same guarantees. |
| Persist.LoadSceneAsWritten | GLTFScene.cpp:312-368 | loadScene as written, with the same guarantees. |
| Persist.SaveSceneParts | GLTFScene.cpp:447-452 | The names part is written iff names_ and nameForNode_ are both non-empty. |
| Persist.SceneFileLoads | GLTFScene.cpp:312-455 | Loading a corrected file gives Restored, under either string conversion. |
| Persist.SceneRoundTrip | GLTFScene.cpp:312-455 | Corrected, a save followed by a load gives back transforms and hierarchy exactly and inserts the hashes. Names come back exactly iff they were saved; otherwise the scene keeps its own. |
| Persist.RestoredFresh | GLTFScene.cpp:312-455 | Restored into an empty scene with names, the data comes back whole. |
| Persist.SceneRoundTripFresh | GLTFScene.cpp:312-455 | A saved scene with names, loaded into an empty scene, comes back whole. |
| Persist.MaterialNamesNeedNames | GLTFScene.cpp:447-452 | Without node names, the material names are not saved and do not come back. |
| Persist.ReadWordsFirst | GLTFScene.cpp:335-335 | A read over bytes that start with w starts with w. |
| Persist.LoadSceneLocal | GLTFScene.cpp:335-335 | The local transforms of a loaded scene are those the fixed part reads. |
| Persist.LoadMatsFirst | GLTFScene.cpp:335-335 | Matrices read over bytes that start with n start with n. |
| Persist.CountReadAsTransform | GLTFScene.cpp:323-335 | A file whose first two words are n loads n matrices, and the first matrix's first word is n. |
| Persist.CountTwiceShiftsTransforms | GLTFScene.cpp:407-420 | As written, the first local transform loads with the node count as its first word. |
| Persist.CountTwiceCounterexample | GLTFScene.cpp:407-420 | A one-node identity scene loads back without the identity as written, and with it when corrected. |

## Left out

- File I/O is modelled only as byte layout. A file that cannot be opened is `None`. The `-1` returns of read and write are not modelled: every read and write is taken to succeed. `qDebug` output is dropped.
- `atEnd` in loadScene is modelled as "no bytes remain after the hashes".
- The `sz` that loadScene leaves uninitialised when its read fails is taken as 0.
- The bytes of a freshly resized `QByteArray` are taken as 0.
- Matrix products (`gpumat4ToQMatrix4x4` and the QMatrix4x4 product) are the parameter `mul`, because they are floating-point arithmetic.
- Matrices are raw 32-bit words, so IDENTITY_MAT holds the bits of 1.0f.
- The floating-point material fields are not modelled: colour, metallic and roughness factors, normal scale, occlusion strength, emissive factor and `alphaCutoff`.
- Mesh.CreateMeshFromJson: the mesh weights stay as JSON values; their conversion to float is not modelled.
- Names are ASCII, one byte per character. `toStdString` writes UTF-8 and `length()` counts UTF-16 units, which the model does not cover.
- Case-insensitive comparisons fold ASCII letters only, where Qt folds Unicode.
- Base64 decoding is a parameter that may fail, because it is Qt code.
- `QImage::fromData` and `QImage::load` are recorded as the bytes or the URI they were given. No pixels are decoded.
- The URL path extraction of `getFilename` (QUrl) is not modelled.
- QHash iteration order is a parameter: `Orders` when saving, any order when merging and re-keying. Every result is proved not to depend on it.
- Scenes.Sweep: its own contract states only that the lists stay valid and the length is kept. What the sweep clears, computes and leaves alone is stated by the lemmas SweepClears, SweepValues and SweepUnlisted about it.
- Scenes.UpdateLevel: the value mul(parent's global, local) is stated only when no listed node is the parent of another listed node. With a list filed at its own level over consistent levels that always holds (ParentsNotListedAlongside). Otherwise the loop's order matters, and the contract gives only the loop's result as ApplyLevel.
- Scenes.AddKeepsAgreement: it and AddKeepsParents, AddKeepsChildren and ChildrenAfterAdd assume that the parent's lastSibling cache is -1 or names the real end of its child chain (CacheOk). AddKeepsCache proves that addNode keeps every such cache correct, so hierarchies built by addNode from the empty one satisfy the premise (AddKeepsInvariants). Correct caches are not proved for hierarchies produced by mergeScenes, deleteSceneNodes or loadScene. A stale cache makes addNode link the new node after the wrong node.
- Merge.MergeScenes: MergeRequires asks that node ids, offsets and name counts fit a qint32. The source would overflow silently beyond that.
- Merge.MergeScenes: the target is not one of the source scenes; merging a scene into itself is not modelled.
- MergeFacts.MergedLocalAt: it assumes an empty target. The source keeps and appends to the target's transforms, and so does MergeScenes.
- Deletion.DeleteNodes: the range-for that grows its own list is modelled by iterating over the entries present at the start. The descendants it appends are already in the list. DeleteNodes and DeleteSceneNodes compute the corrected deletion of the two Findings rows for GLTFScene.cpp:804-808 and 826-833: the selection is sorted before binary_search, and nodeMover keeps the level. The as-written halves are UnsortedSelectionKeepsChild and DeletedHierarchyAsWritten.
- Deletion.TransformHierarchy: nodeMover reads the hierarchy as it was before `std::transform`, while the source reads it in place. Every link read points past the entry being rewritten, so this should give the same result, but the model does not prove it.
- Persist.LoadMap: the qint32 `i * 2` overflows beyond 2^30 pairs; the model assumes fewer.
- Not modelled at all: the debug dumps, GLTFNode.h, GLTFCamera.h, GLTFBuffer, GLTFLoader, GLTFAccessor and GLTFSkin.
- GLTFException is replaced by explicit `Failure` results. The source throws `new GLTFException(...)`, a pointer, which the `catch (const GLTFException&)` handlers do not catch, so the exception escapes.

## Findings

| source | as written | input that shows it | evidently intended | confidence | as-written member | corrected member |
|---|---|---|---|---|---|---|
| GLTFScene.cpp:407-420 | saveScene writes the node count twice, but loadScene reads it once | A one-node scene with identity transforms: the second count word is loaded as the first word of the local transform | The count is written once, and a save followed by a load restores the scene | high (not executed) | Persist.CountTwiceCounterexample | Persist.SceneRoundTrip |
| GLTFScene.cpp:90-97 | loadStringList builds each QString from length + 1 bytes, terminator included | Any saved name "a" loads back as "a" followed by NUL | Each string is its first length bytes | medium (not executed) | Persist.StringListAsWrittenAddsNul | Persist.StringListRoundTrip |
| GLTFScene.cpp:826-833 | nodeMover's initializer omits level_, so every surviving node gets level 0 | A root with one child, deleting nothing: the child ends up at level 0 | The level is copied | high (not executed) | Deletion.DeletedAsWrittenDropsLevels | Deletion.DeletedLevels |
| GLTFScene.cpp:804-808 | binary_search runs on the collected list, which is not sorted | Requesting [1, 2] where 1 has child 4 and 2 has child 3 collects [1, 2, 4, 3]; node 3 survives while its parent is deleted | The selection is sorted before searching | high (not executed) | Deletion.UnsortedSelectionKeepsChild | Deletion.SelectionParentsSurvive |
| GLTFScene.cpp:186-191 | getNodeLevel starts its walk at node 0 whatever n is | Node 1, the child of the root, gets level 0 | The walk starts at n | high (not executed) | Scenes.GetNodeLevelCounterexample | Scenes.GetNodeLevel |
