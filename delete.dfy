/** deleteSceneNodes and its helpers: the requested nodes and everything below them are
    collected, the survivors are compacted in their order, every link is redirected to the
    survivors' new positions, and the three node hashes are re-keyed. */
module Deletion {
  import opened Common
  import opened SceneGraph
  import opened Scenes
  import Merge

  // ---------------------------------------------------------------- std::binary_search

  /** std::lower_bound on v[first .. first + len): the middle element is compared with x and
      the search goes on behind it when it is less than x, in front of it otherwise. */
  function LowerBound(v: seq<int>, first: int, len: int, x: int): (r: int)
    requires 0 <= first && 0 <= len && first + len <= |v|
    ensures first <= r <= first + len
    decreases len
  {
    if len == 0 then first
    else
      var half := len / 2;
      if v[first + half] < x then LowerBound(v, first + half + 1, len - half - 1, x)
      else LowerBound(v, first, half, x)
  }

  /** std::binary_search: the lower bound is inside the list and x is not less than it. */
  predicate BinarySearch(v: seq<int>, x: int)
  {
    var i := LowerBound(v, 0, |v|, x);
    i < |v| && !(x < v[i])
  }

  /** The lower bound is the end of the list or an element found not less than x. */
  lemma {:induction false} LowerBoundTested(v: seq<int>, first: int, len: int, x: int)
    requires 0 <= first && 0 <= len && first + len <= |v|
    requires first + len == |v| || v[first + len] >= x
    ensures var r := LowerBound(v, first, len, x); r == |v| || v[r] >= x
    decreases len
  {
    if len > 0 {
      var half := len / 2;
      if v[first + half] < x {
        LowerBoundTested(v, first + half + 1, len - half - 1, x);
      } else {
        LowerBoundTested(v, first, half, x);
      }
    }
  }

  /** binary_search never reports an element that is not in the list, sorted or not. */
  lemma BinarySearchSound(v: seq<int>, x: int)
    ensures BinarySearch(v, x) ==> x in v
  {
    LowerBoundTested(v, 0, |v|, x);
  }

  predicate Sorted(v: seq<int>)
  {
    forall i, j :: 0 <= i < j < |v| ==> v[i] <= v[j]
  }

  /** Sorted and without duplicates. */
  predicate Increasing(v: seq<int>)
  {
    forall i, j :: 0 <= i < j < |v| ==> v[i] < v[j]
  }

  /** In a sorted list, what lies before an element less than x is less than x too ... */
  lemma SortedBelow(v: seq<int>, lo: int, m: int, x: int)
    requires Sorted(v) && 0 <= lo <= m < |v| && v[m] < x
    ensures forall i :: lo <= i <= m ==> v[i] < x
  {
  }

  /** ... and what lies after an element not less than x is not less than x either. */
  lemma SortedAbove(v: seq<int>, m: int, hi: int, x: int)
    requires Sorted(v) && 0 <= m < hi <= |v| && v[m] >= x
    ensures forall i :: m <= i < hi ==> v[i] >= x
  {
  }

  /** On a sorted list the lower bound splits the list: everything before it is less than x,
      and nothing from it on is. */
  lemma {:induction false} LowerBoundSorted(v: seq<int>, first: int, len: int, x: int)
    requires Sorted(v) && 0 <= first && 0 <= len && first + len <= |v|
    requires forall i :: 0 <= i < first ==> v[i] < x
    requires forall i :: first + len <= i < |v| ==> v[i] >= x
    ensures var r := LowerBound(v, first, len, x);
            (forall i :: 0 <= i < r ==> v[i] < x) && (forall i :: r <= i < |v| ==> v[i] >= x)
    decreases len
  {
    if len > 0 {
      var half := len / 2;
      assert 0 <= half < len;
      var m := first + half;
      if v[m] < x {
        SortedBelow(v, first, m, x);
        LowerBoundSorted(v, m + 1, len - half - 1, x);
      } else {
        SortedAbove(v, m, first + len, x);
        LowerBoundSorted(v, first, half, x);
      }
    }
  }

  /** On a sorted list binary_search finds exactly the elements of the list. */
  lemma BinarySearchSorted(v: seq<int>, x: int)
    requires Sorted(v)
    ensures BinarySearch(v, x) <==> x in v
  {
    LowerBoundSorted(v, 0, |v|, x);
    BinarySearchSound(v, x);
    if x in v {
      var j :| 0 <= j < |v| && v[j] == x;
      var r := LowerBound(v, 0, |v|, x);
      assert j >= r;
    }
  }

  /** On a list that is not sorted binary_search can miss an element: 3 is in [1, 2, 4, 3],
      but the search compares it with 4 and stops. */
  lemma UnsortedSearchMisses()
    ensures 3 in [1, 2, 4, 3] && !BinarySearch([1, 2, 4, 3], 3)
  {
    var v := [1, 2, 4, 3];
    assert LowerBound(v, 0, 4, 3) == LowerBound(v, 0, 2, 3) == LowerBound(v, 2, 0, 3) == 2;
  }

  // ---------------------------------------------------------------- eraseSelected

  /** The number of positions below n that binary_search does not find in the selection. */
  function KeptBefore(selection: seq<int>, n: int): (r: nat)
    requires 0 <= n
    ensures r <= n
  {
    if n == 0 then 0 else KeptBefore(selection, n - 1) + (if BinarySearch(selection, n - 1) then 0 else 1)
  }

  /** The elements of v[..n] whose positions binary_search does not find in the selection,
      in their order. */
  function Kept<T>(v: seq<T>, selection: seq<int>, n: int): (r: seq<T>)
    requires 0 <= n <= |v|
    ensures |r| == KeptBefore(selection, n)
  {
    if n == 0 then []
    else Kept(v, selection, n - 1) + (if BinarySearch(selection, n - 1) then [] else [v[n - 1]])
  }

  /** The positions below n that are kept, in increasing order. */
  function Survivors(selection: seq<int>, n: int): (r: seq<int>)
    requires 0 <= n
    ensures |r| == KeptBefore(selection, n)
  {
    if n == 0 then []
    else Survivors(selection, n - 1) + (if BinarySearch(selection, n - 1) then [] else [n - 1])
  }

  /** 0, 1, ..., n - 1: the list std::iota fills. */
  function Iota(n: nat): (r: seq<int>)
    ensures |r| == n && forall i :: 0 <= i < n ==> r[i] == i
  {
    seq(n, i => i)
  }

  /** eraseSelected: std::stable_partition moves the elements whose position binary_search
      finds in the selection behind the others, keeping both groups in order, and the list
      is cut after the first group. Positions are those before the partition: the
      predicate sees each element where it started. */
  method EraseSelected<T>(v: seq<T>, selection: seq<int>) returns (r: seq<T>)
    ensures r == Kept(v, selection, |v|)
  {
    r := [];
    for i := 0 to |v|
      invariant r == Kept(v, selection, i)
    {
      if !BinarySearch(selection, i) {
        r := r + [v[i]];
      }
    }
  }

  /** The example of the comment on eraseSelected: positions 1 and 3 of {1, 2, 3, 4, 5} go. */
  lemma EraseSelectedExample()
    ensures Kept([1, 2, 3, 4, 5], [1, 3], 5) == [1, 3, 5]
  {
    var s := [1, 3];
    assert LowerBound(s, 0, 2, 0) == 0 && LowerBound(s, 0, 2, 1) == 0;
    assert LowerBound(s, 0, 2, 2) == 1 && LowerBound(s, 0, 2, 3) == 1;
    assert LowerBound(s, 0, 2, 4) == 2;
  }

  /** Fewer positions are kept below a smaller bound, strictly fewer when the smaller bound
      is itself kept. */
  lemma {:induction false} KeptBeforeMono(selection: seq<int>, a: int, b: int)
    requires 0 <= a <= b
    ensures KeptBefore(selection, a) <= KeptBefore(selection, b)
    ensures a < b && !BinarySearch(selection, a) ==> KeptBefore(selection, a) < KeptBefore(selection, b)
    decreases b
  {
    if a < b {
      KeptBeforeMono(selection, a, b - 1);
    }
  }

  /** Kept position i is the KeptBefore(selection, i)-th survivor. */
  lemma {:induction false} SurvivorRank(selection: seq<int>, n: int, i: int)
    requires 0 <= i < n && !BinarySearch(selection, i)
    ensures KeptBefore(selection, i) < KeptBefore(selection, n)
    ensures Survivors(selection, n)[KeptBefore(selection, i)] == i
    decreases n
  {
    KeptBeforeMono(selection, i, n);
    if i < n - 1 {
      SurvivorRank(selection, n - 1, i);
    }
  }

  /** The j-th survivor is a kept position below n, and j is its rank. */
  lemma {:induction false} SurvivorAt(selection: seq<int>, n: int, j: int)
    requires 0 <= n && 0 <= j < KeptBefore(selection, n)
    ensures var s := Survivors(selection, n)[j];
            0 <= s < n && !BinarySearch(selection, s) && KeptBefore(selection, s) == j
    decreases n
  {
    if j < KeptBefore(selection, n - 1) {
      SurvivorAt(selection, n - 1, j);
    }
  }

  /** The list eraseSelected leaves holds, at rank j, the element at the j-th survivor. */
  lemma {:induction false} KeptAt<T>(v: seq<T>, selection: seq<int>, n: int, i: int)
    requires 0 <= i < n <= |v| && !BinarySearch(selection, i)
    ensures KeptBefore(selection, i) < |Kept(v, selection, n)|
    ensures Kept(v, selection, n)[KeptBefore(selection, i)] == v[i]
    decreases n
  {
    KeptBeforeMono(selection, i, n);
    if i < n - 1 {
      KeptAt(v, selection, n - 1, i);
    }
  }

  lemma KeptElements<T>(v: seq<T>, selection: seq<int>, j: int)
    requires 0 <= j < |Kept(v, selection, |v|)|
    ensures var s := Survivors(selection, |v|)[j];
            0 <= s < |v| && !BinarySearch(selection, s) && Kept(v, selection, |v|)[j] == v[s]
  {
    SurvivorAt(selection, |v|, j);
    KeptAt(v, selection, |v|, Survivors(selection, |v|)[j]);
  }

  /** Erasing from 0, 1, ..., n - 1 leaves the survivors. */
  lemma {:induction false} KeptIota(selection: seq<int>, n: int, m: int)
    requires 0 <= m <= n
    ensures Kept(Iota(n), selection, m) == Survivors(selection, m)
    decreases m
  {
    if m > 0 {
      KeptIota(selection, n, m - 1);
    }
  }

  /** With a sorted selection of k distinct positions below n, eraseSelected keeps the other
      n - k: the list shrinks by exactly the size of the selection. */
  lemma {:induction false} KeptBeforeCount(selection: seq<int>, n: int, k: int)
    requires Increasing(selection) && 0 <= n && 0 <= k <= |selection|
    requires forall j :: 0 <= j < |selection| ==> 0 <= selection[j]
    requires forall j :: 0 <= j < k ==> selection[j] < n
    requires forall j :: k <= j < |selection| ==> selection[j] >= n
    ensures KeptBefore(selection, n) == n - k
    decreases n
  {
    if n > 0 {
      BinarySearchSorted(selection, n - 1);
      if k > 0 && selection[k - 1] == n - 1 {
        KeptBeforeCount(selection, n - 1, k - 1);
      } else {
        assert n - 1 !in selection;
        KeptBeforeCount(selection, n - 1, k);
      }
    }
  }

  // ---------------------------------------------------------------- the nodes to delete

  /** addUniqueIdx: appends index unless binary_search finds it in the list. */
  function AddUniqueIdx(v: seq<int>, index: int): (r: seq<int>)
    // the list is kept, with index appended unless the search found it
    ensures r == v || r == v + [index]
    ensures index in r && (r == v ==> index in v)
  {
    BinarySearchSound(v, index);
    if BinarySearch(v, index) then v else v + [index]
  }

  /** Whatever the order of the list, addUniqueIdx leaves index in it and adds nothing else;
      on a list that is not sorted it may add index a second time. */
  lemma AddUniqueIdxMembers(v: seq<int>, index: int, x: int)
    ensures x in AddUniqueIdx(v, index) <==> x in v || x == index
  {
    BinarySearchSound(v, index);
  }

  /** The list after addUniqueIdx of each of ids in turn. */
  function AddAll(v: seq<int>, ids: seq<int>): (r: seq<int>)
    ensures |r| >= |v| && r[..|v|] == v
  {
    if ids == [] then v else AddUniqueIdx(AddAll(v, ids[..|ids| - 1]), ids[|ids| - 1])
  }

  lemma {:induction false} AddAllMembers(v: seq<int>, ids: seq<int>, x: int)
    ensures x in AddAll(v, ids) <==> x in v || x in ids
  {
    if ids != [] {
      var init := ids[..|ids| - 1];
      var last := ids[|ids| - 1];
      var a := AddAll(v, init);
      assert AddAll(v, ids) == AddUniqueIdx(a, last);
      AddAllMembers(v, init, x);
      AddUniqueIdxMembers(a, last, x);
      InSnoc(ids, x);
    }
  }

  lemma InSnoc(s: seq<int>, x: int)
    requires s != []
    ensures x in s <==> x in s[..|s| - 1] || x == s[|s| - 1]
  {
    assert s == s[..|s| - 1] + [s[|s| - 1]];
  }

  lemma {:induction false} AddAllAppend(v: seq<int>, a: seq<int>, b: seq<int>)
    ensures AddAll(v, a + b) == AddAll(AddAll(v, a), b)
    decreases |b|
  {
    if b == [] {
      assert a + b == a;
    } else {
      assert (a + b)[..|a + b| - 1] == a + b[..|b| - 1];
      AddAllAppend(v, a, b[..|b| - 1]);
    }
  }

  /** collectNodesToDelete: every descendant of node, in pre-order, goes through
      addUniqueIdx. Links point forward, so the recursion and the sibling walk end. */
  method CollectNodesToDelete(h: seq<Hierarchy>, node: int, nodes: seq<int>) returns (r: seq<int>)
    requires Linked(h) && 0 <= node < |h|
    ensures r == AddAll(nodes, Descendants(h, node))
    decreases |h| - node
  {
    r := nodes;
    assert LinkedAt(h, node);
    var n := h[node].firstChild;
    ghost var done: seq<int> := [];
    while n != -1
      invariant n == -1 || node < n < |h|
      invariant Descendants(h, node) == done + Forest(h, n)
      invariant r == AddAll(nodes, done)
      decreases if n == -1 then 0 else |h| - n
    {
      CollectStep(h, node, nodes, done, n);
      r := AddUniqueIdx(r, n);
      r := CollectNodesToDelete(h, n, r);
      done := done + Subtree(h, n);
      n := h[n].nextSibling;
    }
    assert Forest(h, n) == [] && done + [] == done;
  }

  /** One child of the sibling walk: it and its descendants join the collected ones. */
  lemma CollectStep(h: seq<Hierarchy>, node: int, nodes: seq<int>, done: seq<int>, n: int)
    requires Linked(h) && 0 <= node < n < |h| && Descendants(h, node) == done + Forest(h, n)
    ensures h[n].nextSibling == -1 || n < h[n].nextSibling < |h|
    ensures Descendants(h, node) == (done + Subtree(h, n)) + Forest(h, h[n].nextSibling)
    ensures AddAll(AddUniqueIdx(AddAll(nodes, done), n), Descendants(h, n)) == AddAll(nodes, done + Subtree(h, n))
  {
    assert LinkedAt(h, n);
    ForestStep(h, n);
    ConcatAssoc(done, Subtree(h, n), Forest(h, h[n].nextSibling));
    CollectAdds(nodes, done, n, Descendants(h, n));
  }

  lemma CollectAdds(nodes: seq<int>, done: seq<int>, n: int, d: seq<int>)
    ensures AddAll(AddUniqueIdx(AddAll(nodes, done), n), d) == AddAll(nodes, done + ([n] + d))
  {
    var v := AddAll(nodes, done);
    var a := done + [n];
    assert a + d == done + ([n] + d);
    assert AddAll(nodes, a) == AddUniqueIdx(v, n) by {
      AddAllAppend(nodes, done, [n]);
      AddAllSingle(v, n);
    }
    AddAllAppend(nodes, a, d);
  }

  lemma AddAllSingle(v: seq<int>, n: int)
    ensures AddAll(v, [n]) == AddUniqueIdx(v, n)
  {
    assert [n][..0] == [];
  }

  /** The descendants of each requested node, one list after the other. */
  function DescendantsOf(h: seq<Hierarchy>, requested: seq<int>): seq<int>
    requires Linked(h) && NodesOk(h, requested)
  {
    if requested == [] then []
    else DescendantsOf(h, requested[..|requested| - 1]) + Descendants(h, requested[|requested| - 1])
  }

  /** The list deleteSceneNodes collects: the requested nodes, then the descendants of each
      as collectNodesToDelete adds them. */
  function Closure(h: seq<Hierarchy>, requested: seq<int>): seq<int>
    requires Linked(h) && NodesOk(h, requested)
  {
    AddAll(requested, DescendantsOf(h, requested))
  }

  /** Step 0 of deleteSceneNodes. The loop runs over the entries the list had when it
      started; the entries it appends are descendants, already collected. */
  method CollectAll(h: seq<Hierarchy>, nodesToDelete: seq<int>) returns (indices: seq<int>)
    requires Linked(h) && NodesOk(h, nodesToDelete)
    ensures indices == Closure(h, nodesToDelete)
  {
    indices := nodesToDelete;
    assert NodesOk(h, nodesToDelete[..0]);
    for k := 0 to |nodesToDelete|
      invariant NodesOk(h, nodesToDelete[..k])
      invariant indices == AddAll(nodesToDelete, DescendantsOf(h, nodesToDelete[..k]))
    {
      CollectAllStep(h, nodesToDelete, k);
      assert indices[k] == nodesToDelete[k];
      indices := CollectNodesToDelete(h, indices[k], indices);
    }
    assert nodesToDelete[..|nodesToDelete|] == nodesToDelete;
  }

  /** Round k of the loop adds the descendants of the k-th requested node. */
  lemma CollectAllStep(h: seq<Hierarchy>, nodes: seq<int>, k: int)
    requires Linked(h) && NodesOk(h, nodes) && 0 <= k < |nodes| && NodesOk(h, nodes[..k])
    ensures 0 <= nodes[k] < |h| && NodesOk(h, nodes[..k + 1])
    ensures AddAll(AddAll(nodes, DescendantsOf(h, nodes[..k])), Descendants(h, nodes[k])) ==
            AddAll(nodes, DescendantsOf(h, nodes[..k + 1]))
  {
    var p := nodes[..k + 1];
    PrefixNodes(h, nodes, k);
    assert p[..k] == nodes[..k];
    DescendantsOfStep(h, p);
    AddAllAppend(nodes, DescendantsOf(h, nodes[..k]), Descendants(h, nodes[k]));
  }

  /** The requested nodes up to k are nodes, the k-th among them. */
  lemma PrefixNodes(h: seq<Hierarchy>, nodes: seq<int>, k: int)
    requires NodesOk(h, nodes) && 0 <= k < |nodes|
    ensures 0 <= nodes[k] < |h| && NodesOk(h, nodes[..k + 1]) && nodes[..k + 1][k] == nodes[k]
  {
  }

  lemma DescendantsOfStep(h: seq<Hierarchy>, requested: seq<int>)
    requires Linked(h) && NodesOk(h, requested) && requested != []
    ensures NodesOk(h, requested[..|requested| - 1])
    ensures DescendantsOf(h, requested) ==
            DescendantsOf(h, requested[..|requested| - 1]) + Descendants(h, requested[|requested| - 1])
  {
  }

  /** The descendants of every requested node are in the list. */
  lemma {:induction false} DescendantsOfHas(h: seq<Hierarchy>, requested: seq<int>, k: int, x: int)
    requires Linked(h) && NodesOk(h, requested) && 0 <= k < |requested| && x in Descendants(h, requested[k])
    ensures x in DescendantsOf(h, requested)
    decreases |requested|, 1
  {
    if k < |requested| - 1 {
      DescendantsOfHasEarlier(h, requested, k, x);
    } else {
      DescendantsOfLast(h, requested, x);
    }
  }

  /** The case of DescendantsOfHas where k is not the last requested node. */
  lemma {:induction false} DescendantsOfHasEarlier(h: seq<Hierarchy>, requested: seq<int>, k: int, x: int)
    requires Linked(h) && NodesOk(h, requested) && 0 <= k < |requested| - 1
    requires x in Descendants(h, requested[k])
    ensures x in DescendantsOf(h, requested)
    decreases |requested|, 0
  {
    PrefixAt(h, requested, k);
    DescendantsOfHas(h, requested[..|requested| - 1], k, x);
    DescendantsOfKeeps(h, requested, x);
  }

  /** The requested nodes but the last are nodes too, at the same positions. */
  lemma PrefixAt(h: seq<Hierarchy>, requested: seq<int>, k: int)
    requires NodesOk(h, requested) && 0 <= k < |requested| - 1
    ensures NodesOk(h, requested[..|requested| - 1]) && requested[..|requested| - 1][k] == requested[k]
  {
  }

  /** An id collected for the requested nodes but the last stays collected with the last. */
  lemma DescendantsOfKeeps(h: seq<Hierarchy>, requested: seq<int>, x: int)
    requires Linked(h) && NodesOk(h, requested) && requested != []
    requires NodesOk(h, requested[..|requested| - 1]) && x in DescendantsOf(h, requested[..|requested| - 1])
    ensures x in DescendantsOf(h, requested)
  {
    DescendantsOfStep(h, requested);
    InConcat(DescendantsOf(h, requested[..|requested| - 1]), Descendants(h, requested[|requested| - 1]), x);
  }

  /** The descendants of the last requested node are collected. */
  lemma DescendantsOfLast(h: seq<Hierarchy>, requested: seq<int>, x: int)
    requires Linked(h) && NodesOk(h, requested) && requested != []
    requires x in Descendants(h, requested[|requested| - 1])
    ensures x in DescendantsOf(h, requested)
  {
    DescendantsOfStep(h, requested);
    InConcat(DescendantsOf(h, requested[..|requested| - 1]), Descendants(h, requested[|requested| - 1]), x);
  }

  lemma InConcat(a: seq<int>, b: seq<int>, x: int)
    ensures x in a + b <==> x in a || x in b
  {
  }

  /** Every id in the list is a descendant of some requested node. */
  lemma {:induction false} DescendantsOfFrom(h: seq<Hierarchy>, requested: seq<int>, x: int) returns (k: int)
    requires Linked(h) && NodesOk(h, requested) && x in DescendantsOf(h, requested)
    ensures 0 <= k < |requested| && x in Descendants(h, requested[k])
  {
    DescendantsOfSplit(h, requested, x);
    var n := |requested| - 1;
    var init := requested[..n];
    if x in DescendantsOf(h, init) {
      k := DescendantsOfFrom(h, init, x);
      assert init[k] == requested[k];
    } else {
      k := n;
    }
  }

  /** An id in the list was collected for the requested nodes but the last, or for the last. */
  lemma DescendantsOfSplit(h: seq<Hierarchy>, requested: seq<int>, x: int)
    requires Linked(h) && NodesOk(h, requested) && x in DescendantsOf(h, requested)
    ensures requested != [] && NodesOk(h, requested[..|requested| - 1])
    ensures x in DescendantsOf(h, requested[..|requested| - 1]) || x in Descendants(h, requested[|requested| - 1])
  {
    DescendantsOfStep(h, requested);
    InConcat(DescendantsOf(h, requested[..|requested| - 1]), Descendants(h, requested[|requested| - 1]), x);
  }

  /** The collected list holds the requested nodes and their descendants, and nothing else. */
  lemma ClosureMembers(h: seq<Hierarchy>, requested: seq<int>, x: int)
    requires Linked(h) && NodesOk(h, requested)
    ensures x in Closure(h, requested) <==>
              x in requested || exists k :: 0 <= k < |requested| && x in Descendants(h, requested[k])
  {
    AddAllMembers(requested, DescendantsOf(h, requested), x);
    if x in DescendantsOf(h, requested) {
      var k := DescendantsOfFrom(h, requested, x);
    }
    if exists k :: 0 <= k < |requested| && x in Descendants(h, requested[k]) {
      var k :| 0 <= k < |requested| && x in Descendants(h, requested[k]);
      DescendantsOfHas(h, requested, k, x);
    }
  }

  lemma {:induction false} SubtreeNested(h: seq<Hierarchy>, r: int, p: int, x: int)
    requires Linked(h) && 0 <= r < |h| && p in Subtree(h, r) && 0 <= p < |h| && x in Subtree(h, p)
    ensures x in Subtree(h, r)
    decreases |h| - r, 0
  {
    SubtreeStep(h, r);
    if p != r {
      assert LinkedAt(h, r) && h[r].firstChild != -1;
      ForestNested(h, h[r].firstChild, p, x);
    }
  }

  lemma {:induction false} ForestNested(h: seq<Hierarchy>, s: int, p: int, x: int)
    requires Linked(h) && 0 <= s < |h| && p in Forest(h, s) && 0 <= p < |h| && x in Subtree(h, p)
    ensures x in Forest(h, s)
    decreases |h| - s, 1
  {
    ForestStep(h, s);
    if p in Subtree(h, s) {
      SubtreeNested(h, s, p, x);
    } else {
      assert LinkedAt(h, s) && h[s].nextSibling != -1;
      ForestNested(h, h[s].nextSibling, p, x);
    }
  }

  /** A descendant of a descendant is a descendant. */
  lemma DescendantsNested(h: seq<Hierarchy>, r: int, i: int, x: int)
    requires Linked(h) && 0 <= r < |h| && i in Descendants(h, r) && x in Descendants(h, i)
    ensures x in Descendants(h, r)
  {
    assert Subtree(h, r) == [r] + Descendants(h, r);
    assert Subtree(h, i) == [i] + Descendants(h, i);
    SubtreeNested(h, r, i, x);
  }

  /** The collected list is closed under descendants. */
  lemma ClosureClosed(h: seq<Hierarchy>, requested: seq<int>, i: int, x: int)
    requires Linked(h) && NodesOk(h, requested) && i in Closure(h, requested)
    requires 0 <= i < |h| && x in Descendants(h, i)
    ensures x in Closure(h, requested)
  {
    ClosureMembers(h, requested, i);
    ClosureMembers(h, requested, x);
    if i in requested {
      var k :| 0 <= k < |requested| && requested[k] == i;
    } else {
      var k :| 0 <= k < |requested| && i in Descendants(h, requested[k]);
      DescendantsNested(h, requested[k], i, x);
    }
  }

  // ---------------------------------------------------------------- the sorted selection

  /** The ids of the list below n, in increasing order without repeats: what sorting the
      collected list and dropping duplicates leaves of it. */
  function SortedMembers(ids: seq<int>, n: int): (r: seq<int>)
    requires 0 <= n
  {
    if n == 0 then [] else SortedMembers(ids, n - 1) + (if n - 1 in ids then [n - 1] else [])
  }

  lemma {:induction false} SortedMembersAre(ids: seq<int>, n: int)
    requires 0 <= n
    ensures var r := SortedMembers(ids, n);
            Increasing(r) && (forall j :: 0 <= j < |r| ==> 0 <= r[j] < n) &&
            (forall x :: x in r <==> 0 <= x < n && x in ids)
  {
    if n > 0 {
      SortedMembersAre(ids, n - 1);
    }
  }

  /** The positions the corrected deleteSceneNodes erases: the collected nodes, sorted. */
  function Selection(h: seq<Hierarchy>, requested: seq<int>): seq<int>
    requires Linked(h) && NodesOk(h, requested)
  {
    SortedMembers(Closure(h, requested), |h|)
  }

  /** binary_search on the sorted selection finds exactly the collected nodes, and the
      selection is sorted, without repeats, and made of nodes. */
  lemma SelectionSearch(h: seq<Hierarchy>, requested: seq<int>, i: int)
    requires Linked(h) && NodesOk(h, requested)
    ensures Increasing(Selection(h, requested))
    ensures forall j :: 0 <= j < |Selection(h, requested)| ==> 0 <= Selection(h, requested)[j] < |h|
    ensures BinarySearch(Selection(h, requested), i) <==> 0 <= i < |h| && i in Closure(h, requested)
  {
    SortedMembersAre(Closure(h, requested), |h|);
    BinarySearchSorted(Selection(h, requested), i);
  }

  /** A node kept by the selection has its parent kept too. */
  predicate ParentsSurvive(h: seq<Hierarchy>, selection: seq<int>)
  {
    forall i :: 0 <= i < |h| && !BinarySearch(selection, i) && 0 <= h[i].parent < |h| ==>
      !BinarySearch(selection, h[i].parent)
  }

  lemma {:induction false} SiblingsInForest(h: seq<Hierarchy>, s: int, x: int)
    requires Linked(h) && IsNodeOrNone(h, s) && x in Siblings(h, s)
    ensures x in Forest(h, s)
    decreases |h| - s
  {
    if s != -1 {
      ForestStep(h, s);
      assert LinkedAt(h, s);
      if x != s {
        SiblingsInForest(h, h[s].nextSibling, x);
      }
    }
  }

  /** With the sorted selection, no survivor loses its parent. */
  lemma SelectionParentsSurvive(h: seq<Hierarchy>, requested: seq<int>)
    requires ParentsAgree(h) && NodesOk(h, requested)
    ensures ParentsSurvive(h, Selection(h, requested))
  {
    var sel := Selection(h, requested);
    forall i | 0 <= i < |h| && !BinarySearch(sel, i) && 0 <= h[i].parent < |h|
      ensures !BinarySearch(sel, h[i].parent)
    {
      var p := h[i].parent;
      SelectionSearch(h, requested, i);
      SelectionSearch(h, requested, p);
      if BinarySearch(sel, p) {
        assert LinkedAt(h, p);
        SiblingsInForest(h, h[p].firstChild, i);
        ClosureClosed(h, requested, p, i);
      }
    }
  }

  // ---------------------------------------------------------------- the old -> new index table

  /** newIndices: the rank among the survivors of every kept node, -1 for an erased one. */
  function NewIndices(selection: seq<int>, n: nat): (r: seq<int>)
    ensures |r| == n
  {
    seq(n, i requires 0 <= i < n => if BinarySearch(selection, i) then -1 else KeptBefore(selection, i))
  }

  /** The table once the first i survivors are entered. */
  function PartialIndices(selection: seq<int>, n: nat, i: int): (r: seq<int>)
    ensures |r| == n
  {
    seq(n, j requires 0 <= j < n =>
          if !BinarySearch(selection, j) && KeptBefore(selection, j) < i then KeptBefore(selection, j) else -1)
  }

  lemma PartialIndicesStep(selection: seq<int>, n: nat, i: int)
    requires 0 <= i < KeptBefore(selection, n)
    ensures 0 <= Survivors(selection, n)[i] < n
    ensures PartialIndices(selection, n, i + 1) ==
              PartialIndices(selection, n, i)[Survivors(selection, n)[i] := i]
  {
    SurvivorAt(selection, n, i);
    var s := Survivors(selection, n)[i];
    forall j | 0 <= j < n && !BinarySearch(selection, j) && j != s
      ensures KeptBefore(selection, j) != i
    {
      if j < s {
        KeptBeforeMono(selection, j, s);
      } else {
        KeptBeforeMono(selection, s, j);
      }
    }
  }

  lemma PartialIndicesEnds(selection: seq<int>, n: nat)
    ensures PartialIndices(selection, n, 0) == seq(n, _ => -1)
    ensures PartialIndices(selection, n, KeptBefore(selection, n)) == NewIndices(selection, n)
  {
    forall j | 0 <= j < n && !BinarySearch(selection, j)
      ensures KeptBefore(selection, j) < KeptBefore(selection, n)
    {
      KeptBeforeMono(selection, j, n);
    }
  }

  /** Step 1.b of deleteSceneNodes: a table of -1, then newIndices[nodes[i]] = i for every
      survivor. */
  method BuildNewIndices(nodes: seq<int>, oldSize: nat, ghost selection: seq<int>) returns (newIndices: seq<int>)
    requires nodes == Survivors(selection, oldSize)
    ensures newIndices == NewIndices(selection, oldSize)
  {
    newIndices := seq(oldSize, _ => -1);
    PartialIndicesEnds(selection, oldSize);
    for i := 0 to |nodes|
      invariant newIndices == PartialIndices(selection, oldSize, i)
    {
      PartialIndicesStep(selection, oldSize, i);
      newIndices := newIndices[nodes[i] := i];
    }
  }

  /** The survivors and newIndices are inverse tables. */
  predicate IndexTable(nodes: seq<int>, newIndices: seq<int>)
  {
    |nodes| <= |newIndices| < TWO_31 &&
    (forall j :: 0 <= j < |nodes| ==> 0 <= nodes[j] < |newIndices| && newIndices[nodes[j]] == j) &&
    (forall k :: 0 <= k < |newIndices| && newIndices[k] != -1 ==>
       0 <= newIndices[k] < |nodes| && nodes[newIndices[k]] == k)
  }

  lemma IndexTableHolds(selection: seq<int>, n: nat)
    requires n < TWO_31
    ensures IndexTable(Survivors(selection, n), NewIndices(selection, n))
  {
    var nodes := Survivors(selection, n);
    forall j | 0 <= j < |nodes|
      ensures 0 <= nodes[j] < n && NewIndices(selection, n)[nodes[j]] == j
    {
      SurvivorAt(selection, n, j);
    }
    forall k | 0 <= k < n && NewIndices(selection, n)[k] != -1
      ensures 0 <= NewIndices(selection, n)[k] < |nodes| && nodes[NewIndices(selection, n)[k]] == k
    {
      SurvivorRank(selection, n, k);
    }
  }

  // ---------------------------------------------------------------- nodeMover

  /** findLastNonDeletedItem: node itself when it survives, otherwise the same question for
      its next sibling; -1 at the end of the chain. It reads the hierarchy as it was before
      the transform. */
  function FindLastNonDeletedItem(h: seq<Hierarchy>, newIndices: seq<int>, node: int): (r: int)
    requires Linked(h) && |newIndices| == |h| && IsNodeOrNone(h, node)
    // -1, or the new index of a node from node on
    ensures r != -1 ==> 0 <= node && r in newIndices[node..]
    decreases if node == -1 then 0 else |h| - node + 1
  {
    if node == -1 then -1
    else if newIndices[node] == -1 then
      assert LinkedAt(h, node);
      FindLastNonDeletedItem(h, newIndices, h[node].nextSibling)
    else newIndices[node]
  }

  /** The new index of the first entry of chain that survives, -1 when none does. */
  function FirstSurvivor(newIndices: seq<int>, chain: seq<int>): (r: int)
    requires forall k :: 0 <= k < |chain| ==> 0 <= chain[k] < |newIndices|
    ensures r == -1 <==> forall k :: 0 <= k < |chain| ==> newIndices[chain[k]] == -1
    ensures r != -1 ==> exists k :: 0 <= k < |chain| && newIndices[chain[k]] == r
  {
    if chain == [] then -1
    else if newIndices[chain[0]] != -1 then newIndices[chain[0]]
    else
      var r := FirstSurvivor(newIndices, chain[1..]);
      assert forall k :: 0 < k < |chain| ==> chain[k] == chain[1..][k - 1];
      r
  }

  /** findLastNonDeletedItem walks the sibling chain from node and answers with its first
      survivor. */
  lemma {:induction false} FindLastIsFirstSurvivor(h: seq<Hierarchy>, newIndices: seq<int>, node: int)
    requires Linked(h) && |newIndices| == |h| && IsNodeOrNone(h, node)
    ensures FindLastNonDeletedItem(h, newIndices, node) == FirstSurvivor(newIndices, Siblings(h, node))
    decreases if node == -1 then 0 else |h| - node + 1
  {
    if node != -1 {
      assert LinkedAt(h, node);
      var next := h[node].nextSibling;
      assert Siblings(h, node)[1..] == Siblings(h, next);
      if newIndices[node] == -1 {
        FindLastIsFirstSurvivor(h, newIndices, next);
      }
    }
  }

  /** With the table of a selection, the result is -1 or a new index no smaller than the
      number of survivors before node. */
  lemma {:induction false} FindLastBound(h: seq<Hierarchy>, selection: seq<int>, node: int)
    requires Linked(h) && IsNodeOrNone(h, node)
    ensures var r := FindLastNonDeletedItem(h, NewIndices(selection, |h|), node);
            r == -1 || (node >= 0 && KeptBefore(selection, node) <= r < KeptBefore(selection, |h|))
    decreases if node == -1 then 0 else |h| - node + 1
  {
    if node != -1 {
      assert LinkedAt(h, node);
      var next := h[node].nextSibling;
      if BinarySearch(selection, node) {
        FindLastBound(h, selection, next);
        if next != -1 {
          KeptBeforeMono(selection, node, next);
        }
      } else {
        KeptBeforeMono(selection, node, |h|);
      }
    }
  }

  /** nodeMover, corrected: every link goes through the table, the level stays. */
  function MoveNode(h: seq<Hierarchy>, newIndices: seq<int>, i: int): (r: Hierarchy)
    requires Linked(h) && |newIndices| == |h| && 0 <= i < |h|
    // each forward link moves to the first survivor of the chain it starts
    ensures LinkedAt(h, i) && r.level == h[i].level
    ensures r.firstChild == FirstSurvivor(newIndices, Children(h, i))
    ensures r.nextSibling == FirstSurvivor(newIndices, Siblings(h, h[i].nextSibling))
    ensures r.lastSibling == FirstSurvivor(newIndices, Siblings(h, h[i].lastSibling))
  {
    assert LinkedAt(h, i);
    FindLastIsFirstSurvivor(h, newIndices, h[i].firstChild);
    FindLastIsFirstSurvivor(h, newIndices, h[i].nextSibling);
    FindLastIsFirstSurvivor(h, newIndices, h[i].lastSibling);
    var e := h[i];
    Hierarchy(if e.parent != -1 then newIndices[e.parent] else -1,
              FindLastNonDeletedItem(h, newIndices, e.firstChild),
              FindLastNonDeletedItem(h, newIndices, e.nextSibling),
              FindLastNonDeletedItem(h, newIndices, e.lastSibling),
              e.level)
  }

  /** nodeMover as written: its designated initializer names four fields, so level_ is
      value-initialised to 0. */
  function MoveNodeAsWritten(h: seq<Hierarchy>, newIndices: seq<int>, i: int): (r: Hierarchy)
    requires Linked(h) && |newIndices| == |h| && 0 <= i < |h|
    ensures r == MoveNode(h, newIndices, i).(level := 0)
  {
    assert LinkedAt(h, i);
    var e := h[i];
    Hierarchy(if e.parent != -1 then newIndices[e.parent] else -1,
              FindLastNonDeletedItem(h, newIndices, e.firstChild),
              FindLastNonDeletedItem(h, newIndices, e.nextSibling),
              FindLastNonDeletedItem(h, newIndices, e.lastSibling),
              0)
  }

  function MovedAll(h: seq<Hierarchy>, newIndices: seq<int>): (r: seq<Hierarchy>)
    requires Linked(h) && |newIndices| == |h|
    ensures |r| == |h|
  {
    seq(|h|, i requires 0 <= i < |h| => MoveNode(h, newIndices, i))
  }

  /** Step 2: std::transform of the hierarchy through nodeMover, entry by entry. */
  method TransformHierarchy(h: seq<Hierarchy>, newIndices: seq<int>) returns (r: seq<Hierarchy>)
    requires Linked(h) && |newIndices| == |h|
    ensures r == MovedAll(h, newIndices)
  {
    r := h;
    for i := 0 to |h|
      invariant |r| == |h|
      invariant forall k :: 0 <= k < i ==> r[k] == MoveNode(h, newIndices, k)
    {
      r := r[i := MoveNode(h, newIndices, i)];
    }
  }

  // ---------------------------------------------------------------- shiftMapIndices

  /** The hash with the entry of each survivor's old id under the survivor's new id. */
  function Rekeyed(items: map<u32, u32>, nodes: seq<int>): map<u32, u32>
  {
    map j: u32 | j < |nodes| && 0 <= nodes[j] < TWO_32 && nodes[j] as u32 in items :: items[nodes[j] as u32]
  }

  /** Inserting one more old entry inserts it under its new key, or not at all when the node
      is erased. */
  lemma RekeyedInsert(d: map<u32, u32>, k: u32, v: u32, nodes: seq<int>, newIndices: seq<int>)
    requires IndexTable(nodes, newIndices) && k < |newIndices|
    ensures newIndices[k] != -1 ==> Rekeyed(d[k := v], nodes) == Rekeyed(d, nodes)[newIndices[k] as u32 := v]
    ensures newIndices[k] == -1 ==> Rekeyed(d[k := v], nodes) == Rekeyed(d, nodes)
  {
    if newIndices[k] != -1 {
      var l := Rekeyed(d[k := v], nodes);
      var r := Rekeyed(d, nodes)[newIndices[k] as u32 := v];
      forall j: u32 ensures (j in l <==> j in r) && (j in l ==> l[j] == r[j]) {
        if j < |nodes| {
          assert nodes[j] == k <==> j == newIndices[k];
        }
      }
      assert l == r;
    } else {
      forall j: u32 | j < |nodes| ensures nodes[j] != k {
        assert newIndices[nodes[j]] == j;
      }
      assert Rekeyed(d[k := v], nodes) == Rekeyed(d, nodes);
    }
  }

  /** The state of shiftMapIndices' walk: rest is what is left of items, and the new hash
      holds the re-keyed entries walked so far. */
  ghost predicate RekeyedSoFar(r: map<u32, u32>, items: map<u32, u32>, rest: map<u32, u32>, nodes: seq<int>)
  {
    (forall k :: k in rest ==> k in items && rest[k] == items[k]) &&
    r == Rekeyed(items - rest.Keys, nodes)
  }

  lemma RekeyedSoFarStep(r: map<u32, u32>, items: map<u32, u32>, rest: map<u32, u32>, nodes: seq<int>,
                         newIndices: seq<int>, k: u32)
    requires RekeyedSoFar(r, items, rest, nodes) && IndexTable(nodes, newIndices)
    requires k in rest && k < |newIndices|
    ensures RekeyedSoFar(if newIndices[k] != -1 then r[newIndices[k] as u32 := rest[k]] else r,
                         items, rest - {k}, nodes)
  {
    RekeyedInsert(items - rest.Keys, k, rest[k], nodes, newIndices);
    Merge.DoneStep(items, rest, k);
    Merge.RestShrinks(items, rest, k);
  }

  /** shiftMapIndices: every entry whose node survives is inserted into a new hash under the
      node's new index, and the new hash replaces the old. The hash is walked in an order the
      result does not depend on. */
  method ShiftMapIndices(items: map<u32, u32>, newIndices: seq<int>, ghost nodes: seq<int>) returns (r: map<u32, u32>)
    requires IndexTable(nodes, newIndices) && forall k :: k in items ==> k < |newIndices|
    ensures r == Rekeyed(items, nodes)
  {
    r := map[];
    var rest := items;
    assert items - rest.Keys == map[];
    while rest != map[]
      invariant RekeyedSoFar(r, items, rest, nodes)
      decreases |rest|
    {
      var k :| k in rest;
      RekeyedSoFarStep(r, items, rest, nodes, newIndices, k);
      var newIndex := newIndices[k];
      if newIndex != -1 {
        r := r[newIndex as u32 := rest[k]];
      }
      rest := rest - {k};
    }
    var none: map<u32, u32> := map[];
    assert none.Keys == {};
    assert items - none.Keys == items;
  }

  /** The re-keyed hash holds, under each survivor's new index, the entry its old id had, and
      holds nothing else: the entries of erased nodes are gone. */
  lemma RekeyedAt(items: map<u32, u32>, nodes: seq<int>, newIndices: seq<int>, k: u32, j: u32)
    requires IndexTable(nodes, newIndices) && k < |newIndices|
    ensures newIndices[k] != -1 ==>
              (newIndices[k] in Rekeyed(items, nodes) <==> k in items) &&
              (k in items ==> Rekeyed(items, nodes)[newIndices[k] as u32] == items[k])
    ensures j in Rekeyed(items, nodes) ==>
              j < |nodes| && 0 <= nodes[j] < |newIndices| && newIndices[nodes[j]] == j &&
              nodes[j] as u32 in items && Rekeyed(items, nodes)[j] == items[nodes[j] as u32]
  {
  }

  // ---------------------------------------------------------------- the hierarchy after deletion

  /** Steps 2 and 3: every entry moved through the table of the selection, then the
      selected entries erased. */
  function DeletedHierarchy(h: seq<Hierarchy>, selection: seq<int>): (r: seq<Hierarchy>)
    requires Linked(h)
    ensures |r| == KeptBefore(selection, |h|)
  {
    Kept(MovedAll(h, NewIndices(selection, |h|)), selection, |h|)
  }

  /** A kept node lands at its rank among the survivors, moved. */
  lemma DeletedAt(h: seq<Hierarchy>, selection: seq<int>, i: int)
    requires Linked(h) && 0 <= i < |h| && !BinarySearch(selection, i)
    ensures KeptBefore(selection, i) < |DeletedHierarchy(h, selection)|
    ensures DeletedHierarchy(h, selection)[KeptBefore(selection, i)] == MoveNode(h, NewIndices(selection, |h|), i)
  {
    KeptAt(MovedAll(h, NewIndices(selection, |h|)), selection, |h|, i);
  }

  /** Entry j of the new hierarchy keeps its links forward and in range. */
  lemma DeletedLinkedAt(h: seq<Hierarchy>, selection: seq<int>, j: int)
    requires Linked(h) && 0 <= j < KeptBefore(selection, |h|)
    ensures LinkedAt(DeletedHierarchy(h, selection), j)
  {
    var i := Survivors(selection, |h|)[j];
    SurvivorAt(selection, |h|, j);
    DeletedAt(h, selection, i);
    assert LinkedAt(h, i);
    var e := h[i];
    if e.parent != -1 {
      KeptBeforeMono(selection, e.parent, i);
    }
    FindLastBound(h, selection, e.firstChild);
    FindLastBound(h, selection, e.nextSibling);
    FindLastBound(h, selection, e.lastSibling);
    if e.firstChild != -1 {
      KeptBeforeMono(selection, i, e.firstChild);
    }
    if e.nextSibling != -1 {
      KeptBeforeMono(selection, i, e.nextSibling);
    }
    if e.lastSibling != -1 {
      KeptBeforeMono(selection, i, e.lastSibling);
    }
  }

  /** Whatever the selection, the links of the new hierarchy stay in range and point the
      way the old ones did: a parent before its children, siblings forward. */
  lemma DeletedLinked(h: seq<Hierarchy>, selection: seq<int>)
    requires Linked(h)
    ensures Linked(DeletedHierarchy(h, selection))
  {
    forall j | 0 <= j < |DeletedHierarchy(h, selection)|
      ensures LinkedAt(DeletedHierarchy(h, selection), j)
    {
      DeletedLinkedAt(h, selection, j);
    }
  }

  /** The new positions of the survivors of a chain, in chain order. */
  function SurvivingIn(newIndices: seq<int>, chain: seq<int>): (r: seq<int>)
    requires forall k :: 0 <= k < |chain| ==> 0 <= chain[k] < |newIndices|
    ensures |r| <= |chain|
    ensures forall k :: 0 <= k < |chain| && newIndices[chain[k]] != -1 ==> newIndices[chain[k]] in r
  {
    if chain == [] then []
    else
      var rest := SurvivingIn(newIndices, chain[1..]);
      assert forall k :: 0 < k < |chain| ==> chain[k] == chain[1..][k - 1];
      (if newIndices[chain[0]] == -1 then [] else [newIndices[chain[0]]]) + rest
  }

  /** The chain that starts at the first survivor of an old chain is, in the new hierarchy,
      the survivors of the old chain at their new positions, in their old order. */
  lemma {:induction false} DeletedSiblings(h: seq<Hierarchy>, selection: seq<int>, x: int)
    requires Linked(h) && IsNodeOrNone(h, x)
    ensures Linked(DeletedHierarchy(h, selection))
    ensures var ni := NewIndices(selection, |h|);
            var s := FirstSurvivor(ni, Siblings(h, x));
            IsNodeOrNone(DeletedHierarchy(h, selection), s) &&
            Siblings(DeletedHierarchy(h, selection), s) == SurvivingIn(ni, Siblings(h, x))
    decreases if x < 0 then 0 else |h| + 1 - x
  {
    DeletedLinked(h, selection);
    if x != -1 {
      var ni := NewIndices(selection, |h|);
      var d := DeletedHierarchy(h, selection);
      assert LinkedAt(h, x);
      var n := h[x].nextSibling;
      var chain := Siblings(h, x);
      assert chain[1..] == Siblings(h, n);
      DeletedSiblings(h, selection, n);
      if !BinarySearch(selection, x) {
        DeletedSiblingsKept(h, selection, x);
      }
    }
  }

  /** The new chain at a kept node's new position: the node, then the new chain its moved
      nextSibling starts. */
  lemma DeletedSiblingsKept(h: seq<Hierarchy>, selection: seq<int>, x: int)
    requires Linked(h) && 0 <= x < |h| && !BinarySearch(selection, x)
    ensures LinkedAt(h, x) && Linked(DeletedHierarchy(h, selection))
    ensures var ni := NewIndices(selection, |h|);
            var d := DeletedHierarchy(h, selection);
            var s := FirstSurvivor(ni, Siblings(h, h[x].nextSibling));
            ni[x] == KeptBefore(selection, x) < |d| && IsNodeOrNone(d, s) &&
            Siblings(d, ni[x]) == [ni[x]] + Siblings(d, s)
  {
    DeletedLinked(h, selection);
    var ni := NewIndices(selection, |h|);
    var d := DeletedHierarchy(h, selection);
    DeletedAt(h, selection, x);
    var j := KeptBefore(selection, x);
    assert ni[x] == j && d[j] == MoveNode(h, ni, x);
    assert LinkedAt(d, j);
  }

  /** The children of a kept node, in the new hierarchy at its new position, are its kept
      children at their new positions, in their old order. */
  lemma DeletedChildren(h: seq<Hierarchy>, selection: seq<int>, p: int)
    requires Linked(h) && 0 <= p < |h| && !BinarySearch(selection, p)
    ensures Linked(DeletedHierarchy(h, selection)) && KeptBefore(selection, p) < |DeletedHierarchy(h, selection)|
    ensures forall k :: 0 <= k < |Children(h, p)| ==> 0 <= Children(h, p)[k] < |h|
    ensures Children(DeletedHierarchy(h, selection), KeptBefore(selection, p)) ==
              SurvivingIn(NewIndices(selection, |h|), Children(h, p))
  {
    DeletedAt(h, selection, p);
    assert LinkedAt(h, p);
    DeletedSiblings(h, selection, h[p].firstChild);
  }

  /** Parent fields that agree with the child chains still agree after the deletion: a kept
      node whose parent goes becomes a root, one whose parent stays sits in its chain. */
  lemma DeletedParentsAgree(h: seq<Hierarchy>, selection: seq<int>)
    requires ParentsAgree(h)
    ensures ParentsAgree(DeletedHierarchy(h, selection))
  {
    var d := DeletedHierarchy(h, selection);
    var ni := NewIndices(selection, |h|);
    DeletedLinked(h, selection);
    forall j | 0 <= j < |d| && 0 <= d[j].parent < |d| ensures j in Children(d, d[j].parent)
    {
      var i := Survivors(selection, |h|)[j];
      SurvivorAt(selection, |h|, j);
      DeletedAt(h, selection, i);
      assert LinkedAt(h, i);
      var p := h[i].parent;
      assert p != -1 && d[j].parent == ni[p];
      DeletedChildren(h, selection, p);
      assert i in Children(h, p);
    }
  }

  /** When no kept node loses its parent, every cached level stays one more than the
      parent's, and roots stay at level 0. */
  lemma DeletedLevels(h: seq<Hierarchy>, selection: seq<int>)
    requires Linked(h) && LevelsConsistent(h) && ParentsSurvive(h, selection)
    ensures LevelsConsistent(DeletedHierarchy(h, selection))
  {
    var d := DeletedHierarchy(h, selection);
    forall j | 0 <= j < |d| ensures LevelConsistentAt(d, j) {
      var i := Survivors(selection, |h|)[j];
      SurvivorAt(selection, |h|, j);
      DeletedAt(h, selection, i);
      assert LinkedAt(h, i) && LevelConsistentAt(h, i);
      var p := h[i].parent;
      if p != -1 {
        DeletedAt(h, selection, p);
      }
    }
  }

  /** nodeMover as written, applied to every entry, then the selected entries erased. */
  function DeletedHierarchyAsWritten(h: seq<Hierarchy>, selection: seq<int>): (r: seq<Hierarchy>)
    requires Linked(h)
    ensures |r| == |DeletedHierarchy(h, selection)|
    ensures forall j :: 0 <= j < |r| ==> r[j] == DeletedHierarchy(h, selection)[j].(level := 0)
  {
    var ni := NewIndices(selection, |h|);
    var moved := seq(|h|, i requires 0 <= i < |h| => MoveNodeAsWritten(h, ni, i));
    KeptLevels(h, selection, moved);
    Kept(moved, selection, |h|)
  }

  lemma KeptLevels(h: seq<Hierarchy>, selection: seq<int>, moved: seq<Hierarchy>)
    requires Linked(h) && |moved| == |h|
    requires forall i :: 0 <= i < |h| ==> moved[i] == MoveNode(h, NewIndices(selection, |h|), i).(level := 0)
    ensures forall j :: 0 <= j < KeptBefore(selection, |h|) ==>
              Kept(moved, selection, |h|)[j] == DeletedHierarchy(h, selection)[j].(level := 0)
  {
    forall j | 0 <= j < KeptBefore(selection, |h|)
      ensures Kept(moved, selection, |h|)[j] == DeletedHierarchy(h, selection)[j].(level := 0)
    {
      KeptElements(moved, selection, j);
      KeptElements(MovedAll(h, NewIndices(selection, |h|)), selection, j);
    }
  }

  /** A root with one child, nothing deleted: the hierarchy nodeMover as written leaves
      has the child at level 0 under a parent at level 0. */
  lemma DeletedAsWrittenDropsLevels()
    ensures var h := [Hierarchy(-1, 1, -1, -1, 0), Hierarchy(0, -1, -1, 1, 1)];
            Linked(h) && LevelsConsistent(h) && ParentsAgree(h) &&
            !LevelsConsistent(DeletedHierarchyAsWritten(h, []))
  {
    var h := [Hierarchy(-1, 1, -1, -1, 0), Hierarchy(0, -1, -1, 1, 1)];
    assert LinkedAt(h, 0) && LinkedAt(h, 1);
    assert Children(h, 0) == [1];
    DeletedAt(h, [], 0);
    DeletedAt(h, [], 1);
    assert KeptBefore([], 1) == 1;
    var d := DeletedHierarchyAsWritten(h, []);
    assert d[1].parent == 0 && d[1].level == 0 && d[0].level == 0;
    assert !LevelConsistentAt(d, 1);
  }

  /** A root with children 1 and 2, where 1 has child 4 and 2 has child 3. */
  function TwoBranches(): seq<Hierarchy>
  {
    [Hierarchy(-1, 1, -1, -1, 0),
     Hierarchy(0, 4, 2, 2, 1),
     Hierarchy(0, 3, -1, -1, 1),
     Hierarchy(2, -1, -1, 3, 2),
     Hierarchy(1, -1, -1, 4, 2)]
  }

  /** The descendants of nodes 1 and 2 of TwoBranches, in the order collectNodesToDelete
      visits them. */
  lemma TwoBranchesDescendants()
    ensures Linked(TwoBranches())
    ensures DescendantsOf(TwoBranches(), [1, 2]) == [4, 3]
  {
    var h := TwoBranches();
    assert LinkedAt(h, 0) && LinkedAt(h, 1) && LinkedAt(h, 2) && LinkedAt(h, 3) && LinkedAt(h, 4);
    OnlyChildIsLeaf(h, 1);
    OnlyChildIsLeaf(h, 2);
    assert [1, 2][..1] == [1];
    assert DescendantsOf(h, [1]) == [4];
  }

  /** A node whose one child has no children has that child as its only descendant. */
  lemma OnlyChildIsLeaf(h: seq<Hierarchy>, n: int)
    requires Linked(h) && 0 <= n < |h| && 0 <= h[n].firstChild < |h|
    requires h[h[n].firstChild].nextSibling == -1 && h[h[n].firstChild].firstChild == -1
    ensures Descendants(h, n) == [h[n].firstChild]
  {
    assert LinkedAt(h, n);
    var c := h[n].firstChild;
    assert Forest(h, c) == Subtree(h, c) == [c];
  }

  /** The child chains of TwoBranches. */
  lemma TwoBranchesChildren()
    ensures Linked(TwoBranches())
    ensures Children(TwoBranches(), 0) == [1, 2]
    ensures Children(TwoBranches(), 1) == [4] && Children(TwoBranches(), 2) == [3]
  {
    var h := TwoBranches();
    assert LinkedAt(h, 0) && LinkedAt(h, 1) && LinkedAt(h, 2) && LinkedAt(h, 3) && LinkedAt(h, 4);
    assert Siblings(h, 2) == [2];
  }

  /** TwoBranches is a well-formed hierarchy whose parent fields agree with its child chains. */
  lemma TwoBranchesShape()
    ensures Linked(TwoBranches()) && LevelsConsistent(TwoBranches()) && ParentsAgree(TwoBranches())
  {
    var h := TwoBranches();
    TwoBranchesChildren();
    assert LevelConsistentAt(h, 0) && LevelConsistentAt(h, 1) && LevelConsistentAt(h, 2);
    assert LevelConsistentAt(h, 3) && LevelConsistentAt(h, 4);
  }

  /** collectNodesToDelete appends 4, then 3, to [1, 2]: the list is not sorted. */
  lemma TwoBranchesClosure()
    ensures Linked(TwoBranches()) && Closure(TwoBranches(), [1, 2]) == [1, 2, 4, 3]
  {
    TwoBranchesDescendants();
    assert LowerBound([1, 2], 0, 2, 4) == 2;
    assert AddUniqueIdx([1, 2], 4) == [1, 2, 4];
    assert LowerBound([1, 2, 4], 0, 3, 3) == 2;
    assert AddUniqueIdx([1, 2, 4], 3) == [1, 2, 4, 3];
    assert [4, 3][..1] == [4] && [4][..0] == [];
    assert AddAll([1, 2], [4]) == [1, 2, 4];
    assert AddAll([1, 2], [4, 3]) == AddUniqueIdx(AddAll([1, 2], [4]), 3);
  }

  /** Deleting nodes 1 and 2 of TwoBranches with the collected list as the selection, as
      written: the list is [1, 2, 4, 3], binary_search does not find 3 in it, so node 3
      stays while its parent goes, and it ends up a root at level 2. */
  lemma UnsortedSelectionKeepsChild()
    ensures Linked(TwoBranches()) && LevelsConsistent(TwoBranches()) && ParentsAgree(TwoBranches())
    ensures Closure(TwoBranches(), [1, 2]) == [1, 2, 4, 3]
    ensures !ParentsSurvive(TwoBranches(), Closure(TwoBranches(), [1, 2]))
    ensures !LevelsConsistent(DeletedHierarchy(TwoBranches(), Closure(TwoBranches(), [1, 2])))
  {
    TwoBranchesShape();
    TwoBranchesClosure();
    var h := TwoBranches();
    var v := [1, 2, 4, 3];
    assert LowerBound(v, 0, 4, 2) == 1;
    assert LowerBound(v, 0, 4, 0) == 0;
    assert LowerBound(v, 0, 4, 1) == 0;
    UnsortedSearchMisses();
    assert !BinarySearch(v, 3) && BinarySearch(v, 2) && h[3].parent == 2;
    assert KeptBefore(v, 3) == 1;
    DeletedAt(h, v, 3);
    assert !LevelConsistentAt(DeletedHierarchy(h, v), 1);
  }

  /** The corrected deletion: with the sorted selection the hierarchy shrinks by the number
      of distinct collected nodes, keeps its links, and keeps every level when the parent
      fields agree with the child chains. */
  lemma DeletedScene(h: seq<Hierarchy>, requested: seq<int>)
    requires Linked(h) && NodesOk(h, requested)
    ensures |DeletedHierarchy(h, Selection(h, requested))| == |h| - |Selection(h, requested)|
    ensures Linked(DeletedHierarchy(h, Selection(h, requested)))
    ensures LevelsConsistent(h) && ParentsAgree(h) ==> LevelsConsistent(DeletedHierarchy(h, Selection(h, requested)))
    ensures ParentsAgree(h) ==> ParentsAgree(DeletedHierarchy(h, Selection(h, requested)))
  {
    var sel := Selection(h, requested);
    SelectionSearch(h, requested, 0);
    KeptBeforeCount(sel, |h|, |sel|);
    DeletedLinked(h, sel);
    if LevelsConsistent(h) && ParentsAgree(h) {
      SelectionParentsSurvive(h, requested);
      DeletedLevels(h, sel);
    }
    if ParentsAgree(h) {
      DeletedParentsAgree(h, sel);
    }
  }

  // ---------------------------------------------------------------- deleteSceneNodes

  /** Every key of the hash is a node of the hierarchy: shiftMapIndices reads newIndices at
      each key. */
  predicate KeysAreNodes(items: map<u32, u32>, n: int)
  {
    forall k :: k in items ==> k < n
  }

  /** The body of deleteSceneNodes on the scene's lists and hashes, with the collected list
      sorted before it is used as a selection: the requested nodes and all their descendants
      leave the hierarchy, the transform lists and the three hashes, and every remaining link
      and key is renumbered. */
  method DeleteNodes(h: seq<Hierarchy>, local: seq<Mat4>, global: seq<Mat4>,
                     meshes: map<u32, u32>, materials: map<u32, u32>, names: map<u32, u32>,
                     nodesToDelete: seq<int>)
    returns (h': seq<Hierarchy>, local': seq<Mat4>, global': seq<Mat4>,
             meshes': map<u32, u32>, materials': map<u32, u32>, names': map<u32, u32>)
    requires Linked(h) && |h| < TWO_31 && NodesOk(h, nodesToDelete)
    requires |local| == |h| && |global| == |h|
    requires KeysAreNodes(meshes, |h|) && KeysAreNodes(materials, |h|) && KeysAreNodes(names, |h|)
    ensures h' == DeletedHierarchy(h, Selection(h, nodesToDelete)) && Linked(h')
    ensures |h'| <= |h| && |local'| == |h'| && |global'| == |h'|
    ensures local' == Kept(local, Selection(h, nodesToDelete), |h|)
    ensures global' == Kept(global, Selection(h, nodesToDelete), |h|)
    ensures meshes' == Rekeyed(meshes, Survivors(Selection(h, nodesToDelete), |h|))
    ensures materials' == Rekeyed(materials, Survivors(Selection(h, nodesToDelete), |h|))
    ensures names' == Rekeyed(names, Survivors(Selection(h, nodesToDelete), |h|))
  {
    var oldSize := |h|;
    // 0) the requested nodes and everything below them
    var indicesToDelete := CollectAll(h, nodesToDelete);
    var sorted := SortedMembers(indicesToDelete, oldSize);
    // 1.a) the surviving positions
    var nodes := EraseSelected(Iota(oldSize), sorted);
    KeptIota(sorted, oldSize, oldSize);
    // 1.b) the old -> new table
    var newIndices := BuildNewIndices(nodes, oldSize, sorted);
    IndexTableHolds(sorted, oldSize);
    // 2) and 3) the hierarchy
    var moved := TransformHierarchy(h, newIndices);
    h' := EraseSelected(moved, sorted);
    DeletedLinked(h, sorted);
    // 4a) the transforms
    local' := EraseSelected(local, sorted);
    global' := EraseSelected(global, sorted);
    // 4b) the hashes
    meshes' := ShiftMapIndices(meshes, newIndices, nodes);
    materials' := ShiftMapIndices(materials, newIndices, nodes);
    names' := ShiftMapIndices(names, newIndices, nodes);
  }

  /** deleteSceneNodes: the scene takes the lists and hashes DeleteNodes computes; node names,
      material names and the changed lists stay as they are. */
  method DeleteSceneNodes(scene: Scene, nodesToDelete: seq<int>)
    requires scene.Valid() && NodesOk(scene.hierarchy, nodesToDelete)
    requires KeysAreNodes(scene.meshes, |scene.hierarchy|)
    requires KeysAreNodes(scene.materialForNode, |scene.hierarchy|)
    requires KeysAreNodes(scene.nameForNode, |scene.hierarchy|)
    modifies scene
    ensures scene.Valid()
    ensures var h := old(scene.hierarchy);
            var selection := Selection(h, nodesToDelete);
            var survivors := Survivors(selection, |h|);
            scene.hierarchy == DeletedHierarchy(h, selection) &&
            scene.localTransforms == Kept(old(scene.localTransforms), selection, |h|) &&
            scene.globalTransforms == Kept(old(scene.globalTransforms), selection, |h|) &&
            scene.meshes == Rekeyed(old(scene.meshes), survivors) &&
            scene.materialForNode == Rekeyed(old(scene.materialForNode), survivors) &&
            scene.nameForNode == Rekeyed(old(scene.nameForNode), survivors)
    ensures scene.names == old(scene.names) && scene.materialNames == old(scene.materialNames)
    ensures scene.changedAtThisFrame == old(scene.changedAtThisFrame)
  {
    var h, local, global, meshes, materials, names :=
      DeleteNodes(scene.hierarchy, scene.localTransforms, scene.globalTransforms,
                  scene.meshes, scene.materialForNode, scene.nameForNode, nodesToDelete);
    SetNodeData(scene, h, local, global, meshes, materials, names);
  }

  /** The six per-node fields deleteSceneNodes writes back, and nothing else. */
  method SetNodeData(scene: Scene, h: seq<Hierarchy>, local: seq<Mat4>, global: seq<Mat4>,
                     meshes: map<u32, u32>, materials: map<u32, u32>, names: map<u32, u32>)
    modifies scene
    ensures scene.hierarchy == h && scene.localTransforms == local && scene.globalTransforms == global
    ensures scene.meshes == meshes && scene.materialForNode == materials && scene.nameForNode == names
    ensures scene.names == old(scene.names) && scene.materialNames == old(scene.materialNames)
    ensures scene.changedAtThisFrame == old(scene.changedAtThisFrame)
  {
    scene.hierarchy := h;
    scene.localTransforms := local;
    scene.globalTransforms := global;
    scene.meshes := meshes;
    scene.materialForNode := materials;
    scene.nameForNode := names;
  }
}
