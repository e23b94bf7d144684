/** Tree prediction: a queue of nodes for every row, marking the leaves it reaches. */
module TreePredict {
  import opened TreePaths

  /** The queue and the leaves found so far account for every leaf the row hits. */
  ghost predicate Progress(tree: Tree, row: seq<real>, queue: seq<nat>, found: set<nat>)
    requires Fits(tree, |row|)
  {
    && (forall q :: q in queue ==> Reaches(tree, row, 0, q))
    && (forall leaf :: leaf in found ==> Hits(tree, row, 0, leaf))
    && forall leaf: nat :: Hits(tree, row, 0, leaf) ==>
         leaf in found || exists q :: q in queue && Reaches(tree, row, q, leaf)
  }

  lemma ProgressStart(tree: Tree, row: seq<real>)
    requires Fits(tree, |row|)
    ensures Progress(tree, row, [0], {})
  {
    hide Reaches;
    ReachSelf(tree, row, 0);
    assert 0 in [0];
  }

  /** A split node is replaced by its children. */
  lemma ProgressSplit(tree: Tree, row: seq<real>, queue: seq<nat>, found: set<nat>)
    requires Fits(tree, |row|) && |queue| > 0 && queue[0] in tree && Progress(tree, row, queue, found)
    ensures Progress(tree, row, queue[1..] + Children(tree, row, queue[0]), found)
  {
    hide Reaches, Children;
    var c := Children(tree, row, queue[0]);
    assert queue[0] in queue;
    forall q | q in queue[1..] + c
      ensures Reaches(tree, row, 0, q)
    {
      if q in c { ReachDown(tree, row, 0, queue[0], q); }
    }
    forall leaf: nat | Hits(tree, row, 0, leaf) && leaf !in found
      ensures exists q :: q in queue[1..] + c && Reaches(tree, row, q, leaf)
    {
      QueueKeeps(tree, row, queue, leaf);
    }
  }

  /** A leaf moves from the queue to the result. */
  lemma ProgressLeaf(tree: Tree, row: seq<real>, queue: seq<nat>, found: set<nat>)
    requires Fits(tree, |row|) && |queue| > 0 && queue[0] !in tree && Progress(tree, row, queue, found)
    ensures Progress(tree, row, queue[1..], found + {queue[0]})
  {
    hide Reaches;
    assert queue[0] in queue;
    forall leaf: nat | Hits(tree, row, 0, leaf) && leaf !in found + {queue[0]}
      ensures exists q :: q in queue[1..] && Reaches(tree, row, q, leaf)
    {
      QueueKeeps(tree, row, queue, leaf);
      assert queue[1..] + Children(tree, row, queue[0]) == queue[1..];
    }
  }

  lemma ProgressEnd(tree: Tree, row: seq<real>, found: set<nat>)
    requires Fits(tree, |row|) && Progress(tree, row, [], found)
    ensures forall leaf: nat :: leaf in found <==> Hits(tree, row, 0, leaf)
  {
    hide Reaches;
  }

  // ------------------------------------------------------------------ consecutive nodes

  /** Split nodes 0, 1, 2, ... */
  function SplitTree(features: seq<int>, points: seq<real>): (tree: Tree)
    requires |features| == |points|
    ensures forall i: int :: i in tree <==> 0 <= i < |features|
  {
    map i | 0 <= i < |features| :: Node(features[i], points[i])
  }

  /** Node i compares feature features[i] of the row with points[i]. */
  lemma SplitDescends(row: seq<real>, features: seq<int>, points: seq<real>, i: nat, leaf: nat)
    requires |features| == |points| && i < |features| && forall k :: 0 <= k < |features| ==> -1 <= features[k] < |row|
    ensures Fits(SplitTree(features, points), |row|)
    ensures var tree := SplitTree(features, points);
            Hits(tree, row, i, leaf) <==>
              if features[i] == -1 then Hits(tree, row, 2 * i + 1, leaf) || Hits(tree, row, 2 * i + 2, leaf)
              else if row[features[i]] < points[i] then Hits(tree, row, 2 * i + 1, leaf)
              else Hits(tree, row, 2 * i + 2, leaf)
  {
    hide Hits;
    var tree := SplitTree(features, points);
    if features[i] == -1 { BothChildren(tree, row, i, leaf); } else { OneChild(tree, row, i, leaf); }
  }

  /** One row of the result. The loop ends, stays in bounds and marks exactly the leaves that are hit. */
  method PredictRow(row: seq<real>, features: seq<int>, points: seq<real>, i: nat, res: array2<int>)
    requires |features| == |points| && Fits(SplitTree(features, points), |row|)
    requires i < res.Length0 && res.Length1 == |features| + 1
    requires forall j :: 0 <= j < res.Length1 ==> res[i, j] == 0
    modifies res
    ensures forall k, j :: 0 <= k < res.Length0 && 0 <= j < res.Length1 && k != i ==> res[k, j] == old(res[k, j])
    ensures forall j :: 0 <= j < res.Length1 ==>
              res[i, j] == if Hits(SplitTree(features, points), row, 0, j + |features|) then 1 else 0
  {
    hide Progress, Reaches, Fits, Hits;
    ghost var tree := SplitTree(features, points);
    ghost var found: set<nat> := {};
    var n := |features|;
    var idxs: seq<nat> := [0];
    ProgressStart(tree, row);
    while |idxs| > 0
      invariant Progress(tree, row, idxs, found) && (forall k :: 0 <= k < |idxs| ==> idxs[k] <= 2 * n)
      invariant forall k, j :: 0 <= k < res.Length0 && 0 <= j <= n && k != i ==> res[k, j] == old(res[k, j])
      invariant forall j :: 0 <= j <= n ==> res[i, j] == if j + n in found then 1 else 0
      decreases TotalWeight(n, idxs)
    {
      ghost var queue := idxs;
      QueueShrinks(tree, row, n, queue);
      var idx := idxs[0];
      assert idx in queue;
      idxs := idxs[1..];
      if idx < n {
        FeatureInRange(tree, |row|, idx);
        ProgressSplit(tree, row, queue, found);
        var f, v := features[idx], points[idx];
        if f == -1 {
          idxs := idxs + [idx * 2 + 1];
          idxs := idxs + [idx * 2 + 2];
          assert idxs == queue[1..] + [2 * idx + 1, 2 * idx + 2];
        } else if row[f] < v {
          idxs := idxs + [idx * 2 + 1];
        } else {
          idxs := idxs + [idx * 2 + 2];
        }
        assert idxs == queue[1..] + Children(tree, row, idx);
        QueueBound(queue, n, idxs, Children(tree, row, idx));
      } else {
        ProgressLeaf(tree, row, queue, found);
        assert idxs == queue[1..] + Children(tree, row, idx);
        found := found + {idx};
        res[i, idx - n] := 1;
      }
    }
    ProgressEnd(tree, row, found);
  }

  lemma QueueBound(queue: seq<nat>, n: nat, next: seq<nat>, c: seq<nat>)
    requires |queue| > 0 && queue[0] < n && (forall k :: 0 <= k < |queue| ==> queue[k] <= 2 * n) && next == queue[1..] + c
    requires forall q :: q in c ==> q == 2 * queue[0] + 1 || q == 2 * queue[0] + 2
    ensures forall k :: 0 <= k < |next| ==> next[k] <= 2 * n
  {
    forall k | 0 <= k < |next|
      ensures next[k] <= 2 * n
    {
      if k >= |queue| - 1 { assert next[k] in c; }
    }
  }

  lemma FeatureInRange(tree: Tree, cols: nat, i: nat)
    requires Fits(tree, cols) && i in tree
    ensures -1 <= tree[i].f < cols
  {
  }

  method TreePredict(x: seq<seq<real>>, cols: nat, features: seq<int>, points: seq<real>) returns (res: array2<int>)
    requires |features| == |points| && (forall i :: 0 <= i < |x| ==> |x[i]| == cols)
    requires Fits(SplitTree(features, points), cols)
    ensures fresh(res) && res.Length0 == |x| && res.Length1 == |features| + 1
    ensures forall i, j :: 0 <= i < |x| && 0 <= j <= |features| ==>
              res[i, j] == if Hits(SplitTree(features, points), x[i], 0, j + |features|) then 1 else 0
  {
    hide Hits;
    res := new int[|x|, |features| + 1]((_, _) => 0);
    for i := 0 to |x|
      invariant forall k, j :: i <= k < |x| && 0 <= j <= |features| ==> res[k, j] == 0
      invariant forall k, j :: 0 <= k < i && 0 <= j <= |features| ==>
                  res[k, j] == if Hits(SplitTree(features, points), x[k], 0, j + |features|) then 1 else 0
    {
      PredictRow(x[i], features, points, i, res);
    }
  }

  /** Without -1 every row is one-hot: exactly one column of the result is hit. */
  lemma OneHot(row: seq<real>, features: seq<int>, points: seq<real>) returns (j: nat)
    requires |features| == |points| && Fits(SplitTree(features, points), |row|)
    requires forall i :: 0 <= i < |features| ==> features[i] != -1
    ensures j <= |features|
    ensures forall leaf: nat :: Hits(SplitTree(features, points), row, 0, leaf) <==> leaf == j + |features|
  {
    hide Hits;
    var tree, n := SplitTree(features, points), |features|;
    LeafBound(tree, row, n, 0);
    j := LeafOf(tree, row, n, 0) - n;
    forall leaf: nat
      ensures Hits(tree, row, 0, leaf) <==> leaf == j + n
    {
      OneLeaf(tree, row, n, 0, leaf);
    }
  }

  lemma {:induction false} LeafBound(tree: Tree, row: seq<real>, n: nat, i: nat)
    requires Fits(tree, |row|) && (forall j: int :: j in tree <==> 0 <= j < n) && i <= 2 * n
    requires forall j :: j in tree ==> j < n && tree[j].f != -1
    ensures n <= LeafOf(tree, row, n, i) <= 2 * n
    decreases n - i
  {
    if i in tree { LeafBound(tree, row, n, Children(tree, row, i)[0]); }
  }

  // ------------------------------------------------------------------ indexed nodes

  datatype Result<T> = Ok(value: T) | Err

  /** The last entry of a repeated index wins. */
  method BuildTreeMap(features: seq<int>, points: seq<real>, nodes: seq<int>) returns (tree: Result<Tree>)
    ensures tree.Ok? <==> |nodes| == |features| == |points|
    ensures tree.Ok? ==> forall i: int :: i in tree.value <==> i in nodes
    ensures tree.Ok? ==> forall i :: i in tree.value ==>
              exists k :: LastAt(nodes, i, k) && tree.value[i] == Node(features[k], points[k])
  {
    if !(|nodes| == |features| == |points|) { return Err; }
    var res: Tree := map[];
    for k := 0 to |nodes|
      invariant forall i: int :: i in res <==> i in nodes[..k]
      invariant forall i :: i in res ==> exists l :: LastAt(nodes[..k], i, l) && res[i] == Node(features[l], points[l])
    {
      ghost var was := res;
      res := res[nodes[k] := Node(features[k], points[k])];
      assert nodes[..k + 1] == nodes[..k] + [nodes[k]];
      forall i | i in res
        ensures exists l :: LastAt(nodes[..k + 1], i, l) && res[i] == Node(features[l], points[l])
      {
        if i == nodes[k] {
          assert LastAt(nodes[..k + 1], i, k);
        } else {
          var l :| LastAt(nodes[..k], i, l) && was[i] == Node(features[l], points[l]);
          assert LastAt(nodes[..k + 1], i, l);
        }
      }
    }
    assert nodes[..|nodes|] == nodes;
    tree := Ok(res);
  }

  ghost predicate LastAt(s: seq<int>, i: int, k: int)
  {
    0 <= k < |s| && s[k] == i && forall l :: k < l < |s| ==> s[l] != i
  }

  /** The entry added last wins, and there is only one such entry. */
  lemma LastWins(s: seq<int>, i: int, k: int)
    ensures LastAt(s + [i], i, k) <==> k == |s|
  {
    assert (s + [i])[|s|] == i;
  }

  /** Positions of the leaves; the last of a repeated index wins. */
  method LeafMap(leaves: seq<int>) returns (pos: map<int, int>)
    ensures forall i: int :: i in pos <==> i in leaves
    ensures forall i :: i in pos ==> LastAt(leaves, i, pos[i])
  {
    pos := map[];
    for k := 0 to |leaves|
      invariant forall i: int :: i in pos <==> i in leaves[..k]
      invariant forall i :: i in pos ==> LastAt(leaves[..k], i, pos[i])
    {
      pos := pos[leaves[k] := k];
      assert leaves[..k + 1] == leaves[..k] + [leaves[k]];
    }
    assert leaves[..|leaves|] == leaves;
  }

  /** A bound on node indices, for termination. */
  ghost function Top(tree: Tree): (top: nat)
    ensures forall i :: i in tree ==> i < top
  {
    if forall i :: i in tree ==> i < 0 then 0 else
      var a :| a in tree && a >= 0;
      MaxExists(tree.Keys, a);
      var m :| m in tree && forall i :: i in tree ==> i <= m;
      m + 1
  }

  lemma {:induction false} MaxExists(s: set<int>, a: int)
    requires a in s
    ensures exists m :: m in s && forall i :: i in s ==> i <= m
    decreases s
  {
    if exists i :: i in s && i > a {
      var b :| b in s && b > a;
      MaxExists(s - {a}, b);
      var m :| m in s - {a} && forall i :: i in s - {a} ==> i <= m;
      assert forall i :: i in s ==> i == a || i in s - {a};
      assert b in s - {a};
      assert m in s;
    }
  }

  /** One row, with the tree and leaf positions in maps. It fails exactly when the row hits a leaf that has
      no position. */
  method PredictIndexedRow(row: seq<real>, tree: Tree, pos: map<int, int>, i: nat, res: array2<int>) returns (ok: bool)
    requires Fits(tree, |row|) && i < res.Length0 && forall l :: l in pos ==> 0 <= pos[l] < res.Length1
    requires forall j :: 0 <= j < res.Length1 ==> res[i, j] == 0
    modifies res
    ensures forall k, j :: 0 <= k < res.Length0 && 0 <= j < res.Length1 && k != i ==> res[k, j] == old(res[k, j])
    ensures ok <==> forall leaf: nat :: Hits(tree, row, 0, leaf) ==> leaf in pos
    ensures ok ==> forall j :: 0 <= j < res.Length1 ==> res[i, j] == if Marks(tree, row, pos, j) then 1 else 0
  {
    hide Progress, Reaches, Fits, Hits, Top;
    ghost var found: set<nat> := {};
    var idxs: seq<nat> := [0];
    ProgressStart(tree, row);
    while |idxs| > 0
      invariant Progress(tree, row, idxs, found) && (forall l :: l in found ==> l in pos)
      invariant forall k, j :: 0 <= k < res.Length0 && 0 <= j < res.Length1 && k != i ==> res[k, j] == old(res[k, j])
      invariant forall j :: 0 <= j < res.Length1 ==> res[i, j] == if InFound(found, pos, j) then 1 else 0
      decreases TotalWeight(Top(tree), idxs)
    {
      ghost var queue := idxs;
      QueueShrinks(tree, row, Top(tree), queue);
      var idx := idxs[0];
      idxs := idxs[1..];
      if idx in tree {
        FeatureInRange(tree, |row|, idx);
        ProgressSplit(tree, row, queue, found);
        var f, v := tree[idx].f, tree[idx].v;
        if f == -1 {
          idxs := idxs + [idx * 2 + 1];
          idxs := idxs + [idx * 2 + 2];
          assert idxs == queue[1..] + [2 * idx + 1, 2 * idx + 2];
        } else if row[f] < v {
          idxs := idxs + [idx * 2 + 1];
        } else {
          idxs := idxs + [idx * 2 + 2];
        }
        assert idxs == queue[1..] + Children(tree, row, idx);
      } else {
        ProgressLeaf(tree, row, queue, found);
        assert idxs == queue[1..] + Children(tree, row, idx);
        found := found + {idx};
        if idx !in pos {
          LeafHit(tree, row, idxs, found, idx);
          return false;
        }
        res[i, pos[idx]] := 1;
      }
    }
    ProgressEnd(tree, row, found);
    ok := true;
  }

  lemma LeafHit(tree: Tree, row: seq<real>, queue: seq<nat>, found: set<nat>, leaf: nat)
    requires Fits(tree, |row|) && Progress(tree, row, queue, found) && leaf in found
    ensures Hits(tree, row, 0, leaf)
  {
  }

  /** Column j is marked: some leaf the row hits has position j. */
  ghost predicate Marks(tree: Tree, row: seq<real>, pos: map<int, int>, j: int)
    requires Fits(tree, |row|)
  {
    exists leaf: nat :: leaf in pos && pos[leaf] == j && Hits(tree, row, 0, leaf)
  }

  ghost predicate InFound(found: set<nat>, pos: map<int, int>, j: int)
  {
    exists leaf :: leaf in found && leaf in pos && pos[leaf] == j
  }

  method TreePredictWithIndices(x: seq<seq<real>>, cols: nat, features: seq<int>, points: seq<real>, nodes: seq<int>,
                                leaves: seq<int>) returns (res: Result<array2<int>>, ghost tree: Tree, ghost pos: map<int, int>)
    requires (forall i :: 0 <= i < |x| ==> |x[i]| == cols) && forall k :: 0 <= k < |features| ==> -1 <= features[k] < cols
    ensures !(|features| + 1 == |leaves| && |nodes| == |features| == |points|) ==> res.Err?
    ensures |features| + 1 == |leaves| && |nodes| == |features| == |points| ==>
              (forall i: int :: i in tree <==> i in nodes)
              && (forall i: int :: i in pos <==> i in leaves) && (forall i :: i in pos ==> LastAt(leaves, i, pos[i]))
              && (forall i :: i in tree ==> exists k :: LastAt(nodes, i, k) && tree[i] == Node(features[k], points[k]))
              && Fits(tree, cols)
              && (res.Ok? <==> forall i, leaf: nat :: 0 <= i < |x| && Hits(tree, x[i], 0, leaf) ==> leaf in pos)
    ensures res.Ok? ==> res.value.Length0 == |x| && res.value.Length1 == |leaves| && Fits(tree, cols)
    ensures res.Ok? ==> forall i, j :: 0 <= i < |x| && 0 <= j < |leaves| ==>
                          res.value[i, j] == if Marks(tree, x[i], pos, j) then 1 else 0
  {
    hide Hits, Marks;
    tree, pos := map[], map[];
    if |features| + 1 != |leaves| { return Err, tree, pos; }
    var cells := new int[|x|, |leaves|]((_, _) => 0);
    var built := BuildTreeMap(features, points, nodes);
    if built.Err? { return Err, tree, pos; }
    var splitTree := built.value;
    var leafMap := LeafMap(leaves);
    tree, pos := splitTree, leafMap;
    for i := 0 to |x|
      invariant forall k, leaf: nat :: 0 <= k < i && Hits(splitTree, x[k], 0, leaf) ==> leaf in leafMap
      invariant forall k, j :: i <= k < |x| && 0 <= j < |leaves| ==> cells[k, j] == 0
      invariant forall k, j :: 0 <= k < i && 0 <= j < |leaves| ==>
                  cells[k, j] == if Marks(splitTree, x[k], leafMap, j) then 1 else 0
    {
      var ok := PredictIndexedRow(x[i], splitTree, leafMap, i, cells);
      if !ok { return Err, tree, pos; }
    }
    res := Ok(cells);
  }

  /** When nodes and leaves are closed under children no lookup can fail, whatever the row. */
  lemma ClosedNeverMisses(tree: Tree, pos: map<int, int>, row: seq<real>, leaf: nat)
    requires Fits(tree, |row|) && Closed(tree, pos.Keys) && Hits(tree, row, 0, leaf)
    ensures leaf in pos
  {
    ClosedHits(tree, row, pos.Keys, leaf);
  }
}
