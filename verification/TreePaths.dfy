/** Decision trees stored by heap index: paths a row can take, and the leaves it reaches. */
module TreePaths {
  /** A split node: feature, or -1 for "follow both children", and threshold. */
  datatype Node = Node(f: int, v: real)

  type Tree = map<int, Node>

  /** Every feature index is a column of the row. */
  predicate Fits(tree: Tree, cols: nat)
  {
    forall i :: i in tree ==> -1 <= tree[i].f < cols
  }

  /** Where a row goes from a node; a node that is not a split node is a leaf. */
  function Children(tree: Tree, row: seq<real>, i: nat): (c: seq<nat>)
    requires Fits(tree, |row|)
    ensures forall j :: j in c ==> j > i && (j == 2 * i + 1 || j == 2 * i + 2)
  {
    if i !in tree then []
    else if tree[i].f == -1 then [2 * i + 1, 2 * i + 2]
    else if row[tree[i].f] < tree[i].v then [2 * i + 1]
    else [2 * i + 2]
  }

  ghost predicate IsPath(tree: Tree, row: seq<real>, p: seq<nat>)
    requires Fits(tree, |row|)
  {
    |p| > 0 && forall k :: 0 <= k < |p| - 1 ==> p[k + 1] in Children(tree, row, p[k])
  }

  /** Some path leads from a to b. */
  ghost predicate Reaches(tree: Tree, row: seq<real>, a: nat, b: nat)
    requires Fits(tree, |row|)
  {
    exists p: seq<nat> :: IsPath(tree, row, p) && p[0] == a && p[|p| - 1] == b
  }

  /** A leaf the row ends in. */
  ghost predicate Hits(tree: Tree, row: seq<real>, a: nat, leaf: nat)
    requires Fits(tree, |row|)
  {
    leaf !in tree && Reaches(tree, row, a, leaf)
  }

  lemma ReachSelf(tree: Tree, row: seq<real>, a: nat)
    requires Fits(tree, |row|)
    ensures Reaches(tree, row, a, a)
  {
    var p: seq<nat> := [a];
    assert IsPath(tree, row, p) && p[0] == a;
  }

  lemma ReachDown(tree: Tree, row: seq<real>, a: nat, b: nat, c: nat)
    requires Fits(tree, |row|) && Reaches(tree, row, a, b) && c in Children(tree, row, b)
    ensures Reaches(tree, row, a, c)
  {
    hide Children;
    var p: seq<nat> :| IsPath(tree, row, p) && p[0] == a && p[|p| - 1] == b;
    var q := p + [c];
    assert IsPath(tree, row, q);
    assert q[0] == a && q[|q| - 1] == c;
  }

  lemma ReachUp(tree: Tree, row: seq<real>, a: nat, b: nat, c: nat)
    requires Fits(tree, |row|) && b in Children(tree, row, a) && Reaches(tree, row, b, c)
    ensures Reaches(tree, row, a, c)
  {
    hide Children;
    var p: seq<nat> :| IsPath(tree, row, p) && p[0] == b && p[|p| - 1] == c;
    var q := [a] + p;
    forall k | 0 <= k < |q| - 1
      ensures q[k + 1] in Children(tree, row, q[k])
    {
      if k > 0 { assert q[k] == p[k - 1] && q[k + 1] == p[k]; }
    }
    assert IsPath(tree, row, q);
    assert q[0] == a && q[|q| - 1] == c;
  }

  /** A path is empty or starts with a child. */
  lemma ReachFirst(tree: Tree, row: seq<real>, a: nat, b: nat)
    requires Fits(tree, |row|) && Reaches(tree, row, a, b)
    ensures a == b || exists c :: c in Children(tree, row, a) && Reaches(tree, row, c, b)
  {
    hide Children;
    var p: seq<nat> :| IsPath(tree, row, p) && p[0] == a && p[|p| - 1] == b;
    if |p| > 1 {
      var q := p[1..];
      forall k | 0 <= k < |q| - 1
        ensures q[k + 1] in Children(tree, row, q[k])
      {
        assert q[k] == p[k + 1] && q[k + 1] == p[k + 2];
      }
      assert p[0 + 1] in Children(tree, row, p[0]);
      assert IsPath(tree, row, q) && q[0] == p[1] && q[|q| - 1] == b;
    }
  }

  /** Size of the full binary tree below i, down to index top: the queue loop's measure. */
  function Weight(top: nat, i: nat): (w: nat)
    ensures w > 0
    decreases top - i
  {
    if i >= top then 1 else 1 + Weight(top, 2 * i + 1) + Weight(top, 2 * i + 2)
  }

  function TotalWeight(top: nat, queue: seq<nat>): nat
  {
    if queue == [] then 0 else Weight(top, queue[0]) + TotalWeight(top, queue[1..])
  }

  lemma {:induction false} WeightAppend(top: nat, a: seq<nat>, b: seq<nat>)
    ensures TotalWeight(top, a + b) == TotalWeight(top, a) + TotalWeight(top, b)
  {
    if a == [] {
      assert a + b == b;
    } else {
      WeightAppend(top, a[1..], b);
      assert (a + b)[1..] == a[1..] + b;
    }
  }

  /** Replacing the head by its children makes the queue lighter. */
  lemma QueueShrinks(tree: Tree, row: seq<real>, top: nat, queue: seq<nat>)
    requires Fits(tree, |row|) && |queue| > 0 && forall i :: i in tree ==> i < top
    ensures TotalWeight(top, queue[1..] + Children(tree, row, queue[0])) < TotalWeight(top, queue)
  {
    var i, c := queue[0], Children(tree, row, queue[0]);
    WeightAppend(top, queue[1..], c);
    if |c| > 0 { assert TotalWeight(top, c[1..]) <= Weight(top, 2 * i + 2); }
  }

  /** The queue accounts for everything not yet recorded: from the head to its children nothing is lost. */
  lemma QueueKeeps(tree: Tree, row: seq<real>, queue: seq<nat>, leaf: nat)
    requires Fits(tree, |row|) && |queue| > 0 && leaf !in tree
    requires exists q :: q in queue && Reaches(tree, row, q, leaf)
    ensures queue[0] == leaf
            || exists q :: q in queue[1..] + Children(tree, row, queue[0]) && Reaches(tree, row, q, leaf)
  {
    hide Children, Reaches;
    var q :| q in queue && Reaches(tree, row, q, leaf);
    var next := queue[1..] + Children(tree, row, queue[0]);
    if q == queue[0] {
      ReachFirst(tree, row, q, leaf);
      if q != leaf {
        var c :| c in Children(tree, row, q) && Reaches(tree, row, c, leaf);
        assert c in next;
      }
    } else {
      assert q in queue[1..];
      assert q in next;
    }
  }

  // ------------------------------------------------------------------ trees without -1

  /** The only leaf below i when no node follows both children. */
  function LeafOf(tree: Tree, row: seq<real>, top: nat, i: nat): (leaf: nat)
    requires Fits(tree, |row|) && (forall j :: j in tree ==> j < top && tree[j].f != -1)
    ensures leaf !in tree && leaf >= i
    decreases top - i
  {
    if i !in tree then i else LeafOf(tree, row, top, Children(tree, row, i)[0])
  }

  /** Exactly one leaf is hit. */
  lemma {:induction false} OneLeaf(tree: Tree, row: seq<real>, top: nat, i: nat, leaf: nat)
    requires Fits(tree, |row|) && (forall j :: j in tree ==> j < top && tree[j].f != -1)
    ensures Hits(tree, row, i, leaf) <==> leaf == LeafOf(tree, row, top, i)
    decreases top - i
  {
    hide Reaches;
    if i !in tree {
      ReachSelf(tree, row, i);
      if Reaches(tree, row, i, leaf) { ReachFirst(tree, row, i, leaf); }
    } else {
      var c := Children(tree, row, i)[0];
      OneLeaf(tree, row, top, c, leaf);
      if Hits(tree, row, i, leaf) { ReachFirst(tree, row, i, leaf); }
      if Hits(tree, row, c, leaf) { ReachUp(tree, row, i, c, leaf); }
    }
  }

  /** A node following both children reaches exactly what either child reaches. */
  lemma BothChildren(tree: Tree, row: seq<real>, i: nat, leaf: nat)
    requires Fits(tree, |row|) && i in tree && tree[i].f == -1
    ensures Hits(tree, row, i, leaf) <==> Hits(tree, row, 2 * i + 1, leaf) || Hits(tree, row, 2 * i + 2, leaf)
  {
    hide Reaches;
    if Hits(tree, row, i, leaf) { ReachFirst(tree, row, i, leaf); }
    if Hits(tree, row, 2 * i + 1, leaf) { ReachUp(tree, row, i, 2 * i + 1, leaf); }
    if Hits(tree, row, 2 * i + 2, leaf) { ReachUp(tree, row, i, 2 * i + 2, leaf); }
  }

  /** Any other node hands the row on to the left child when its feature is below the threshold, to the right child
      otherwise. */
  lemma OneChild(tree: Tree, row: seq<real>, i: nat, leaf: nat)
    requires Fits(tree, |row|) && i in tree && tree[i].f != -1
    ensures Hits(tree, row, i, leaf) <==>
            Hits(tree, row, if row[tree[i].f] < tree[i].v then 2 * i + 1 else 2 * i + 2, leaf)
  {
    hide Reaches;
    var c := if row[tree[i].f] < tree[i].v then 2 * i + 1 else 2 * i + 2;
    if Hits(tree, row, i, leaf) { ReachFirst(tree, row, i, leaf); }
    if Hits(tree, row, c, leaf) { ReachUp(tree, row, i, c, leaf); }
  }

  /** A leaf reaches itself only. */
  lemma LeafHitsItself(tree: Tree, row: seq<real>, i: nat, leaf: nat)
    requires Fits(tree, |row|) && i !in tree
    ensures Hits(tree, row, i, leaf) <==> leaf == i
  {
    hide Reaches;
    ReachSelf(tree, row, i);
    if Hits(tree, row, i, leaf) { ReachFirst(tree, row, i, leaf); }
  }

  /** Closed under children: from any node of the tree one always lands on another node or on a leaf of
      the given set. */
  predicate Closed(tree: Tree, leaves: set<int>)
  {
    && (0 in tree || 0 in leaves)
    && forall i: nat :: i in tree ==>
         (2 * i + 1 in tree || 2 * i + 1 in leaves) && (2 * i + 2 in tree || 2 * i + 2 in leaves)
  }

  /** In a closed tree every leaf that is hit is in the set. */
  lemma ClosedHits(tree: Tree, row: seq<real>, leaves: set<int>, leaf: nat)
    requires Fits(tree, |row|) && Closed(tree, leaves) && Hits(tree, row, 0, leaf)
    ensures leaf in leaves
  {
    var p: seq<nat> :| IsPath(tree, row, p) && p[0] == 0 && p[|p| - 1] == leaf;
    if |p| > 1 {
      assert p[(|p| - 2) + 1] in Children(tree, row, p[|p| - 2]);
    }
  }
}
