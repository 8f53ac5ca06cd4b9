/** Merkle trees kept as flat arrays: the function tree's sibling path and the calldata root. */
module FlatTree {
  import opened Bytes
  import opened MerkleRoot
  import opened MerkleTree

  datatype Maybe = Defined(value: Buffer) | Undefined

  /** Reading an array outside its bounds gives undefined. */
  function Element(a: seq<Buffer>, i: int): Maybe {
    if 0 <= i < |a| then Defined(a[i]) else Undefined
  }

  /** The first n elements as a leaf map. */
  function FirstLeaves(a: seq<Buffer>, n: nat): LeafMap {
    map i: nat | i < |a| && i < n :: a[i]
  }

  function LeavesOf(leaves: seq<Buffer>): LeafMap {
    FirstLeaves(leaves, |leaves|)
  }

  /** Where row t of a tree of the given height begins: rows 0 .. t-1 have 2^height .. 2^(height-t+1) elements. */
  function Offset(height: nat, t: nat): nat
    requires t <= height
  {
    if t == 0 then 0 else Offset(height, t - 1) + Pow2(height - (t - 1))
  }

  /** The tree lists its 2^height leaves, then row after row of hashes of neighbours, up to the root. */
  ghost predicate Layered(h: Hasher, tree: seq<Buffer>, height: nat) {
    && |tree| == Offset(height, height) + 1
    && forall t: nat, i: nat :: t < height && i < Pow2(height - t - 1) ==>
         Row(tree, height, t + 1, i) == h.compress(Row(tree, height, t, 2 * i), Row(tree, height, t, 2 * i + 1))
  }

  /** Element i of row t. */
  ghost function Row(tree: seq<Buffer>, height: nat, t: nat, i: nat): Buffer {
    if t <= height && Offset(height, t) + i < |tree| then tree[Offset(height, t) + i] else []
  }

  lemma {:induction false} RowsFit(height: nat, t: nat)
    requires t <= height
    ensures Offset(height, t) + Pow2(height - t) <= Offset(height, height) + 1
    ensures Offset(height, height) + 1 == 2 * Pow2(height) - 1
    decreases height - t
  {
    OffsetValue(height, height);
    OffsetValue(height, t);
  }

  lemma {:induction false} OffsetValue(height: nat, t: nat)
    requires t <= height
    ensures Offset(height, t) + 2 * Pow2(height - t) == 2 * Pow2(height)
  {
    if t > 0 { OffsetValue(height, t - 1); }
  }

  lemma RowInBounds(tree: seq<Buffer>, height: nat, t: nat, i: nat)
    requires |tree| == Offset(height, height) + 1 && t <= height && i < Pow2(height - t)
    ensures Offset(height, t) + i < |tree| && Row(tree, height, t, i) == tree[Offset(height, t) + i]
  {
    RowsFit(height, t);
  }

  /** Row t of a layered tree holds the roots of the subtrees of height t. */
  lemma {:induction false} RowIsSubRoot(h: Hasher, tree: seq<Buffer>, height: nat, t: nat, i: nat)
    requires Layered(h, tree, height) && t <= height && i < Pow2(height - t)
    ensures Offset(height, t) + i < |tree|
    ensures Row(tree, height, t, i) == tree[Offset(height, t) + i] == SubRoot(h, FirstLeaves(tree, Pow2(height)), t, i)
    decreases t
  {
    RowInBounds(tree, height, t, i);
    if t > 0 {
      hide Offset; hide Row; hide FirstLeaves;
      RowIsSubRoot(h, tree, height, t - 1, 2 * i);
      RowIsSubRoot(h, tree, height, t - 1, 2 * i + 1);
      assert Row(tree, height, (t - 1) + 1, i) == h.compress(Row(tree, height, t - 1, 2 * i), Row(tree, height, t - 1, 2 * i + 1));
    }
  }

  /** A leaf's sibling path is determined by the leaves of the tree. */
  lemma PathUnique(h: Hasher, m: LeafMap, m': LeafMap, height: nat, j: nat, a: seq<Buffer>, b: seq<Buffer>)
    requires j < Pow2(height) && |a| == |b| == height && IsPath(h, m, 0, j, a) && IsPath(h, m', 0, j, b)
    requires forall i: nat :: i < Pow2(height) ==> LeafAt(m, i) == LeafAt(m', i)
    ensures a == b
  {
    hide SubRoot; hide Shift;
    forall t | 0 <= t < height
      ensures a[t] == b[t]
    {
      ShiftInRow(j, height, t);
      SiblingInRow(height - t, Shift(j, t));
      RowFrame(h, m, m', height, t, Sibling(Shift(j, t)));
      assert a[t] == SubRoot(h, m, 0 + t, Sibling(Shift(j, t))) && b[t] == SubRoot(h, m', 0 + t, Sibling(Shift(j, t)));
    }
  }

  lemma RowFrame(h: Hasher, m: LeafMap, m': LeafMap, height: nat, t: nat, j: nat)
    requires t <= height && j < Pow2(height - t)
    requires forall i: nat :: i < Pow2(height) ==> LeafAt(m, i) == LeafAt(m', i)
    ensures SubRoot(h, m, t, j) == SubRoot(h, m', t, j)
  {
    forall i: nat | Shift(i, t) == j
      ensures LeafAt(m, i) == LeafAt(m', i)
    {
      ShiftToTop(j, height - t);
      ShiftAdd(i, t, height - t);
      ShiftToTop(i, height);
    }
    SubRootFrame(h, m, m', t, j);
  }

  ghost predicate AllDefined(path: seq<Maybe>) {
    forall t :: 0 <= t < |path| ==> path[t].Defined?
  }

  ghost function Values(path: seq<Maybe>): (s: seq<Buffer>)
    requires AllDefined(path)
    ensures |s| == |path| && forall t :: 0 <= t < |path| ==> s[t] == path[t].value
  {
    seq(|path|, t requires 0 <= t < |path| => path[t].value)
  }

  /** Climbs the rows of the flat tree.  For a layered tree the path is the one that the Merkle tree over the same
      leaves gives, and it folds the indexed leaf to the last element. */
  method ComputeFunctionTreeData(functionTree: seq<Buffer>, functionIndex: nat, ghost h: Hasher, ghost height: nat)
    returns (root: Maybe, siblingPath: seq<Maybe>)
    ensures Layered(h, functionTree, height) && functionIndex < Pow2(height) ==>
      && |siblingPath| == height && AllDefined(siblingPath)
      && IsPath(h, FirstLeaves(functionTree, Pow2(height)), 0, functionIndex, Values(siblingPath))
      && root.Defined? && root.value == SubRoot(h, FirstLeaves(functionTree, Pow2(height)), height, 0)
      && functionIndex < |functionTree|
      && Fold(h, functionIndex, functionTree[functionIndex], Values(siblingPath)) == root.value
  {
    ghost var good := Layered(h, functionTree, height) && functionIndex < Pow2(height);
    ghost var m := FirstLeaves(functionTree, Pow2(height));
    hide Layered; hide SubRoot; hide Shift; hide FirstLeaves; hide Offset; hide Pow2; hide Fold;
    if good { GoodStart(h, functionTree, functionIndex, height); }
    var rowSize := (|functionTree| + 1) / 2;
    var rowOffset := 0;
    var index := functionIndex;
    siblingPath := [];
    while rowSize > 1
      invariant good ==> |siblingPath| <= height && Climbed(h, functionTree, functionIndex, height, m, siblingPath)
      invariant good ==> rowSize == Pow2(height - |siblingPath|) && rowOffset == Offset(height, |siblingPath|)
      invariant good ==> index == Shift(functionIndex, |siblingPath|)
    {
      var isRight := index % 2 == 1;
      if good {
        ClimbStep(h, functionTree, functionIndex, height, m, siblingPath);
      }
      siblingPath := siblingPath + [Element(functionTree, rowOffset + index + if isRight then -1 else 1)];
      rowOffset := rowOffset + rowSize;
      rowSize := rowSize / 2;
      index := index / 2;
    }
    root := Element(functionTree, |functionTree| - 1);
    if good { ClimbEnd(h, functionTree, functionIndex, height, m, siblingPath); }
  }

  /** A layered flat tree and a Merkle tree whose leaves read the same give the same root and the same paths. */
  method FlatPathIsTreePath(tree: TreeBase, functionTree: seq<Buffer>, functionIndex: nat, includeUncommitted: bool)
    returns (root: Maybe, flatPath: seq<Maybe>, treePath: seq<Buffer>)
    requires tree.Valid() && Layered(tree.hasher, functionTree, tree.depth) && functionIndex < Pow2(tree.depth)
    requires forall i: nat :: i < Pow2(tree.depth) && i < |functionTree| ==> functionTree[i] == LeafAt(tree.Leaves(includeUncommitted), i)
    ensures AllDefined(flatPath) && Values(flatPath) == treePath
    ensures root == Defined(tree.GetRoot(includeUncommitted))
  {
    ghost var h, m := tree.hasher, FirstLeaves(functionTree, Pow2(tree.depth));
    RowsFit(tree.depth, 0);
    assert forall i: nat :: i < Pow2(tree.depth) ==> LeafAt(m, i) == LeafAt(tree.Leaves(includeUncommitted), i);
    assert tree.GetRoot(includeUncommitted) == SubRoot(h, tree.Leaves(includeUncommitted), tree.depth, 0);
    hide Layered; hide SubRoot; hide IsPath; hide FirstLeaves; hide TreeBase.Valid; hide Fold;
    root, flatPath := ComputeFunctionTreeData(functionTree, functionIndex, h, tree.depth);
    treePath := tree.GetSiblingPath(functionIndex, includeUncommitted);
    PathUnique(h, m, tree.Leaves(includeUncommitted), tree.depth, functionIndex, Values(flatPath), treePath);
    RootOfEqualLeaves(h, m, tree.Leaves(includeUncommitted), tree.depth);
  }

  /** The siblings collected so far are defined and right. */
  ghost predicate Climbed(h: Hasher, tree: seq<Buffer>, index: nat, height: nat, m: LeafMap, path: seq<Maybe>) {
    && Layered(h, tree, height) && index < Pow2(height) && Pow2(height) <= |tree| && m == FirstLeaves(tree, Pow2(height))
    && forall t: nat :: t < |path| ==> path[t] == Defined(SubRoot(h, m, t, Sibling(Shift(index, t))))
  }

  lemma GoodStart(h: Hasher, tree: seq<Buffer>, index: nat, height: nat)
    requires Layered(h, tree, height) && index < Pow2(height)
    ensures Pow2(height) <= |tree| && Climbed(h, tree, index, height, FirstLeaves(tree, Pow2(height)), [])
    ensures (|tree| + 1) / 2 == Pow2(height) && Offset(height, 0) == 0 && Shift(index, 0) == index
  {
    RowsFit(height, 0);
  }

  lemma ClimbStep(h: Hasher, tree: seq<Buffer>, index: nat, height: nat, m: LeafMap, path: seq<Maybe>)
    requires |path| <= height && Climbed(h, tree, index, height, m, path) && Pow2(height - |path|) > 1
    ensures var t := |path|;
      && t < height && Pow2(height - t) / 2 == Pow2(height - (t + 1))
      && Offset(height, t) + Pow2(height - t) == Offset(height, t + 1)
      && Shift(index, t) / 2 == Shift(index, t + 1)
      && Climbed(h, tree, index, height, m, path + [Element(tree, Offset(height, t) + Sibling(Shift(index, t)))])
  {
    var t := |path|;
    ShiftInRow(index, height, t);
    SiblingInRow(height - t, Shift(index, t));
    RowIsSubRoot(h, tree, height, t, Sibling(Shift(index, t)));
    hide Layered; hide SubRoot; hide FirstLeaves;
  }

  lemma ClimbEnd(h: Hasher, tree: seq<Buffer>, index: nat, height: nat, m: LeafMap, path: seq<Maybe>)
    requires |path| <= height && Climbed(h, tree, index, height, m, path) && Pow2(height - |path|) <= 1
    ensures |path| == height && AllDefined(path) && IsPath(h, m, 0, index, Values(path))
    ensures tree != [] && tree[|tree| - 1] == SubRoot(h, m, height, 0)
    ensures index < |tree| && Fold(h, index, tree[index], Values(path)) == tree[|tree| - 1]
  {
    hide Layered; hide FirstLeaves; hide Fold; hide SubRoot; hide IsPath; hide Offset; hide Pow2; hide Shift;
    Rows(height, |path|);
    ClimbedPath(h, tree, index, height, m, path);
    RowIsSubRoot(h, tree, height, height, 0);
    RowIsSubRoot(h, tree, height, 0, index);
    LayeredLength(h, tree, height);
    FoldPath(h, m, 0, index, Values(path));
    ShiftToTop(index, height);
  }

  lemma Rows(height: nat, t: nat)
    requires t <= height
    ensures Pow2(0) == 1 && Offset(height, 0) == 0 && (Pow2(height - t) <= 1 ==> t == height)
  {
  }

  lemma ClimbedPath(h: Hasher, tree: seq<Buffer>, index: nat, height: nat, m: LeafMap, path: seq<Maybe>)
    requires Climbed(h, tree, index, height, m, path)
    ensures AllDefined(path) && IsPath(h, m, 0, index, Values(path))
  {
    hide Layered; hide SubRoot; hide Shift;
  }

  lemma LayeredLength(h: Hasher, tree: seq<Buffer>, height: nat)
    requires Layered(h, tree, height)
    ensures |tree| == Offset(height, height) + 1
  {
  }

  datatype Root = Root(value: Buffer) | NoRoot | Throws

  ghost predicate IsPow2(n: nat) {
    exists k: nat :: n == Pow2(k)
  }

  /** Hashes layer upon layer.  A layer of odd length has an undefined last right child, which throws: so a root comes
      out exactly for a power of two of leaves, and it is the root of the Merkle tree over them. */
  method ComputeRoot(h: Hasher, leafs: seq<Buffer>) returns (r: Root)
    ensures r.Root? <==> IsPow2(|leafs|)
    ensures r.NoRoot? <==> leafs == []
    ensures forall k: nat :: |leafs| == Pow2(k) ==> r == Root(SubRoot(h, LeavesOf(leafs), k, 0))
  {
    hide SubRoot; hide FirstLeaves; hide Pow2;
    var layers := [leafs];
    var activeLayer := 0;
    FirstLayer(h, leafs);
    while |layers[activeLayer]| > 1
      invariant |layers| == activeLayer + 1 && IsLayer(h, leafs, activeLayer, layers[activeLayer])
      decreases |layers[activeLayer]|
    {
      var layer: seq<Buffer> := [];
      var layerLength := |layers[activeLayer]|;
      var i := 0;
      while i < layerLength
        invariant 0 <= i <= layerLength && i % 2 == 0 && |layer| == i / 2
        invariant forall j: nat :: j < |layer| ==> layer[j] == h.compress(layers[activeLayer][2 * j], layers[activeLayer][2 * j + 1])
      {
        if i + 1 == layerLength {
          OddLayer(leafs, activeLayer, layerLength);
          return Throws;
        }
        layer := layer + [h.compress(layers[activeLayer][i], layers[activeLayer][i + 1])];
        i := i + 2;
      }
      NextLayer(h, leafs, activeLayer, layers[activeLayer], layer);
      layers := layers + [layer];
      activeLayer := activeLayer + 1;
    }
    if |layers[activeLayer]| == 0 {
      NoLeaves(leafs, activeLayer);
      return NoRoot;
    }
    LastLayer(h, leafs, activeLayer, layers[activeLayer]);
    r := Root(layers[activeLayer][0]);
  }

  /** Layer k holds the roots of the subtrees of height k. */
  ghost predicate IsLayer(h: Hasher, leafs: seq<Buffer>, k: nat, layer: seq<Buffer>) {
    && |leafs| == |layer| * Pow2(k)
    && forall i: nat :: i < |layer| ==> layer[i] == SubRoot(h, LeavesOf(leafs), k, i)
  }

  lemma FirstLayer(h: Hasher, leafs: seq<Buffer>)
    ensures IsLayer(h, leafs, 0, leafs)
  {
  }

  lemma NextLayer(h: Hasher, leafs: seq<Buffer>, k: nat, layer: seq<Buffer>, next: seq<Buffer>)
    requires IsLayer(h, leafs, k, layer) && |layer| == 2 * |next|
    requires forall j: nat :: j < |next| ==> next[j] == h.compress(layer[2 * j], layer[2 * j + 1])
    ensures IsLayer(h, leafs, k + 1, next)
  {
    BlockHalves(|next|, Pow2(k));
    forall j: nat | j < |next|
      ensures next[j] == SubRoot(h, LeavesOf(leafs), k + 1, j)
    {
      assert layer[2 * j] == SubRoot(h, LeavesOf(leafs), k, 2 * j);
      assert layer[2 * j + 1] == SubRoot(h, LeavesOf(leafs), k, 2 * j + 1);
    }
  }

  lemma {:induction false} OddNotPow2(m: nat, k: nat, j: nat)
    requires m % 2 == 1 && m > 1
    ensures m * Pow2(k) != Pow2(j)
  {
    if k > 0 && j > 0 {
      OddNotPow2(m, k - 1, j - 1);
      DoubleProduct(m, Pow2(k - 1));
    } else if j == 0 {
      ProductGrows(m, Pow2(k));
    }
  }

  lemma DoubleProduct(m: nat, p: nat)
    ensures m * (2 * p) == 2 * (m * p)
  {
  }

  lemma ProductGrows(m: nat, p: nat)
    requires p >= 1
    ensures m * p >= m
  {
  }

  lemma OddLayer(leafs: seq<Buffer>, k: nat, m: nat)
    requires |leafs| == m * Pow2(k) && m % 2 == 1 && m > 1
    ensures !IsPow2(|leafs|) && leafs != []
  {
    forall j: nat
      ensures |leafs| != Pow2(j)
    {
      OddNotPow2(m, k, j);
    }
    ProductGrows(m, Pow2(k));
  }

  lemma NoLeaves(leafs: seq<Buffer>, k: nat)
    requires |leafs| == 0 * Pow2(k)
    ensures leafs == [] && !IsPow2(|leafs|)
  {
  }

  lemma LastLayer(h: Hasher, leafs: seq<Buffer>, k: nat, layer: seq<Buffer>)
    requires IsLayer(h, leafs, k, layer) && |layer| == 1
    ensures |leafs| == Pow2(k) && IsPow2(|leafs|) && leafs != []
    ensures forall j: nat :: |leafs| == Pow2(j) ==> layer[0] == SubRoot(h, LeavesOf(leafs), j, 0)
  {
    forall j: nat | |leafs| == Pow2(j)
      ensures j == k
    {
      Pow2Injective(j, k);
    }
  }

  lemma {:induction false} Pow2Injective(j: nat, k: nat)
    ensures Pow2(j) == Pow2(k) <==> j == k
  {
    if j > 0 && k > 0 { Pow2Injective(j - 1, k - 1); }
  }
}
