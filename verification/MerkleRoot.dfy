/** The pure meaning of the Merkle trees: the root of a zero-padded leaf map, and what a sibling path
    proves about it.  The hasher is an arbitrary pair of functions, so nothing here rests on
    collision resistance. */
module MerkleRoot {

  import opened Bytes

  /** The part of the `Hasher` interface that the trees call. */
  datatype Hasher = Hasher(compress: (Buffer, Buffer) -> Buffer, compressInputs: seq<Buffer> -> Buffer)

  /** Thirty-two zero bytes. */
  const INITIAL_LEAF: Buffer := Zeros(32)

  type LeafMap = map<nat, Buffer>

  function LeafAt(m: LeafMap, i: nat): Buffer {
    if i in m then m[i] else INITIAL_LEAF
  }

  ghost predicate Written(m: LeafMap, m': LeafMap, i: nat, leaf: Buffer) {
    forall j: nat :: LeafAt(m', j) == if j == i then leaf else LeafAt(m, j)
  }

  lemma LeafAfterWrite(m: LeafMap, i: nat, leaf: Buffer)
    ensures Written(m, m[i := leaf], i, leaf)
  {
  }

  function Pow2(n: nat): (r: nat)
    ensures r >= 1
  {
    if n == 0 then 1 else 2 * Pow2(n - 1)
  }

  /** `i >> k`: the position, k levels up, of the ancestor of node i. */
  function Shift(i: nat, k: nat): nat {
    if k == 0 then i else Shift(i, k - 1) / 2
  }

  function Sibling(i: nat): nat {
    if i % 2 == 1 then i - 1 else i + 1
  }

  /** Root of the subtree of height k at position j over the zero-padded leaf map. */
  function SubRoot(h: Hasher, m: LeafMap, k: nat, j: nat): Buffer {
    if k == 0 then LeafAt(m, j)
    else h.compress(SubRoot(h, m, k - 1, 2 * j), SubRoot(h, m, k - 1, 2 * j + 1))
  }

  /** Root of an all-zero subtree of height k. */
  function ZeroHash(h: Hasher, k: nat): Buffer {
    if k == 0 then INITIAL_LEAF else h.compress(ZeroHash(h, k - 1), ZeroHash(h, k - 1))
  }

  /** What a verifier computes from a node at position j and a sibling path. */
  function Fold(h: Hasher, j: nat, node: Buffer, path: seq<Buffer>): Buffer
    decreases |path|
  {
    if path == [] then node
    else Fold(h, j / 2, if j % 2 == 1 then h.compress(path[0], node) else h.compress(node, path[0]), path[1..])
  }

  /** `path` lists, upwards from height k, the siblings met on the way up from node j. */
  ghost predicate IsPath(h: Hasher, m: LeafMap, k: nat, j: nat, path: seq<Buffer>) {
    forall t :: 0 <= t < |path| ==> path[t] == SubRoot(h, m, k + t, Sibling(Shift(j, t)))
  }

  lemma {:induction false} ShiftHalf(i: nat, k: nat)
    ensures Shift(i / 2, k) == Shift(i, k + 1)
  {
    if k > 0 { ShiftHalf(i, k - 1); }
  }

  /** An index below 2^k has node 0 as its ancestor k levels up, and conversely. */
  lemma {:induction false} ShiftToTop(i: nat, k: nat)
    ensures Shift(i, k) == 0 <==> i < Pow2(k)
  {
    if k > 0 {
      ShiftToTop(i / 2, k - 1);
      ShiftHalf(i, k - 1);
    }
  }

  /** Node j at height k covers exactly the leaves j*2^k .. (j+1)*2^k - 1. */
  lemma {:induction false} Block(i: nat, k: nat, j: nat)
    ensures Shift(i, k) == j <==> j * Pow2(k) <= i < j * Pow2(k) + Pow2(k)
  {
    if k > 0 {
      Block(i, k - 1, 2 * j);
      Block(i, k - 1, 2 * j + 1);
      BlockHalves(j, Pow2(k - 1));
    }
  }

  lemma BlockHalves(j: nat, p: nat)
    ensures j * (2 * p) == 2 * j * p
    ensures (2 * j + 1) * p == 2 * j * p + p
  {
    assert j * (2 * p) == 2 * (j * p);
  }

  /** The root of a subtree depends only on the leaves below it. */
  lemma {:induction false} SubRootFrame(h: Hasher, m: LeafMap, m': LeafMap, k: nat, j: nat)
    requires forall i: nat :: Shift(i, k) == j ==> LeafAt(m, i) == LeafAt(m', i)
    ensures SubRoot(h, m, k, j) == SubRoot(h, m', k, j)
  {
    if k == 0 {
      assert Shift(j, 0) == j;
    } else {
      forall i: nat | Shift(i, k - 1) == 2 * j || Shift(i, k - 1) == 2 * j + 1
        ensures LeafAt(m, i) == LeafAt(m', i)
      {
        assert Shift(i, k) == j;
      }
      SubRootFrame(h, m, m', k - 1, 2 * j);
      SubRootFrame(h, m, m', k - 1, 2 * j + 1);
    }
  }

  /** Writing one leaf leaves every subtree that does not contain it unchanged. */
  lemma SubRootElsewhere(h: Hasher, m: LeafMap, i: nat, leaf: Buffer, k: nat, j: nat)
    requires Shift(i, k) != j
    ensures SubRoot(h, m[i := leaf], k, j) == SubRoot(h, m, k, j)
  {
    SubRootFrame(h, m[i := leaf], m, k, j);
  }

  /** The root is a function of the zero-padded leaves: how they came to be written is irrelevant. */
  lemma RootOfEqualLeaves(h: Hasher, m: LeafMap, m': LeafMap, depth: nat)
    requires forall i: nat :: i < Pow2(depth) ==> LeafAt(m, i) == LeafAt(m', i)
    ensures SubRoot(h, m, depth, 0) == SubRoot(h, m', depth, 0)
  {
    forall i: nat | Shift(i, depth) == 0
      ensures LeafAt(m, i) == LeafAt(m', i)
    {
      ShiftToTop(i, depth);
    }
    SubRootFrame(h, m, m', depth, 0);
  }

  /** A subtree with nothing written below it has the precomputed zero hash. */
  lemma {:induction false} SubRootOfZeros(h: Hasher, m: LeafMap, k: nat, j: nat)
    requires forall i: nat :: Shift(i, k) == j ==> LeafAt(m, i) == INITIAL_LEAF
    ensures SubRoot(h, m, k, j) == ZeroHash(h, k)
  {
    SubRootFrame(h, m, map[], k, j);
    EmptySubRoot(h, k, j);
  }

  lemma {:induction false} EmptySubRoot(h: Hasher, k: nat, j: nat)
    ensures SubRoot(h, map[], k, j) == ZeroHash(h, k)
  {
    if k > 0 {
      EmptySubRoot(h, k - 1, 2 * j);
      EmptySubRoot(h, k - 1, 2 * j + 1);
    }
  }

  /** One hashing step of the upward walk: a node and its sibling make the parent. */
  lemma ParentOf(h: Hasher, m: LeafMap, k: nat, j: nat)
    ensures SubRoot(h, m, k + 1, j / 2) ==
            var node, sibling := SubRoot(h, m, k, j), SubRoot(h, m, k, Sibling(j));
            if j % 2 == 1 then h.compress(sibling, node) else h.compress(node, sibling)
  {
    if j % 2 == 1 {
      assert 2 * (j / 2) == Sibling(j) && 2 * (j / 2) + 1 == j;
    } else {
      assert 2 * (j / 2) == j && 2 * (j / 2) + 1 == Sibling(j);
    }
  }

  /** A sibling path folds the node it belongs to up to the ancestor at which it ends. */
  lemma {:induction false} FoldPath(h: Hasher, m: LeafMap, k: nat, j: nat, path: seq<Buffer>)
    requires IsPath(h, m, k, j, path)
    ensures Fold(h, j, SubRoot(h, m, k, j), path) == SubRoot(h, m, k + |path|, Shift(j, |path|))
    decreases |path|
  {
    if path != [] {
      ParentOf(h, m, k, j);
      PathTail(h, m, k, j, path);
      FoldPath(h, m, k + 1, j / 2, path[1..]);
      ShiftHalf(j, |path| - 1);
      assert k + 1 + |path[1..]| == k + |path|;
    }
  }

  lemma PathTail(h: Hasher, m: LeafMap, k: nat, j: nat, path: seq<Buffer>)
    requires path != [] && IsPath(h, m, k, j, path)
    ensures path[0] == SubRoot(h, m, k, Sibling(j))
    ensures IsPath(h, m, k + 1, j / 2, path[1..])
  {
    assert path[0] == SubRoot(h, m, k + 0, Sibling(Shift(j, 0)));
    forall t | 0 <= t < |path[1..]|
      ensures path[1..][t] == SubRoot(h, m, k + 1 + t, Sibling(Shift(j / 2, t)))
    {
      ShiftHalf(j, t);
      assert path[1..][t] == path[t + 1];
      assert k + 1 + t == k + (t + 1);
    }
  }

  lemma PathStart(h: Hasher, m: LeafMap, j: nat)
    ensures IsPath(h, m, 0, j, []) && Shift(j, 0) == j
  {
  }

  /** One more level of a leaf's path. */
  lemma PathGrows(h: Hasher, m: LeafMap, j: nat, path: seq<Buffer>, sibling: Buffer)
    requires IsPath(h, m, 0, j, path) && sibling == SubRoot(h, m, |path|, Sibling(Shift(j, |path|)))
    ensures IsPath(h, m, 0, j, path + [sibling]) && Shift(j, |path| + 1) == Shift(j, |path|) / 2
  {
    hide SubRoot;
  }

  lemma LeafIsSubRoot(h: Hasher, m: LeafMap, j: nat)
    ensures SubRoot(h, m, 0, j) == LeafAt(m, j)
  {
  }

  /** A path read before a subtree is rewritten still folds the new subtree to the new root: the siblings
      on the way up lie outside the subtree. */
  lemma PathSurvives(h: Hasher, m: LeafMap, m': LeafMap, k: nat, j: nat, path: seq<Buffer>)
    requires IsPath(h, m, k, j, path)
    requires forall i: nat :: Shift(i, k) != j ==> LeafAt(m, i) == LeafAt(m', i)
    ensures IsPath(h, m', k, j, path)
  {
    forall t | 0 <= t < |path|
      ensures path[t] == SubRoot(h, m', k + t, Sibling(Shift(j, t)))
    {
      forall i: nat | Shift(i, k + t) == Sibling(Shift(j, t))
        ensures LeafAt(m, i) == LeafAt(m', i)
      {
        if Shift(i, k) == j { ShiftAdd(i, k, t); }
      }
      SubRootFrame(h, m, m', k + t, Sibling(Shift(j, t)));
    }
  }

  lemma {:induction false} ShiftAdd(i: nat, k: nat, t: nat)
    ensures Shift(Shift(i, k), t) == Shift(i, k + t)
  {
    if t > 0 { ShiftAdd(i, k, t - 1); }
  }

  lemma SiblingInRow(n: nat, i: nat)
    requires n >= 1 && i < Pow2(n)
    ensures Sibling(i) < Pow2(n) && i / 2 < Pow2(n - 1)
  {
  }

  lemma ShiftInRow(index: nat, height: nat, t: nat)
    requires t <= height && index < Pow2(height)
    ensures Shift(index, t) < Pow2(height - t)
  {
    ShiftAdd(index, t, height - t);
    ShiftToTop(index, height);
    ShiftToTop(Shift(index, t), height - t);
  }

  /** Every leaf of a tree of this height is `z`. */
  ghost predicate AllLeaves(m: LeafMap, height: nat, z: Buffer) {
    forall i: nat :: i < Pow2(height) ==> LeafAt(m, i) == z
  }

  /** Root of a subtree of height k whose leaves all are `z`. */
  ghost function Uniform(h: Hasher, z: Buffer, k: nat): Buffer {
    if k == 0 then z else h.compress(Uniform(h, z, k - 1), Uniform(h, z, k - 1))
  }

  lemma {:induction false} UniformSubRoot(h: Hasher, m: LeafMap, height: nat, z: Buffer, k: nat, j: nat)
    requires AllLeaves(m, height, z) && k <= height && j < Pow2(height - k)
    ensures SubRoot(h, m, k, j) == Uniform(h, z, k)
  {
    if k > 0 {
      UniformSubRoot(h, m, height, z, k - 1, 2 * j);
      UniformSubRoot(h, m, height, z, k - 1, 2 * j + 1);
    }
  }

  /** Leaves i, ..., i + n - 1 one after the other. */
  ghost function LeafBytes(m: LeafMap, i: nat, n: nat): Buffer {
    if n == 0 then [] else LeafBytes(m, i, n - 1) + LeafAt(m, i + n - 1)
  }

  lemma {:induction false} LeafBytesSplit(m: LeafMap, i: nat, a: nat, b: nat)
    ensures LeafBytes(m, i, a + b) == LeafBytes(m, i, a) + LeafBytes(m, i + a, b)
  {
    if b > 0 { LeafBytesSplit(m, i, a, b - 1); }
  }

  /** The order in which a root depends on the leaves: for a hasher that joins its inputs, left before right, the root of
      a subtree is its leaves from left to right. */
  lemma {:induction false} RootInLeafOrder(h: Hasher, m: LeafMap, k: nat, j: nat)
    requires forall l, r :: h.compress(l, r) == l + r
    ensures SubRoot(h, m, k, j) == LeafBytes(m, j * Pow2(k), Pow2(k))
  {
    if k == 0 {
      assert LeafBytes(m, j, 1) == LeafBytes(m, j, 0) + LeafAt(m, j);
    } else {
      RootInLeafOrder(h, m, k - 1, 2 * j);
      RootInLeafOrder(h, m, k - 1, 2 * j + 1);
      BlockHalves(j, Pow2(k - 1));
      LeafBytesSplit(m, j * Pow2(k), Pow2(k - 1), Pow2(k - 1));
    }
  }

  /** `SiblingPath.ZERO`: the path of every leaf of a tree whose leaves all are the zero element. */
  method ZeroPath(h: Hasher, size: nat, zeroElement: Buffer) returns (path: seq<Buffer>)
    ensures |path| == size
    ensures forall m: LeafMap, j: nat :: AllLeaves(m, size, zeroElement) && j < Pow2(size) ==>
      IsPath(h, m, 0, j, path) && Fold(h, j, zeroElement, path) == SubRoot(h, m, size, 0)
  {
    path := [];
    var current := zeroElement;
    for i := 0 to size
      invariant |path| == i && current == Uniform(h, zeroElement, i)
      invariant forall t :: 0 <= t < i ==> path[t] == Uniform(h, zeroElement, t)
    {
      path := path + [current];
      current := h.compress(current, current);
    }
    forall m: LeafMap, j: nat | AllLeaves(m, size, zeroElement) && j < Pow2(size)
      ensures IsPath(h, m, 0, j, path) && Fold(h, j, zeroElement, path) == SubRoot(h, m, size, 0)
    {
      UniformPath(h, m, size, zeroElement, j, path);
    }
  }

  lemma UniformPath(h: Hasher, m: LeafMap, height: nat, z: Buffer, j: nat, path: seq<Buffer>)
    requires AllLeaves(m, height, z) && j < Pow2(height) && |path| == height
    requires forall t :: 0 <= t < height ==> path[t] == Uniform(h, z, t)
    ensures IsPath(h, m, 0, j, path) && Fold(h, j, z, path) == SubRoot(h, m, height, 0)
  {
    forall t | 0 <= t < height
      ensures path[t] == SubRoot(h, m, 0 + t, Sibling(Shift(j, t)))
    {
      ShiftInRow(j, height, t);
      SiblingInRow(height - t, Shift(j, t));
      UniformSubRoot(h, m, height, z, t, Sibling(Shift(j, t)));
    }
    FoldPath(h, m, 0, j, path);
    ShiftToTop(j, height);
    assert SubRoot(h, m, 0, j) == z;
  }
}
