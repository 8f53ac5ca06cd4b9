/** The append-only and the update-anywhere tree over `TreeBase`. */
module Trees {
  import opened Bytes
  import opened MerkleRoot
  import opened MerkleTree

  class StandardTree {
    const tree: TreeBase

    /** In both views nothing is written at or after the size, and the size is within the capacity. */
    ghost predicate Valid()
      reads this, tree
    {
      && tree.Valid()
      && ValidView(false) && ValidView(true)
    }

    ghost predicate ValidView(u: bool)
      reads this, tree
    {
      Appendable(tree, u)
    }

    static ghost predicate Appendable(tree: TreeBase, u: bool)
      reads tree
    {
      tree.GetNumLeaves(u) <= Pow2(tree.depth) && Unwritten(tree.Leaves(u), tree.GetNumLeaves(u))
    }

    static ghost predicate Unwritten(m: LeafMap, n: nat) {
      forall i: nat :: i >= n ==> LeafAt(m, i) == INITIAL_LEAF
    }

    /** The appended leaves, in order. */
    ghost function Contents(u: bool): seq<Buffer>
      reads this, tree
    {
      Prefix(tree.Leaves(u), tree.GetNumLeaves(u))
    }

    /** The first n leaves of a map. */
    static ghost function Prefix(m: LeafMap, n: nat): (s: seq<Buffer>)
      ensures |s| == n && forall i :: 0 <= i < n ==> s[i] == LeafAt(m, i)
    {
      if n == 0 then [] else Prefix(m, n - 1) + [LeafAt(m, n - 1)]
    }

    /** Over a new tree or a reloaded one. */
    constructor (tree: TreeBase)
      requires tree.Valid() && Appendable(tree, false) && Appendable(tree, true)
      ensures Valid() && this.tree == tree
    {
      this.tree := tree;
    }

    /** Commits and loads the tree again from its database: nothing of the contents is lost. */
    method CommitAndReload() returns (reloaded: StandardTree)
      requires Valid() && forall a, b :: |tree.hasher.compress(a, b)| == 32
      modifies tree
      ensures Valid() && Contents(true) == old(Contents(true))
      ensures reloaded.Valid() && reloaded.tree.depth == tree.depth
      ensures reloaded.Contents(false) == reloaded.Contents(true) == old(Contents(true))
      ensures reloaded.tree.GetRoot(false) == reloaded.tree.GetRoot(true) == old(tree.GetRoot(true))
    {
      hide TreeBase.Valid; hide Prefix; hide Pow2; hide Pow16;
      SizeFits(tree);
      var base := MerkleTree.CommitAndReload(tree);
      reloaded := new StandardTree(base);
    }

    /** Appends all the leaves or, beyond the capacity, throws and changes nothing. */
    method AppendLeaves(leaves: seq<Buffer>) returns (ok: bool)
      requires Valid()
      modifies tree
      ensures Valid() && tree.committed == old(tree.committed) && tree.GetNumLeaves(false) == old(tree.GetNumLeaves(false))
      ensures ok <==> old(tree.GetNumLeaves(true)) + |leaves| <= Pow2(tree.depth)
      ensures Contents(true) == if ok then old(Contents(true)) + leaves else old(Contents(true))
    {
      hide TreeBase.Valid; hide Appended; hide Prefix;
      var numLeaves := tree.GetNumLeaves(true);
      if numLeaves + |leaves| - 1 > tree.MaxIndex() { return false; }
      AppendedNone(tree.latest, numLeaves);
      for i := 0 to |leaves|
        invariant tree.Valid() && tree.committed == old(tree.committed)
        invariant tree.size == old(tree.size) && tree.cachedSize == old(tree.cachedSize)
        invariant Appended(old(tree.latest), tree.latest, numLeaves, leaves[..i])
      {
        AppendedOne(old(tree.latest), tree.latest, numLeaves, leaves[..i], leaves[i]);
        assert leaves[..i + 1] == leaves[..i] + [leaves[i]];
        tree.AddLeafToCacheAndHashToRoot(leaves[i], numLeaves + i);
      }
      assert leaves[..|leaves|] == leaves;
      AppendedPrefix(old(tree.latest), tree.latest, numLeaves, leaves);
      tree.SetCachedSize(numLeaves + |leaves|);
      ok := true;
    }

    method Commit()
      requires Valid()
      modifies tree
      ensures Valid() && Contents(false) == Contents(true) == old(Contents(true))
    {
      hide TreeBase.Valid; hide Prefix;
      tree.Commit();
    }

    method Rollback()
      requires Valid()
      modifies tree
      ensures Valid() && Contents(true) == Contents(false) == old(Contents(false))
    {
      hide TreeBase.Valid; hide Prefix;
      tree.Rollback();
    }

    static lemma AppendedNone(m: LeafMap, n: nat)
      ensures Appended(m, m, n, [])
    {
    }

    static lemma AppendedOne(m: LeafMap, m': LeafMap, n: nat, leaves: seq<Buffer>, leaf: Buffer)
      requires Appended(m, m', n, leaves)
      ensures Appended(m, m'[n + |leaves| := leaf], n, leaves + [leaf])
    {
      LeafAfterWrite(m', n + |leaves|, leaf);
    }

    static lemma AppendedPrefix(m: LeafMap, m': LeafMap, n: nat, leaves: seq<Buffer>)
      requires Appended(m, m', n, leaves) && Unwritten(m, n)
      ensures Prefix(m', n + |leaves|) == Prefix(m, n) + leaves && Unwritten(m', n + |leaves|)
    {
    }

    static ghost predicate Appended(m: LeafMap, m': LeafMap, n: nat, leaves: seq<Buffer>) {
      forall i: nat :: LeafAt(m', i) == if n <= i < n + |leaves| then leaves[i - n] else LeafAt(m, i)
    }
  }

  /** The zero-padded leaf map decides the number of non-zero leaves. */
  ghost function NonZero(m: LeafMap): set<nat> {
    set i | i in m && m[i] != INITIAL_LEAF
  }

  ghost predicate SameLeaves(m: LeafMap, m': LeafMap) {
    forall i: nat :: LeafAt(m, i) == LeafAt(m', i)
  }

  /** Nothing is written beyond the capacity. */
  ghost predicate InRange(m: LeafMap, capacity: nat) {
    forall i :: i in m ==> i < capacity
  }

  /** Both trees hold fewer leaves than the metadata can count. */
  lemma SizeFits(tree: TreeBase)
    requires tree.Valid()
    ensures Pow2(tree.depth) < Pow16(64)
  {
    var depth := tree.depth;
    assert depth <= 254;
    hide TreeBase.Valid; hide Pow2; hide Pow16;
    Pow2Grows(depth, 254);
    Pow16IsPow2(64);
    Pow2Doubles(254);
    Pow2Doubles(255);
  }

  lemma Pow2Doubles(n: nat)
    ensures Pow2(n + 1) == 2 * Pow2(n)
  {
  }

  lemma {:induction false} Pow2Grows(a: nat, b: nat)
    requires a <= b
    ensures Pow2(a) <= Pow2(b)
  {
    if a < b { Pow2Grows(a, b - 1); }
  }

  lemma {:induction false} Pow16IsPow2(n: nat)
    ensures Pow16(n) == Pow2(4 * n)
  {
    if n > 0 {
      Pow16IsPow2(n - 1);
      Pow2Doubles(4 * n - 1);
      Pow2Doubles(4 * n - 2);
      Pow2Doubles(4 * n - 3);
      Pow2Doubles(4 * n - 4);
    }
  }

  lemma CountFits(m: LeafMap, capacity: nat)
    requires InRange(m, capacity)
    ensures |NonZero(m)| <= capacity
  {
    BelowCount(NonZero(m), capacity);
  }

  lemma {:induction false} BelowCount(s: set<nat>, n: nat)
    requires forall i :: i in s ==> i < n
    ensures |s| <= n
  {
    if n > 0 {
      BelowCount(s - {n - 1}, n - 1);
      CountWithout(s, n - 1);
    } else if i :| i in s {
      assert false;
    }
  }

  lemma SameLeavesSameSize(m: LeafMap, m': LeafMap)
    requires SameLeaves(m, m')
    ensures NonZero(m) == NonZero(m')
  {
    forall i: nat
      ensures i in NonZero(m) <==> i in NonZero(m')
    {
      assert i in NonZero(m) <==> LeafAt(m, i) != INITIAL_LEAF;
      assert i in NonZero(m') <==> LeafAt(m', i) != INITIAL_LEAF;
    }
  }

  /** How one write changes the count of non-zero leaves. */
  lemma CountAfterWrite(m: LeafMap, i: nat, leaf: Buffer)
    ensures var was, becomes := LeafAt(m, i) != INITIAL_LEAF, leaf != INITIAL_LEAF;
      |NonZero(m[i := leaf])| == |NonZero(m)| + (if becomes then 1 else 0) - (if was then 1 else 0)
  {
    var s, s' := NonZero(m), NonZero(m[i := leaf]);
    assert s' - {i} == s - {i};
    CountWithout(s, i);
    CountWithout(s', i);
  }

  lemma CountWithout(s: set<nat>, i: nat)
    ensures |s| == |s - {i}| + if i in s then 1 else 0
  {
    if i !in s { assert s - {i} == s; }
  }

  class SparseTree {
    const tree: TreeBase

    /** In both views the reported size is the number of non-zero leaves. */
    ghost predicate Valid()
      reads this, tree
    {
      tree.Valid() && Counted(tree, false) && Counted(tree, true)
    }

    static ghost predicate Counted(tree: TreeBase, u: bool)
      reads tree
    {
      InRange(tree.Leaves(u), Pow2(tree.depth)) && tree.GetNumLeaves(u) == |NonZero(tree.Leaves(u))|
    }

    /** Over a new tree or a reloaded one. */
    constructor (tree: TreeBase)
      requires tree.Valid() && Counted(tree, false) && Counted(tree, true)
      ensures Valid() && this.tree == tree
    {
      this.tree := tree;
    }

    /** Commits and loads the tree again from its database: leaves, root and count stay. */
    method CommitAndReload() returns (reloaded: SparseTree)
      requires Valid() && forall a, b :: |tree.hasher.compress(a, b)| == 32
      modifies tree
      ensures Valid() && tree.latest == tree.committed == old(tree.latest)
      ensures reloaded.Valid() && reloaded.tree.depth == tree.depth
      ensures reloaded.tree.latest == reloaded.tree.committed == old(tree.latest)
      ensures forall u :: reloaded.tree.GetNumLeaves(u) == |NonZero(old(tree.latest))|
      ensures forall u :: reloaded.tree.GetRoot(u) == old(tree.GetRoot(true))
    {
      hide TreeBase.Valid; hide Pow2; hide Pow16; hide NonZero;
      SizeFits(tree);
      CountFits(tree.latest, Pow2(tree.depth));
      var base := MerkleTree.CommitAndReload(tree);
      reloaded := new SparseTree(base);
    }

    method UpdateLeaf(leaf: Buffer, index: nat) returns (ok: bool)
      requires Valid()
      modifies tree
      ensures Valid() && tree.committed == old(tree.committed)
      ensures ok <==> index <= tree.MaxIndex()
      ensures SameLeaves(tree.latest, if ok then old(tree.latest)[index := leaf] else old(tree.latest))
    {
      if index > tree.MaxIndex() { return false; }
      ok := true;
      var insertingZeroElement := leaf == INITIAL_LEAF;
      var originallyZeroElement := tree.GetLeafValue(index, true) == INITIAL_LEAF;
      LeafAfterWrite(tree.latest, index, leaf);
      if insertingZeroElement && originallyZeroElement { return; }
      CountAfterWrite(tree.latest, index, leaf);
      tree.AddLeafToCacheAndHashToRoot(leaf, index);
      var size := if tree.cachedSize.Some? then tree.cachedSize.value else tree.size;
      if insertingZeroElement {
        tree.SetCachedSize(size - 1);
      } else if originallyZeroElement {
        tree.SetCachedSize(size + 1);
      }
    }

    method Commit()
      requires Valid()
      modifies tree
      ensures Valid() && tree.committed == tree.latest == old(tree.latest)
    {
      tree.Commit();
    }

    method Rollback()
      requires Valid()
      modifies tree
      ensures Valid() && tree.latest == tree.committed == old(tree.committed)
    {
      tree.Rollback();
    }
  }

  datatype Op = Update(leaf: Buffer, index: nat) | Commit | Rollback
  datatype Plain = Plain(committed: LeafMap, latest: LeafMap)

  /** The plain store that a sparse tree is meant to be: out-of-range updates are refused. */
  function PlainStep(depth: nat, p: Plain, op: Op): Plain {
    match op
    case Update(leaf, index) => if index < Pow2(depth) then p.(latest := p.latest[index := leaf]) else p
    case Commit => p.(committed := p.latest)
    case Rollback => p.(latest := p.committed)
  }

  function PlainRun(depth: nat, p: Plain, ops: seq<Op>): Plain {
    if ops == [] then p else PlainStep(depth, PlainRun(depth, p, ops[..|ops| - 1]), ops[|ops| - 1])
  }

  lemma PlainRunLast(depth: nat, p: Plain, ops: seq<Op>, op: Op)
    ensures PlainRun(depth, p, ops + [op]) == PlainStep(depth, PlainRun(depth, p, ops), op)
  {
    assert (ops + [op])[..|ops|] == ops;
  }

  ghost predicate Matches(t: SparseTree, p: Plain)
    reads t, t.tree
  {
    && t.Valid() && SameLeaves(t.tree.committed, p.committed) && SameLeaves(t.tree.latest, p.latest)
    && t.tree.GetRoot(true) == SubRoot(t.tree.hasher, p.latest, t.tree.depth, 0)
    && t.tree.GetRoot(false) == SubRoot(t.tree.hasher, p.committed, t.tree.depth, 0)
    && t.tree.GetNumLeaves(true) == |NonZero(p.latest)|
    && t.tree.GetNumLeaves(false) == |NonZero(p.committed)|
  }

  lemma MatchesPlain(t: SparseTree, p: Plain)
    requires t.Valid() && SameLeaves(t.tree.committed, p.committed) && SameLeaves(t.tree.latest, p.latest)
    ensures Matches(t, p)
  {
    SameLeavesSameSize(t.tree.committed, p.committed);
    SameLeavesSameSize(t.tree.latest, p.latest);
    RootOfEqualLeaves(t.tree.hasher, t.tree.committed, p.committed, t.tree.depth);
    RootOfEqualLeaves(t.tree.hasher, t.tree.latest, p.latest, t.tree.depth);
  }

  /** Over every run of updates, commits and rollbacks, roots and sizes of both views are those of the
      plain store. */
  method RunSparse(t: SparseTree, ops: seq<Op>)
    requires t.Valid()
    modifies t.tree
    ensures Matches(t, PlainRun(t.tree.depth, old(Plain(t.tree.committed, t.tree.latest)), ops))
  {
    ghost var start := Plain(t.tree.committed, t.tree.latest);
    MatchesPlain(t, start);
    for i := 0 to |ops|
      invariant Matches(t, PlainRun(t.tree.depth, start, ops[..i]))
    {
      assert ops[..i + 1] == ops[..i] + [ops[i]];
      PlainRunLast(t.tree.depth, start, ops[..i], ops[i]);
      match ops[i] {
        case Update(leaf, index) =>
          ghost var m, p := t.tree.latest, PlainRun(t.tree.depth, start, ops[..i]).latest;
          LeafAfterWrite(m, index, leaf);
          LeafAfterWrite(p, index, leaf);
          var _ := t.UpdateLeaf(leaf, index);
        case Commit => t.Commit();
        case Rollback => t.Rollback();
      }
      MatchesPlain(t, PlainRun(t.tree.depth, start, ops[..i + 1]));
    }
    assert ops[..|ops|] == ops;
  }

  /** Writing a zero leaf and zeroing it again restores the root and the size, whatever is written to other leaves,
      committed and rolled back in between; with a rollback, the leaf must have been zero when last committed too. */
  lemma ZeroingRestores(h: Hasher, depth: nat, p: Plain, index: nat, leaf: Buffer, between: seq<Op>)
    requires LeafAt(p.latest, index) == INITIAL_LEAF && index < Pow2(depth)
    requires forall op :: op in between && op.Update? ==> op.index != index
    requires Rollback in between ==> LeafAt(p.committed, index) == INITIAL_LEAF
    ensures var touched := PlainRun(depth, p, [Update(leaf, index)] + between + [Update(INITIAL_LEAF, index)]).latest;
      var untouched := PlainRun(depth, p, between).latest;
      && SameLeaves(touched, untouched)
      && SubRoot(h, touched, depth, 0) == SubRoot(h, untouched, depth, 0)
      && |NonZero(touched)| == |NonZero(untouched)|
  {
    var ops := [Update(leaf, index)] + between;
    var all := ops + [Update(INITIAL_LEAF, index)];
    RunApart(depth, p, index, leaf, between);
    PlainRunLast(depth, p, ops, Update(INITIAL_LEAF, index));
    LeafAfterWrite(PlainRun(depth, p, ops).latest, index, INITIAL_LEAF);
    hide PlainRun;
    var touched, untouched := PlainRun(depth, p, all).latest, PlainRun(depth, p, between).latest;
    SameLeavesSameSize(touched, untouched);
    RootOfEqualLeaves(h, touched, untouched, depth);
  }

  /** The two maps agree except perhaps at `index`. */
  ghost predicate Apart(a: LeafMap, b: LeafMap, index: nat) {
    forall i: nat :: i != index ==> LeafAt(a, i) == LeafAt(b, i)
  }

  /** Both versions of the two stores agree except at `index`, where the first one is zero. */
  ghost predicate PlainApart(a: Plain, b: Plain, index: nat, rollback: bool) {
    && Apart(a.latest, b.latest, index) && Apart(a.committed, b.committed, index)
    && LeafAt(a.latest, index) == INITIAL_LEAF
    && (rollback ==> LeafAt(a.committed, index) == INITIAL_LEAF)
  }

  lemma StepApart(depth: nat, a: Plain, b: Plain, index: nat, rollback: bool, op: Op)
    requires PlainApart(a, b, index, rollback) && (op.Update? ==> op.index != index) && (op.Rollback? ==> rollback)
    ensures PlainApart(PlainStep(depth, a, op), PlainStep(depth, b, op), index, rollback)
  {
    if op.Update? {
      LeafAfterWrite(a.latest, op.index, op.leaf);
      LeafAfterWrite(b.latest, op.index, op.leaf);
    }
  }

  lemma {:induction false} RunApart(depth: nat, p: Plain, index: nat, leaf: Buffer, between: seq<Op>)
    requires LeafAt(p.latest, index) == INITIAL_LEAF && index < Pow2(depth)
    requires forall op :: op in between && op.Update? ==> op.index != index
    requires Rollback in between ==> LeafAt(p.committed, index) == INITIAL_LEAF
    ensures PlainApart(PlainRun(depth, p, between), PlainRun(depth, p, [Update(leaf, index)] + between), index,
                       LeafAt(p.committed, index) == INITIAL_LEAF)
  {
    var first := [Update(leaf, index)];
    if between == [] {
      assert first + between == [] + first;
      PlainRunLast(depth, p, [], Update(leaf, index));
      LeafAfterWrite(p.latest, index, leaf);
    } else {
      hide PlainRun; hide PlainStep; hide PlainApart;
      var init, op := between[..|between| - 1], between[|between| - 1];
      assert between == init + [op] && op in between;
      RunApart(depth, p, index, leaf, init);
      assert first + between == (first + init) + [op];
      PlainRunLast(depth, p, first + init, op);
      PlainRunLast(depth, p, init, op);
      StepApart(depth, PlainRun(depth, p, init), PlainRun(depth, p, first + init), index,
                LeafAt(p.committed, index) == INITIAL_LEAF, op);
    }
  }
}
