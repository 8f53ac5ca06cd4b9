/** What the batch loop keeps about the Merkle leaves and the witnesses it emits. */
module IndexedBatch {
  import opened Bytes
  import opened MerkleRoot
  import opened LinkedLeaves
  import opened BatchList
  import opened IndexedSpec

  datatype Witness = Witness(leafData: LeafData, siblingPath: seq<Buffer>, index: nat)

  function BlankPath(height: nat): (path: seq<Buffer>)
    ensures |path| == height && forall i :: 0 <= i < height ==> path[i] == INITIAL_LEAF
  {
    if height == 0 then [] else [INITIAL_LEAF] + BlankPath(height - 1)
  }

  function EmptyWitness(treeHeight: nat): (w: Witness)
    ensures w.leafData == ZERO_LEAF && w.index == 0 && |w.siblingPath| == treeHeight
    ensures forall i :: 0 <= i < treeHeight ==> w.siblingPath[i] == INITIAL_LEAF
  {
    Witness(ZERO_LEAF, BlankPath(treeHeight), 0)
  }

  /** What slot 0 stores: blank once it has been the low leaf of a member, until then what it stored at first. */
  ghost function HeadLeaf(t0: Table, done: seq<nat>, leaves0: LeafMap): Buffer {
    if LowZero(t0, done) then INITIAL_LEAF else LeafAt(leaves0, 0)
  }

  /** One link of the witness chain, for batch member i: no witness and no change when the member is zero or its
      predecessor is an earlier member; otherwise the low leaf found in the tree, with a path that folds the
      stored low leaf to the root before the step and the updated one to the root after it.  The stored leaf is the
      hash of the witness leaf, except perhaps in slot 0. */
  ghost predicate Link(h: Hasher, depth: nat, t0: Table, n: nat, vs: seq<nat>, i: nat, leaves0: LeafMap,
                       before: LeafMap, after: LeafMap, w: Witness, treeHeight: nat)
    requires i < |vs|
  {
    if vs[i] == 0 || PrevInBatch(t0, vs, i) then w == EmptyWitness(treeHeight) && after == before
    else
      var updated := LeafData(w.leafData.value, n + i, vs[i]);
      && IsPrev(t0, w.index, vs[i]) && w.leafData.value == At(t0, w.index).value
      && (w.leafData.nextValue > vs[i] || w.leafData.nextValue == 0)
      && after == before[w.index := EncodeLeaf(h, updated)]
      && |w.siblingPath| == depth
      && Fold(h, w.index, LeafAt(before, w.index), w.siblingPath) == SubRoot(h, before, depth, 0)
      && Fold(h, w.index, EncodeLeaf(h, updated), w.siblingPath) == SubRoot(h, after, depth, 0)
      && (if w.leafData.value != 0 then LeafAt(before, w.index) == HashLeaf(h, w.leafData)
          else w.index == 0 && LeafAt(before, 0) == HeadLeaf(t0, vs[..i], leaves0))
  }

  /** The Merkle leaves follow the tree table, and slot 0 is blank once it has been a low leaf. */
  ghost predicate MerkleInv(h: Hasher, t0: Table, leaves0: LeafMap, done: seq<nat>, t: Table, leaves: LeafMap) {
    && SyncedAbove(h, leaves, t)
    && LeafAt(leaves, 0) == HeadLeaf(t0, done, leaves0)
  }

  ghost predicate Chain(h: Hasher, depth: nat, t0: Table, n: nat, vs: seq<nat>, maps: seq<LeafMap>,
                        witnesses: seq<Witness>, treeHeight: nat) {
    && |witnesses| <= |vs| && |maps| == |witnesses| + 1
    && forall k :: 0 <= k < |witnesses| ==> Link(h, depth, t0, n, vs, k, maps[0], maps[k], maps[k + 1], witnesses[k], treeHeight)
  }

  lemma ChainGrow(h: Hasher, depth: nat, t0: Table, n: nat, vs: seq<nat>, maps: seq<LeafMap>,
                  witnesses: seq<Witness>, treeHeight: nat, after: LeafMap, w: Witness)
    requires Chain(h, depth, t0, n, vs, maps, witnesses, treeHeight) && |witnesses| < |vs|
    requires Link(h, depth, t0, n, vs, |witnesses|, maps[0], maps[|witnesses|], after, w, treeHeight)
    ensures Chain(h, depth, t0, n, vs, maps + [after], witnesses + [w], treeHeight)
  {
    hide Link;
  }

  /** The state of the first loop after |pending| members. */
  datatype Loop = Loop(t: Table, pending: seq<LeafData>, touched: Touched, c: Table, maps: seq<LeafMap>, witnesses: seq<Witness>)

  ghost predicate LoopInv(h: Hasher, depth: nat, st: St, vs: seq<nat>, treeHeight: nat, l: Loop) {
    && Good(h, st)
    && BatchInv(st.table, st.size, vs, l.t, l.pending, l.touched, l.c)
    && Chain(h, depth, st.table, st.size, vs, l.maps, l.witnesses, treeHeight)
    && |l.witnesses| == |l.pending| <= |vs|
    && l.maps[0] == st.leaves
    && MerkleInv(h, st.table, st.leaves, vs[..|l.pending|], l.t, l.maps[|l.pending|])
  }

  lemma LoopStart(h: Hasher, depth: nat, st: St, vs: seq<nat>, treeHeight: nat)
    requires Good(h, st) && UniqueOrZero(vs)
    ensures LoopInv(h, depth, st, vs, treeHeight, Loop(st.table, [], map[], st.table, [st.leaves], []))
  {
    hide HashLeaf; hide Linked;
    BatchStart(st.table, st.size, vs);
  }

  lemma LowZeroLast(t: Table, done: seq<nat>, v: nat)
    ensures LowZero(t, done + [v]) <==> LowZero(t, done) || (v != 0 && IsPrev(t, 0, v))
  {
    hide IsPrev;
    if v != 0 && IsPrev(t, 0, v) { assert v in done + [v]; }
    if LowZero(t, done) {
      var u :| u in done && u != 0 && IsPrev(t, 0, u);
      assert u in done + [v];
    }
  }

  lemma LoopZero(h: Hasher, depth: nat, st: St, vs: seq<nat>, treeHeight: nat, l: Loop)
    requires LoopInv(h, depth, st, vs, treeHeight, l) && |l.pending| < |vs| && vs[|l.pending|] == 0
    ensures var i := |l.pending|;
      LoopInv(h, depth, st, vs, treeHeight, Loop(l.t, l.pending + [ZERO_LEAF], l.touched, l.c, l.maps + [l.maps[i]], l.witnesses + [EmptyWitness(treeHeight)]))
  {
    hide HashLeaf; hide Linked; hide BatchInv; hide LowZero; hide Chain; hide Good; hide SyncedAbove;
    var i := |l.pending|;
    assert vs[..i + 1] == vs[..i] + [vs[i]];
    StepZero(st.table, st.size, vs, l.t, l.pending, l.touched, l.c);
    LowZeroLast(st.table, vs[..i], vs[i]);
    ChainLength(h, depth, st.table, st.size, vs, l.maps, l.witnesses, treeHeight);
    ChainGrow(h, depth, st.table, st.size, vs, l.maps, l.witnesses, treeHeight, l.maps[i], EmptyWitness(treeHeight));
  }

  lemma ChainLength(h: Hasher, depth: nat, t0: Table, n: nat, vs: seq<nat>, maps: seq<LeafMap>, witnesses: seq<Witness>, treeHeight: nat)
    requires Chain(h, depth, t0, n, vs, maps, witnesses, treeHeight)
    ensures |witnesses| <= |vs| && |maps| == |witnesses| + 1
  {
  }

  /** A member whose predecessor is pending changes no Merkle leaf; if slot 0 precedes it in the tree, then slot 0
      has already been a low leaf. */
  lemma LoopPending(h: Hasher, depth: nat, st: St, vs: seq<nat>, treeHeight: nat, l: Loop, p: nat, j: nat)
    requires LoopInv(h, depth, st, vs, treeHeight, l) && |l.pending| < |vs| && vs[|l.pending|] != 0
    requires IsPrev(st.table, p, vs[|l.pending|]) && Blocked(l.touched, p, vs[|l.pending|])
    requires j < |l.pending| && Fits(l.pending[j], vs[|l.pending|])
    ensures var i, low := |l.pending|, l.pending[j];
      LoopInv(h, depth, st, vs, treeHeight,
        Loop(l.t, l.pending[j := LeafData(low.value, st.size + i, vs[i])] + [LeafData(vs[i], low.nextIndex, low.nextValue)],
             l.touched, Insert(l.c, st.size + i, st.size + j, vs[i]), l.maps + [l.maps[i]], l.witnesses + [EmptyWitness(treeHeight)]))
  {
    hide HashLeaf; hide Linked; hide BatchInv; hide LowZero; hide Chain; hide SyncedAbove; hide IsPrev; hide Blocked; hide Fits; hide Insert;
    hide Synced; hide PrevInBatch;
    var i := |l.pending|;
    assert vs[..i + 1] == vs[..i] + [vs[i]];
    StepPending(st.table, st.size, vs, l.t, l.pending, l.touched, l.c, p, j);
    LowZeroLast(st.table, vs[..i], vs[i]);
    BlockedLowZero(st, vs, l, p);
    ChainLength(h, depth, st.table, st.size, vs, l.maps, l.witnesses, treeHeight);
    ChainGrow(h, depth, st.table, st.size, vs, l.maps, l.witnesses, treeHeight, l.maps[i], EmptyWitness(treeHeight));
  }

  lemma BlockedLowZero(st: St, vs: seq<nat>, l: Loop, p: nat)
    requires BatchInv(st.table, st.size, vs, l.t, l.pending, l.touched, l.c) && |l.pending| < |vs| && vs[|l.pending|] != 0
    requires IsPrev(st.table, p, vs[|l.pending|]) && Blocked(l.touched, p, vs[|l.pending|])
    ensures PrevInBatch(st.table, vs, |l.pending|)
    ensures IsPrev(st.table, 0, vs[|l.pending|]) ==> LowZero(st.table, vs[..|l.pending|])
  {
    var s := LinkedBelow(st.table, st.size, vs, l.t, l.pending, l.touched, l.c, p);
    hide Linked; hide Slots; hide Best;
    if IsPrev(st.table, 0, vs[|l.pending|]) {
      assert At(st.table, 0).value <= vs[s];
      assert vs[s] in vs[..|l.pending|] && IsPrev(st.table, 0, vs[s]) by { SortedHeaded(st.table, st.size); }
    }
  }

  /** The loop state after linking v behind tree slot p. */
  function TreeNext(h: Hasher, n: nat, v: nat, l: Loop, leaves: LeafMap, p: nat, path: seq<Buffer>): Loop {
    var i, low := |l.pending|, At(l.t, p);
    var updated := LeafData(low.value, n + i, v);
    var after: LeafMap := leaves[p := EncodeLeaf(h, updated)];
    Loop(l.t[p := updated], l.pending + [LeafData(v, low.nextIndex, low.nextValue)], Touch(l.touched, p, v),
         Insert(l.c, n + i, p, v), l.maps + [after], l.witnesses + [Witness(low, path, p)])
  }

  /** A member linked behind tree slot p: the witness is taken before the slot is rewritten. */
  lemma LoopTree(h: Hasher, depth: nat, st: St, vs: seq<nat>, treeHeight: nat, l: Loop, p: nat, path: seq<Buffer>)
    requires LoopInv(h, depth, st, vs, treeHeight, l) && |l.pending| < |vs| && vs[|l.pending|] != 0
    requires IsPrev(st.table, p, vs[|l.pending|]) && !Blocked(l.touched, p, vs[|l.pending|])
    requires |path| == depth && IsPath(h, l.maps[|l.pending|], 0, p, path) && p < Pow2(depth)
    ensures LoopInv(h, depth, st, vs, treeHeight, TreeNext(h, st.size, vs[|l.pending|], l, l.maps[|l.pending|], p, path))
  {
    hide HashLeaf; hide Linked; hide BatchInv; hide LowZero; hide Chain; hide SyncedAbove; hide IsPrev; hide Blocked; hide Insert;
    hide Synced; hide PrevInBatch; hide IsPath; hide EncodeLeaf; hide Touch; hide Link; hide MerkleInv;
    var i, low := |l.pending|, At(l.t, p);
    var updated := LeafData(low.value, st.size + i, vs[i]);
    assert vs[..i + 1] == vs[..i] + [vs[i]];
    SortedHeaded(st.table, st.size);
    StepTree(st.table, st.size, vs, l.t, l.pending, l.touched, l.c, p);
    ChainLength(h, depth, st.table, st.size, vs, l.maps, l.witnesses, treeHeight);
    TreeSlotIsPrev(st.table, st.size, vs, l.t, l.pending, l.touched, l.c, p);
    TreeMerkle(h, st, vs[..i], vs[i], l.t, l.maps[i], p, updated);
    TreeHead(st, vs, l);
    TreeLink(h, depth, st, vs, i, l.t, l.maps[i], p, path, treeHeight);
    ChainGrow(h, depth, st.table, st.size, vs, l.maps, l.witnesses, treeHeight, l.maps[i][p := EncodeLeaf(h, updated)], Witness(low, path, p));
  }

  lemma TreeHead(st: St, vs: seq<nat>, l: Loop)
    requires BatchInv(st.table, st.size, vs, l.t, l.pending, l.touched, l.c)
    ensures At(l.t, 0).value == 0
  {
    SortedHeaded(st.table, st.size);
    hide Linked;
  }

  lemma TreeMerkle(h: Hasher, st: St, done: seq<nat>, v: nat, t: Table, leaves: LeafMap, p: nat, updated: LeafData)
    requires Good(h, st) && MerkleInv(h, st.table, st.leaves, done, t, leaves) && v != 0 && IsPrev(st.table, p, v)
    requires updated.value == At(t, p).value == At(st.table, p).value
    ensures MerkleInv(h, st.table, st.leaves, done + [v], t[p := updated], leaves[p := EncodeLeaf(h, updated)])
  {
    hide HashLeaf; hide LowZero;
    LowZeroLast(st.table, done, v);
    LeafAfterWrite(leaves, p, EncodeLeaf(h, updated));
    if IsPrev(st.table, 0, v) {
      SortedDistinct(st.table, st.size, st.size);
      PrevUnique(st.table, 0, p, v);
    }
    hide Linked; hide IsPrev;
    var t' := t[p := updated];
    assert forall k: nat :: At(t', k) == if k == p then updated else At(t, k);
  }

  lemma TreeLink(h: Hasher, depth: nat, st: St, vs: seq<nat>, i: nat, t: Table, leaves: LeafMap, p: nat,
                 path: seq<Buffer>, treeHeight: nat)
    requires i < |vs| && vs[i] != 0 && !PrevInBatch(st.table, vs, i) && IsPrev(st.table, p, vs[i]) && p < Pow2(depth)
    requires MerkleInv(h, st.table, st.leaves, vs[..i], t, leaves)
    requires At(t, p).value == At(st.table, p).value && (At(t, p).nextValue > vs[i] || At(t, p).nextValue == 0)
    requires |path| == depth && IsPath(h, leaves, 0, p, path) && At(st.table, 0).value == At(t, 0).value == 0
    ensures Link(h, depth, st.table, st.size, vs, i, st.leaves, leaves,
      leaves[p := EncodeLeaf(h, LeafData(At(t, p).value, st.size + i, vs[i]))], Witness(At(t, p), path, p), treeHeight)
  {
    assert At(t, p).value == 0 ==> p == 0;
    hide *;
    var leaf := EncodeLeaf(h, LeafData(At(t, p).value, st.size + i, vs[i]));
    WriteFolds(h, depth, leaves, p, leaf, path);
    StoredLow(h, st, vs[..i], t, leaves, p);
    LinkOf(h, depth, st, vs, i, t, leaves, p, path, treeHeight);
  }

  /** A path folds the old leaf to the root before a write and the new leaf to the root after it. */
  lemma WriteFolds(h: Hasher, depth: nat, leaves: LeafMap, p: nat, leaf: Buffer, path: seq<Buffer>)
    requires |path| == depth && IsPath(h, leaves, 0, p, path) && p < Pow2(depth)
    ensures Fold(h, p, LeafAt(leaves, p), path) == SubRoot(h, leaves, depth, 0)
    ensures Fold(h, p, leaf, path) == SubRoot(h, leaves[p := leaf], depth, 0)
  {
    var after := leaves[p := leaf];
    LeafAfterWrite(leaves, p, leaf);
    ShiftToTop(p, depth);
    FoldPath(h, leaves, 0, p, path);
    PathSurvives(h, leaves, after, 0, p, path);
    FoldPath(h, after, 0, p, path);
    assert SubRoot(h, leaves, 0, p) == LeafAt(leaves, p) && SubRoot(h, after, 0, p) == leaf;
  }

  lemma StoredLow(h: Hasher, st: St, done: seq<nat>, t: Table, leaves: LeafMap, p: nat)
    requires MerkleInv(h, st.table, st.leaves, done, t, leaves) && (At(t, p).value == 0 ==> p == 0) && At(t, 0).value == 0
    ensures if At(t, p).value != 0 then LeafAt(leaves, p) == HashLeaf(h, At(t, p))
            else p == 0 && LeafAt(leaves, 0) == HeadLeaf(st.table, done, st.leaves)
  {
    hide HashLeaf; hide HeadLeaf;
  }

  lemma LinkOf(h: Hasher, depth: nat, st: St, vs: seq<nat>, i: nat, t: Table, leaves: LeafMap, p: nat, path: seq<Buffer>, treeHeight: nat)
    requires i < |vs| && vs[i] != 0 && !PrevInBatch(st.table, vs, i) && IsPrev(st.table, p, vs[i]) && |path| == depth
    requires At(t, p).value == At(st.table, p).value && (At(t, p).nextValue > vs[i] || At(t, p).nextValue == 0)
    requires Fold(h, p, LeafAt(leaves, p), path) == SubRoot(h, leaves, depth, 0)
    requires var leaf := EncodeLeaf(h, LeafData(At(t, p).value, st.size + i, vs[i]));
      Fold(h, p, leaf, path) == SubRoot(h, leaves[p := leaf], depth, 0)
    requires if At(t, p).value != 0 then LeafAt(leaves, p) == HashLeaf(h, At(t, p))
             else p == 0 && LeafAt(leaves, 0) == HeadLeaf(st.table, vs[..i], st.leaves)
    ensures Link(h, depth, st.table, st.size, vs, i, st.leaves, leaves,
      leaves[p := EncodeLeaf(h, LeafData(At(t, p).value, st.size + i, vs[i]))], Witness(At(t, p), path, p), treeHeight)
  {
    hide HashLeaf; hide HeadLeaf; hide EncodeLeaf; hide Fold; hide SubRoot; hide IsPrev; hide PrevInBatch; hide At;
  }

  /** The second loop writes the pending leaves to the slots reserved for them. */
  ghost predicate Flushed(n: nat, pending: seq<LeafData>, k: nat, h: Hasher, t: Table, t': Table, leaves: LeafMap, leaves': LeafMap)
    requires k <= |pending|
  {
    forall j: nat ::
      && At(t', j) == (if n <= j < n + k then pending[j - n] else At(t, j))
      && LeafAt(leaves', j) == (if n <= j < n + k then EncodeLeaf(h, pending[j - n]) else LeafAt(leaves, j))
  }

  lemma WriteNext(n: nat, pending: seq<LeafData>, k: nat, h: Hasher, t: Table, t': Table, leaves: LeafMap, leaves': LeafMap)
    requires k < |pending| && Flushed(n, pending, k, h, t, t', leaves, leaves')
    ensures Flushed(n, pending, k + 1, h, t, t'[n + k := pending[k]], leaves, leaves'[n + k := EncodeLeaf(h, pending[k])])
  {
    hide EncodeLeaf;
    var t'', leaves'' := t'[n + k := pending[k]], leaves'[n + k := EncodeLeaf(h, pending[k])];
    forall j: nat
      ensures At(t'', j) == if n <= j < n + k + 1 then pending[j - n] else At(t, j)
      ensures LeafAt(leaves'', j) == if n <= j < n + k + 1 then EncodeLeaf(h, pending[j - n]) else LeafAt(leaves, j)
    {
      assert At(t'', j) == if j == n + k then pending[k] else At(t', j);
      assert LeafAt(leaves'', j) == if j == n + k then EncodeLeaf(h, pending[k]) else LeafAt(leaves', j);
    }
  }

  /** After both loops: the combined list is the table, and the batch is complete. */
  lemma LoopEnd(h: Hasher, depth: nat, st: St, vs: seq<nat>, treeHeight: nat, l: Loop, t': Table, leaves': LeafMap)
    requires LoopInv(h, depth, st, vs, treeHeight, l) && |l.pending| == |vs| && 0 in t'
    requires Flushed(st.size, l.pending, |vs|, h, l.t, t', l.maps[|vs|], leaves')
    ensures BatchResult(h, st, vs, St(t', st.size + |vs|, leaves'))
  {
    hide HashLeaf; hide TouchedOk; hide Chain; hide LowZero; hide AllAbsent; hide Linked;
    assert SameTable(l.c, t') && Linked(l.c, st.size + |vs|, st.size);
    BatchSorted(st.table, st.size, vs, l.t, l.pending, l.touched, l.c);
    LinkedSame(l.c, t', st.size + |vs|, st.size);
    SameSorted(l.c, t', st.size + |vs|);
    assert vs[..|vs|] == vs;
    SortedHeaded(st.table, st.size);
  }

  lemma SameSorted(t: Table, t': Table, n: nat)
    requires SameTable(t, t') && 0 in t && 0 in t'
    ensures Sorted(t, n) <==> Sorted(t', n)
  {
    hide Linked;
    if Sorted(t, n) { LinkedSame(t, t', n, n); }
    if Sorted(t', n) { LinkedSame(t', t, n, n); }
  }

  /** The path returned for an aligned batch of 2^k leaves: it folds the empty subtree to the root before the
      subtree is inserted, and the subtree of the new leaves to the root after it. */
  lemma SubtreePath(h: Hasher, depth: nat, n: nat, k: nat, j: nat, before: LeafMap, after: LeafMap, path: seq<Buffer>)
    requires k <= depth && n == j * Pow2(k) && n < Pow2(depth)
    requires |path| == depth - k && IsPath(h, before, k, Shift(n, k), path)
    requires forall i: nat :: i >= n ==> LeafAt(before, i) == INITIAL_LEAF
    requires forall i: nat :: !(n <= i < n + Pow2(k)) ==> LeafAt(after, i) == LeafAt(before, i)
    ensures Fold(h, j, ZeroHash(h, k), path) == SubRoot(h, before, depth, 0)
    ensures Fold(h, j, SubRoot(h, after, k, j), path) == SubRoot(h, after, depth, 0)
  {
    hide *;
    AlignedBlock(n, k, j);
    TopOf(n, k, depth);
    assert forall i: nat :: Shift(i, k) == j ==> LeafAt(before, i) == INITIAL_LEAF;
    assert forall i: nat :: Shift(i, k) != j ==> LeafAt(before, i) == LeafAt(after, i);
    SubRootOfZeros(h, before, k, j);
    FoldPath(h, before, k, j, path);
    PathSurvives(h, before, after, k, j, path);
    FoldPath(h, after, k, j, path);
  }

  lemma AlignedBlock(n: nat, k: nat, j: nat)
    requires n == j * Pow2(k)
    ensures Shift(n, k) == j
    ensures forall i: nat :: Shift(i, k) == j <==> n <= i < n + Pow2(k)
  {
    hide Shift;
    forall i: nat
      ensures Shift(i, k) == j <==> n <= i < n + Pow2(k)
    {
      Block(i, k, j);
    }
  }

  lemma TopOf(n: nat, k: nat, depth: nat)
    requires k <= depth && n < Pow2(depth)
    ensures Shift(Shift(n, k), depth - k) == 0
  {
    ShiftAdd(n, k, depth - k);
    ShiftToTop(n, depth);
  }
}
