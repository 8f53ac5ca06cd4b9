/** One-at-a-time insertion as a pure specification, and how a batch compares with it. */
module IndexedSpec {
  import opened Bytes
  import opened MerkleRoot
  import opened LinkedLeaves
  import opened BatchList

  /** A view of the indexed tree: leaf table, size and the Merkle leaves that stand for the table. */
  datatype St = St(table: Table, size: nat, leaves: LeafMap)

  function HashLeaf(h: Hasher, l: LeafData): Buffer {
    h.compressInputs([ToBufferBE(l.value, 32), ToBufferBE(l.nextIndex, 32), ToBufferBE(l.nextValue, 32)])
  }

  /** `updateLeaf` stores a zero-valued leaf as zero bytes, even slot 0, which `appendLeaf` hashes. */
  function EncodeLeaf(h: Hasher, l: LeafData): Buffer {
    if l.value == 0 then INITIAL_LEAF else HashLeaf(h, l)
  }

  /** The Merkle leaves are those of the table; slot 0 may be stored in either of the two ways. */
  ghost predicate Synced(h: Hasher, leaves: LeafMap, t: Table) {
    && SyncedAbove(h, leaves, t)
    && (LeafAt(leaves, 0) == HashLeaf(h, At(t, 0)) || LeafAt(leaves, 0) == INITIAL_LEAF)
  }

  ghost predicate SyncedAbove(h: Hasher, leaves: LeafMap, t: Table) {
    forall i: nat :: i > 0 ==> LeafAt(leaves, i) == EncodeLeaf(h, At(t, i))
  }

  ghost predicate Good(h: Hasher, st: St) {
    Sorted(st.table, st.size) && Synced(h, st.leaves, st.table)
  }

  /** `appendLeaf` as long as the capacity is not exceeded. */
  function AppendOne(h: Hasher, st: St, v: nat): St {
    if v == 0 then st.(size := st.size + 1)
    else
      var p := Best(st.table, st.size, v);
      if At(st.table, p).value == v then st
      else
        var t := Insert(st.table, st.size, p, v);
        var leaves: LeafMap := st.leaves[p := HashLeaf(h, At(t, p))];
        St(t, st.size + 1, leaves[st.size := HashLeaf(h, At(t, st.size))])
  }

  function AppendAll(h: Hasher, st: St, vs: seq<nat>): St {
    if vs == [] then st else AppendOne(h, AppendAll(h, st, vs[..|vs| - 1]), vs[|vs| - 1])
  }

  lemma AppendAllLast(h: Hasher, st: St, vs: seq<nat>, v: nat)
    ensures AppendAll(h, st, vs + [v]) == AppendOne(h, AppendAll(h, st, vs), v)
  {
    assert (vs + [v])[..|vs|] == vs;
  }

  lemma SortedGrow(t: Table, n: nat)
    requires Sorted(t, n)
    ensures Sorted(t, n + 1) && Linked(t, n, n + 1)
  {
    hide Linked;
    SortedHeaded(t, n);
    SortedDistinct(t, n, n);
    Rebase(t, n, n, n + 1);
    LinkedGrow(t, n, n + 1, n + 1);
  }

  /** Inserting an absent value behind its predecessor keeps the list sorted. */
  lemma SortedInsert(t: Table, n: nat, v: nat)
    requires Sorted(t, n) && v > 0 && !Holds(t, v)
    ensures var p := Best(t, n, v); p < n && IsPrev(t, p, v) && At(t, p).value < v && Sorted(Insert(t, n, p, v), n + 1)
  {
    hide Linked; hide Insert; hide Inserted; hide Best;
    var p := Best(t, n, v);
    SortedHeaded(t, n);
    BestIsPrev(t, n, v);
    SortedGrow(t, n);
    PrevIsKeyPrev(t, n, p, v);
    InsertSlots(t, n, p, v);
    InsertLinked(t, Insert(t, n, p, v), n, n + 1, p, v);
  }

  lemma PrevIsKeyPrev(t: Table, n: nat, p: nat, v: nat)
    requires Headed(t, n) && p < n && v > 0 && IsPrev(t, p, v) && !Holds(t, v)
    ensures At(t, p).value < v && IsKeyPrev(t, n + 1, p, 2 * v)
  {
    assert At(t, p).value != v;
    forall j: nat | Active(t, j)
      ensures Key(t, n + 1, j) <= Key(t, n + 1, p) || Key(t, n + 1, j) > 2 * v
    {
      assert At(t, j).value != v;
      assert j < n;
    }
  }

  ghost predicate SlotValues(t: Table, t': Table, n: nat, vs: seq<nat>) {
    forall i: nat :: At(t', i).value == if n <= i < n + |vs| then vs[i - n] else At(t, i).value
  }

  /** What one append of a zero or of an absent value does. */
  lemma AppendOneEffect(h: Hasher, st: St, v: nat)
    requires Good(h, st) && !(v != 0 && Holds(st.table, v))
    ensures var st' := AppendOne(h, st, v);
      && Good(h, st') && st'.size == st.size + 1 && SlotValues(st.table, st'.table, st.size, [v])
      && if v != 0 && IsPrev(st.table, 0, v) then LeafAt(st'.leaves, 0) == HashLeaf(h, At(st'.table, 0))
         else LeafAt(st'.leaves, 0) == LeafAt(st.leaves, 0) && At(st'.table, 0) == At(st.table, 0)
  {
    hide HashLeaf; hide Linked; hide Insert; hide Synced; hide SyncedAbove;
    if v == 0 {
      SortedHeaded(st.table, st.size);
      SortedGrow(st.table, st.size);
    } else {
      var n, p := st.size, Best(st.table, st.size, v);
      SortedInsert(st.table, n, v);
      if IsPrev(st.table, 0, v) {
        SortedDistinct(st.table, n, n);
        PrevUnique(st.table, 0, p, v);
      }
      InsertSlots(st.table, n, p, v);
      var t := Insert(st.table, n, p, v);
      InsertSynced(h, st, p, v);
    }
  }

  lemma InsertSynced(h: Hasher, st: St, p: nat, v: nat)
    requires Synced(h, st.leaves, st.table) && v != 0 && p < st.size
    requires p != 0 ==> At(st.table, p).value != 0
    ensures var t := Insert(st.table, st.size, p, v);
      var leaves := st.leaves[p := HashLeaf(h, At(t, p))][st.size := HashLeaf(h, At(t, st.size))];
      && Synced(h, leaves, t)
      && LeafAt(leaves, 0) == if p == 0 then HashLeaf(h, At(t, 0)) else LeafAt(st.leaves, 0)
  {
    hide HashLeaf;
    var t := Insert(st.table, st.size, p, v);
    InsertSlots(st.table, st.size, p, v);
    hide Insert;
    var leaves := st.leaves[p := HashLeaf(h, At(t, p))];
    LeafAfterWrite(st.leaves, p, HashLeaf(h, At(t, p)));
    LeafAfterWrite(leaves, st.size, HashLeaf(h, At(t, st.size)));
  }

  /** Some batch value is below every value in the tree, so that slot 0 is its low leaf. */
  ghost predicate LowZero(t: Table, vs: seq<nat>) {
    exists v :: v in vs && v != 0 && IsPrev(t, 0, v)
  }

  /** Appending absent values one at a time: all are stored in order, the list stays sorted, and slot 0 is
      rehashed exactly when it is the low leaf of one of them. */
  lemma {:induction false} AppendAllEffect(h: Hasher, st: St, vs: seq<nat>)
    requires Good(h, st) && UniqueOrZero(vs) && AllAbsent(st.table, vs)
    ensures var st' := AppendAll(h, st, vs);
      && Good(h, st') && st'.size == st.size + |vs| && SlotValues(st.table, st'.table, st.size, vs)
      && if LowZero(st.table, vs) then LeafAt(st'.leaves, 0) == HashLeaf(h, At(st'.table, 0))
         else LeafAt(st'.leaves, 0) == LeafAt(st.leaves, 0)
  {
    hide Linked; hide IsPrev; hide LowZero; hide Synced; hide AppendOne; hide HashLeaf; hide AllAbsent;
    if vs == [] {
      NoLowZero(st.table);
    } else {
      var us, v := vs[..|vs| - 1], vs[|vs| - 1];
      assert vs == us + [v];
      AbsentPrefix(st.table, vs);
      AppendAllEffect(h, st, us);
      var mid := AppendAll(h, st, us);
      SortedHeaded(mid.table, mid.size);
      LastAbsent(st, vs, mid.table);
      AppendOneEffect(h, mid, v);
      LastLowZero(h, st, vs, mid.table);
      SlotValuesStep(st.table, mid.table, AppendAll(h, st, vs).table, st.size, us, v);
    }
  }

  lemma NoLowZero(t: Table)
    ensures !LowZero(t, [])
  {
  }

  lemma AbsentPrefix(t: Table, vs: seq<nat>)
    requires vs != [] && UniqueOrZero(vs) && AllAbsent(t, vs)
    ensures UniqueOrZero(vs[..|vs| - 1]) && AllAbsent(t, vs[..|vs| - 1])
  {
  }

  lemma SlotValuesStep(t: Table, mid: Table, t': Table, n: nat, us: seq<nat>, v: nat)
    requires SlotValues(t, mid, n, us) && SlotValues(mid, t', n + |us|, [v])
    ensures SlotValues(t, t', n, us + [v])
  {
  }

  lemma LastAbsent(st: St, vs: seq<nat>, mid: Table)
    requires vs != [] && UniqueOrZero(vs) && AllAbsent(st.table, vs)
    requires SlotValues(st.table, mid, st.size, vs[..|vs| - 1]) && At(mid, 0).value == 0
    ensures vs[|vs| - 1] != 0 ==> !Holds(mid, vs[|vs| - 1])
  {
    var us, v := vs[..|vs| - 1], vs[|vs| - 1];
    if v != 0 {
      assert !Holds(st.table, v);
      forall i: nat | Active(mid, i)
        ensures At(mid, i).value != v
      {
        if st.size <= i < st.size + |us| {
          assert us[i - st.size] == vs[i - st.size];
        } else {
          assert At(mid, i).value == At(st.table, i).value;
          assert i != 0 ==> Active(st.table, i);
        }
      }
    }
  }

  /** Slot 0 precedes the last value now only if it did before the batch, and if it did before the batch but no
      longer does, then an earlier batch value already had it as low leaf. */
  lemma LastLowZero(h: Hasher, st: St, vs: seq<nat>, mid: Table)
    requires Good(h, st) && vs != [] && UniqueOrZero(vs) && SlotValues(st.table, mid, st.size, vs[..|vs| - 1])
    ensures var us, v := vs[..|vs| - 1], vs[|vs| - 1];
      LowZero(st.table, vs) <==> LowZero(st.table, us) || (v != 0 && IsPrev(mid, 0, v))
  {
    hide Linked; hide HashLeaf; hide Synced;
    var us, v := vs[..|vs| - 1], vs[|vs| - 1];
    assert vs == us + [v];
    SortedHeaded(st.table, st.size);
    if v != 0 && IsPrev(mid, 0, v) {
      forall j: nat | Active(st.table, j)
        ensures At(st.table, j).value == 0 || At(st.table, j).value > v
      {
        if j < st.size { assert Active(mid, j); }
      }
      assert IsPrev(st.table, 0, v);
    }
    if v != 0 && IsPrev(st.table, 0, v) && !IsPrev(mid, 0, v) {
      var j: nat :| Active(mid, j) && 0 < At(mid, j).value <= v;
      assert At(st.table, j).value == At(mid, j).value ==> Active(st.table, j);
      assert st.size <= j < st.size + |us|;
      var u := us[j - st.size];
      assert u in us && IsPrev(st.table, 0, u);
    }
  }

  /** One append keeps the values already stored, in their slots, and grows the tree by at most one slot. */
  lemma AppendOneKeeps(h: Hasher, st: St, v: nat)
    requires Headed(st.table, st.size)
    ensures var st' := AppendOne(h, st, v);
      && Headed(st'.table, st'.size) && st.size <= st'.size <= st.size + 1
      && (forall i: nat :: i < st.size ==> At(st'.table, i).value == At(st.table, i).value)
      && (v != 0 && Holds(st.table, v) ==> st'.size == st.size)
  {
    hide HashLeaf; hide Best; hide Insert;
    var p := Best(st.table, st.size, v);
    BestIsPrev(st.table, st.size, v);
    InsertSlots(st.table, st.size, p, v);
  }

  /** A value already present is skipped by one-at-a-time insertion, so the tree grows by less. */
  lemma {:induction false} AppendAllSkips(h: Hasher, st: St, vs: seq<nat>)
    requires Headed(st.table, st.size)
    ensures var st' := AppendAll(h, st, vs);
      && Headed(st'.table, st'.size) && st.size <= st'.size <= st.size + |vs|
      && (forall i: nat :: i < st.size ==> At(st'.table, i).value == At(st.table, i).value)
      && (!AllAbsent(st.table, vs) ==> st'.size < st.size + |vs|)
  {
    hide AppendOne; hide HashLeaf;
    if vs != [] {
      var us, v := vs[..|vs| - 1], vs[|vs| - 1];
      AppendAllSkips(h, st, us);
      var mid := AppendAll(h, st, us);
      AppendOneKeeps(h, mid, v);
      if !AllAbsent(st.table, vs) && AllAbsent(st.table, us) {
        LastPresent(st.table, mid.table, st.size, vs);
      }
    }
  }

  lemma LastPresent(t: Table, mid: Table, n: nat, vs: seq<nat>)
    requires vs != [] && !AllAbsent(t, vs) && AllAbsent(t, vs[..|vs| - 1]) && Headed(t, n)
    requires forall i: nat :: i < n ==> At(mid, i).value == At(t, i).value
    ensures vs[|vs| - 1] != 0 && Holds(mid, vs[|vs| - 1])
  {
    var us := vs[..|vs| - 1];
    assert forall k :: 0 <= k < |us| ==> us[k] == vs[k];
    var k :| 0 <= k < |vs| && vs[k] != 0 && Holds(t, vs[k]);
    var i: nat :| Active(t, i) && At(t, i).value == vs[k];
    assert i < n && Active(mid, i);
  }

  /** What a completed batch leaves behind. */
  ghost predicate BatchResult(h: Hasher, st: St, vs: seq<nat>, st': St) {
    && st'.size == st.size + |vs| && Linked(st'.table, st'.size, st.size)
    && (Sorted(st'.table, st'.size) <==> AllAbsent(st.table, vs))
    && SlotValues(st.table, st'.table, st.size, vs)
    && SyncedAbove(h, st'.leaves, st'.table)
    && LeafAt(st'.leaves, 0) == if LowZero(st.table, vs) then INITIAL_LEAF else LeafAt(st.leaves, 0)
  }

  /** A batch does what one-at-a-time insertion does exactly when its values are absent from the tree: then
      size and table agree, and the Merkle leaves agree but for slot 0, which the batch blanks when it is a low
      leaf; so the roots agree when it is not, and differ by just that leaf when it is. */
  lemma BatchRefinesAppend(h: Hasher, st: St, vs: seq<nat>, st': St, depth: nat)
    requires Good(h, st) && UniqueOrZero(vs) && BatchResult(h, st, vs, st')
    ensures var one := AppendAll(h, st, vs);
      && (AllAbsent(st.table, vs) <==> st'.size == one.size)
      && (AllAbsent(st.table, vs) <==> st'.size == one.size && SameTable(st'.table, one.table))
      && (AllAbsent(st.table, vs) && !LowZero(st.table, vs) ==>
            SubRoot(h, st'.leaves, depth, 0) == SubRoot(h, one.leaves, depth, 0))
      && (AllAbsent(st.table, vs) && LowZero(st.table, vs) ==>
            && LeafAt(one.leaves, 0) == HashLeaf(h, At(one.table, 0))
            && SubRoot(h, st'.leaves, depth, 0) == SubRoot(h, one.leaves[0 := INITIAL_LEAF], depth, 0))
  {
    hide Linked; hide HashLeaf; hide SubRoot; hide AppendAll; hide LowZero; hide AllAbsent; hide EncodeLeaf;
    var one := AppendAll(h, st, vs);
    if AllAbsent(st.table, vs) {
      AppendAllEffect(h, st, vs);
      LinkedUnique(st'.table, one.table, one.size, one.size);
      LeafAfterWrite(one.leaves, 0, INITIAL_LEAF);
      if LowZero(st.table, vs) {
        RootOfEqualLeaves(h, st'.leaves, one.leaves[0 := INITIAL_LEAF], depth);
      } else {
        RootOfEqualLeaves(h, st'.leaves, one.leaves, depth);
      }
    } else {
      SortedHeaded(st.table, st.size);
      AppendAllSkips(h, st, vs);
    }
  }

  /** The batch leaves a good view exactly when its values were absent. */
  lemma ResultGood(h: Hasher, st: St, vs: seq<nat>, st': St)
    requires Good(h, st) && BatchResult(h, st, vs, st')
    ensures AllAbsent(st.table, vs) <==> Good(h, st')
  {
    hide Linked; hide HashLeaf; hide AllAbsent;
    if AllAbsent(st.table, vs) && !LowZero(st.table, vs) { HeadUnchanged(h, st, vs, st'); }
  }

  /** With no value below every tree value, slot 0 keeps its successor. */
  lemma HeadUnchanged(h: Hasher, st: St, vs: seq<nat>, st': St)
    requires Good(h, st) && BatchResult(h, st, vs, st') && AllAbsent(st.table, vs) && !LowZero(st.table, vs)
    ensures At(st'.table, 0) == At(st.table, 0)
  {
    hide Linked; hide HashLeaf; hide Synced; hide SyncedAbove;
    var t, t', n := st.table, st'.table, st.size;
    SortedHeaded(t, n);
    SortedHeaded(t', st'.size);
    LinkedAt(t, n, n, 0);
    LinkedAt(t', st'.size, st'.size, 0);
    SortedDistinct(t', st'.size, st'.size);
    var a, b := At(t, 0), At(t', 0);
    forall j: nat | Active(t', j) && j >= n
      ensures a.nextValue != 0 && a.nextValue <= At(t', j).value
    {
      assert At(t', j).value in vs && !IsPrev(t, 0, At(t', j).value);
      var i: nat :| Active(t, i) && 0 < At(t, i).value <= At(t', j).value;
      assert Key(t, n, i) > Key(t, n, 0);
    }
    if a.nextValue != 0 {
      assert Active(t', a.nextIndex) && At(t', a.nextIndex).value == a.nextValue;
      assert b.nextValue != 0 && b.nextValue <= a.nextValue;
      assert b.nextIndex < n ==> Active(t, b.nextIndex);
    } else {
      assert b.nextValue != 0 ==> Active(t, b.nextIndex);
    }
  }

  /** A tree after `init` without prefill. */
  function FreshSt(h: Hasher): St {
    St(map[0 := ZERO_LEAF], 1, map[0 := HashLeaf(h, ZERO_LEAF)])
  }

  lemma FreshGood(h: Hasher, v: nat)
    requires v != 0
    ensures Good(h, FreshSt(h)) && AllAbsent(FreshSt(h).table, [v]) && LowZero(FreshSt(h).table, [v])
    ensures FreshSt(h).size == 1 && LeafAt(FreshSt(h).leaves, 0) == HashLeaf(h, LeafData(0, 0, 0))
  {
    hide HashLeaf;
    var t := FreshSt(h).table;
    assert forall i: nat :: Active(t, i) ==> i == 0;
    assert IsPrev(t, 0, v) && v in [v];
  }

  function Join(bufs: seq<Buffer>): Buffer {
    if bufs == [] then [] else Join(bufs[..|bufs| - 1]) + bufs[|bufs| - 1]
  }

  /** The number that three joined 32-byte fields hold at each place. */
  lemma JoinedFields(a: nat, b: nat, c: nat)
    requires a < Pow16(64) && b < Pow16(64) && c < Pow16(64)
    ensures var s := Join([ToBufferBE(a, 32), ToBufferBE(b, 32), ToBufferBE(c, 32)]);
      |s| == 96 && ToBigIntBE(s[..32]) == a && ToBigIntBE(s[32..64]) == b && ToBigIntBE(s[64..]) == c
  {
    hide ToBufferBE; hide ToBigIntBE; hide Pow16;
    var x, y, z := ToBufferBE(a, 32), ToBufferBE(b, 32), ToBufferBE(c, 32);
    JoinThree(x, y, z);
    var s := Join([x, y, z]);
    assert s[..32] == x && s[32..64] == y && s[64..] == z;
    BigEndianRoundTrip(a, 32);
    BigEndianRoundTrip(b, 32);
    BigEndianRoundTrip(c, 32);
  }

  lemma JoinThree(x: Buffer, y: Buffer, z: Buffer)
    ensures Join([x, y, z]) == x + y + z
  {
    assert [x, y, z][..2] == [x, y] && [x, y][..1] == [x] && [x][..0] == [];
    assert Join([x]) == [] + x && Join([x, y]) == Join([x]) + y;
  }

  ghost predicate FieldsFit(l: LeafData) {
    l.value < Pow16(64) && l.nextIndex < Pow16(64) && l.nextValue < Pow16(64)
  }

  /** What a stored leaf commits to: value, next index and next value, in this order, each as 32 big-endian bytes.  A
      hasher that joins its inputs shows them. */
  lemma StoredLeafCommits(h: Hasher, st: St, i: nat)
    requires Good(h, st) && (forall inputs :: h.compressInputs(inputs) == Join(inputs))
    requires FieldsFit(At(st.table, i)) && (if i > 0 then At(st.table, i).value != 0 else LeafAt(st.leaves, 0) != INITIAL_LEAF)
    ensures var b, l := LeafAt(st.leaves, i), At(st.table, i);
      |b| == 96 && ToBigIntBE(b[..32]) == l.value && ToBigIntBE(b[32..64]) == l.nextIndex && ToBigIntBE(b[64..]) == l.nextValue
  {
    hide ToBufferBE; hide ToBigIntBE; hide Join; hide Pow16; hide Linked; hide HashLeaf;
    var l := At(st.table, i);
    assert LeafAt(st.leaves, i) == HashLeaf(h, l);
    hide Good; hide At; hide LeafAt;
    HashShows(h, l);
    JoinedFields(l.value, l.nextIndex, l.nextValue);
  }

  lemma HashShows(h: Hasher, l: LeafData)
    requires forall inputs :: h.compressInputs(inputs) == Join(inputs)
    ensures HashLeaf(h, l) == Join([ToBufferBE(l.value, 32), ToBufferBE(l.nextIndex, 32), ToBufferBE(l.nextValue, 32)])
  {
    hide ToBufferBE; hide Join;
  }

  function LeftHasher(): Hasher {
    Hasher((l, r) => l, inputs => [1])
  }

  /** The condition on slot 0 is exact: for a hasher that returns its left input, whatever the tree, the batch of
      absent values and the depth, the roots agree only if slot 0 is nobody's low leaf.  (FreshGood: in a fresh
      tree it is everybody's.) */
  lemma BlankedHeadChangesRoot(st: St, vs: seq<nat>, st': St, depth: nat)
    requires Good(LeftHasher(), st) && UniqueOrZero(vs) && AllAbsent(st.table, vs)
    requires BatchResult(LeftHasher(), st, vs, st')
    ensures SubRoot(LeftHasher(), st'.leaves, depth, 0) == SubRoot(LeftHasher(), AppendAll(LeftHasher(), st, vs).leaves, depth, 0)
      <==> !LowZero(st.table, vs)
  {
    hide AppendAll; hide Linked; hide LowZero; hide AllAbsent; hide ToBufferBE; hide Synced; hide SyncedAbove;
    var h := LeftHasher();
    AppendAllEffect(h, st, vs);
    LeftmostRoot(h, AppendAll(h, st, vs).leaves, depth);
    LeftmostRoot(h, st'.leaves, depth);
    assert |INITIAL_LEAF| == 32;
  }

  lemma {:induction false} LeftmostRoot(h: Hasher, m: LeafMap, depth: nat)
    requires h == LeftHasher()
    ensures SubRoot(h, m, depth, 0) == LeafAt(m, 0)
  {
    if depth > 0 { LeftmostRoot(h, m, depth - 1); }
  }
}
