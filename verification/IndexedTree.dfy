/** The nullifier tree: a Merkle tree whose leaves form a sorted linked list. */
module IndexedTree {
  import opened Bytes
  import opened MerkleRoot
  import opened MerkleTree
  import opened LinkedLeaves
  import opened BatchList
  import opened IndexedSpec
  import opened IndexedBatch

  /** The values that a list of leaf buffers stands for. */
  function Values(leaves: seq<Buffer>): (vs: seq<nat>)
    ensures |vs| == |leaves|
    ensures forall i :: 0 <= i < |leaves| ==> vs[i] == ToBigIntBE(leaves[i])
  {
    if leaves == [] then [] else [ToBigIntBE(leaves[0])] + Values(leaves[1..])
  }

  lemma TakeLast(vs: seq<nat>, i: nat)
    requires i < |vs|
    ensures vs[..i + 1] == vs[..i] + [vs[i]]
  {
  }

  /** The values that `init` appends. */
  function Prefill(n: nat): (vs: seq<nat>)
    ensures |vs| == if n == 0 then 0 else n - 1
    ensures forall i :: 0 <= i < |vs| ==> vs[i] == (i + 1) % 256
  {
    if n <= 1 then [] else Prefill(n - 1) + [(n - 1) % 256]
  }

  lemma OneByte(b: byte)
    ensures ToBigIntBE([b]) == b as int
  {
    assert ToHex([b]) == [b as int / 16, b as int % 16];
    assert [b as int / 16, b as int % 16][..1] == [b as int / 16];
    assert [b as int / 16][..0] == [];
    assert HexValue([b as int / 16]) == 16 * HexValue([b as int / 16][..0]) + b as int / 16;
  }

  /** A tree prefilled with n <= 256 leaves holds 0, 1, ..., n - 1, each slot pointing at the next. */
  lemma PrefilledTable(h: Hasher, n: nat, i: nat)
    requires 1 <= n <= 256 && i < n
    ensures var st := AppendAll(h, FreshSt(h), Prefill(n));
      var next := if i + 1 < n then i + 1 else 0;
      st.size == n && At(st.table, i) == LeafData(i, next, next)
  {
    hide AppendAll; hide HashLeaf; hide Linked; hide LowZero; hide Synced; hide PointsToNext; hide AllAbsent; hide UniqueOrZero; hide FreshSt;
    hide SlotValues;
    FreshGood(h, 1);
    PrefillAbsent(h, Prefill(n));
    PrefillUnique(n);
    AppendAllEffect(h, FreshSt(h), Prefill(n));
    var st := AppendAll(h, FreshSt(h), Prefill(n));
    PrefilledValues(h, st.table, n);
    LinkedAt(st.table, n, n, i);
    ConsecutiveNext(st.table, n, i);
  }

  lemma PrefillUnique(n: nat)
    requires n <= 256
    ensures UniqueOrZero(Prefill(n))
  {
  }

  lemma PrefilledValues(h: Hasher, t: Table, n: nat)
    requires 1 <= n <= 256 && SlotValues(FreshSt(h).table, t, FreshSt(h).size, Prefill(n))
    ensures FreshSt(h).size + |Prefill(n)| == n && forall j: nat :: At(t, j).value == if j < n then j else 0
  {
    hide HashLeaf; hide Prefill;
    var vs := Prefill(n);
    assert FreshSt(h).size == 1 && |vs| == n - 1;
    forall j: nat
      ensures At(t, j).value == if j < n then j else 0
    {
      assert At(FreshSt(h).table, j).value == 0;
      if 1 <= j < n { assert vs[j - 1] == j % 256 == j; }
    }
  }

  lemma PrefillAbsent(h: Hasher, vs: seq<nat>)
    ensures AllAbsent(FreshSt(h).table, vs)
  {
    hide HashLeaf;
  }

  lemma ConsecutiveNext(t: Table, n: nat, i: nat)
    requires i < n && PointsToNext(t, n, i)
    requires forall j: nat :: At(t, j).value == if j < n then j else 0
    ensures var next := if i + 1 < n then i + 1 else 0; At(t, i) == LeafData(i, next, next)
  {
    if i + 1 < n { assert Active(t, i + 1); }
  }

  /** Values above 255 wrap around: 0 takes an empty slot, the others are present by then and are skipped. */
  function PrefilledSize(n: nat): nat {
    if n == 0 then 1 else if n <= 256 then n else 256 + (n - 1) / 256
  }

  lemma PrefilledSizeStep(n: nat)
    requires n > 1
    ensures PrefilledSize(n) == PrefilledSize(n - 1) + if n <= 256 || (n - 1) % 256 == 0 then 1 else 0
  {
    if n > 257 { assert (n - 1) / 256 == (n - 2) / 256 + if (n - 1) % 256 == 0 then 1 else 0; }
  }

  /** The size of a tree after any prefill, and the values it holds. */
  ghost predicate Prefilled(h: Hasher, st: St, n: nat) {
    && Good(h, st) && st.size == PrefilledSize(n)
    && forall v: nat :: v != 0 ==> (Holds(st.table, v) <==> v < n && v < 256)
  }

  lemma PrefillStep(h: Hasher, st: St, n: nat)
    requires n > 1 && Prefilled(h, st, n - 1)
    ensures Prefilled(h, AppendOne(h, st, (n - 1) % 256), n)
  {
    hide AppendOne; hide Good; hide Holds; hide PrefilledSize; hide SlotValues; hide Headed;
    var v := (n - 1) % 256;
    PrefilledSizeStep(n);
    if v == 0 || n <= 256 {
      assert n <= 256 ==> v == n - 1;
      AppendOneEffect(h, st, v);
      StandardIndexedTree.GoodHeaded(h, st);
      HoldsAfter(st.table, AppendOne(h, st, v).table, st.size, v);
    } else {
      AppendPresent(h, st, v);
    }
  }

  lemma PrefillNone(h: Hasher)
    ensures Prefilled(h, FreshSt(h), 1) && Prefilled(h, FreshSt(h), 0)
  {
    FreshGood(h, 1);
    hide HashLeaf; hide Good;
  }

  lemma {:induction false} PrefillEffect(h: Hasher, n: nat)
    ensures Prefilled(h, AppendAll(h, FreshSt(h), Prefill(n)), n)
  {
    hide Prefilled; hide FreshSt; hide AppendOne;
    if n <= 1 {
      PrefillNone(h);
    } else {
      PrefillEffect(h, n - 1);
      PrefillStep(h, AppendAll(h, FreshSt(h), Prefill(n - 1)), n);
      AppendAllLast(h, FreshSt(h), Prefill(n - 1), (n - 1) % 256);
    }
  }

  lemma HoldsAfter(t: Table, t': Table, n: nat, v: nat)
    requires Headed(t, n) && SlotValues(t, t', n, [v])
    ensures forall w: nat :: w != 0 ==> (Holds(t', w) <==> Holds(t, w) || w == v)
  {
    forall w: nat | w != 0
      ensures Holds(t', w) <==> Holds(t, w) || w == v
    {
      if Holds(t, w) {
        var i: nat :| Active(t, i) && At(t, i).value == w;
        assert Active(t', i) && At(t', i).value == w;
      }
      if w == v { assert Active(t', n) && At(t', n).value == w; }
      if Holds(t', w) {
        var i: nat :| Active(t', i) && At(t', i).value == w;
        assert i != n ==> Active(t, i) && At(t, i).value == w;
      }
    }
  }

  /** A value that is present changes nothing. */
  lemma AppendPresent(h: Hasher, st: St, v: nat)
    requires Good(h, st) && v != 0 && Holds(st.table, v)
    ensures AppendOne(h, st, v) == st
  {
    hide HashLeaf; hide Best; hide Insert;
    StandardIndexedTree.GoodHeaded(h, st);
    hide Linked;
    BestIsPrev(st.table, st.size, v);
  }

  /** What `batchInsert` returns, or that it throws. */
  datatype BatchOutcome = Inserted(witnesses: seq<Witness>, subtreePath: seq<Buffer>) | Failed

  method FindMinIndex(values: seq<int>) returns (minIndex: nat)
    ensures values == [] ==> minIndex == 0
    ensures values != [] ==> minIndex < |values|
    ensures forall j :: 0 <= j < |values| ==> values[minIndex] <= values[j]
    ensures forall j :: 0 <= j < minIndex ==> values[minIndex] < values[j]
  {
    if values == [] { return 0; }
    minIndex := 0;
    for i := 1 to |values|
      invariant minIndex < |values| && minIndex < i
      invariant forall j :: 0 <= j < i ==> values[minIndex] <= values[j]
      invariant forall j :: 0 <= j < minIndex ==> values[minIndex] < values[j]
    {
      if values[minIndex] > values[i] { minIndex := i; }
    }
  }

  class StandardIndexedTree {
    const tree: TreeBase
    var leaves: Table
    var cachedLeaves: Table

    function LeafTable(includeUncommitted: bool): Table
      reads this
    {
      if includeUncommitted then leaves + cachedLeaves else leaves
    }

    ghost function State(u: bool): St
      reads this, tree
    {
      St(LeafTable(u), tree.GetNumLeaves(u), tree.Leaves(u))
    }

    /** A view holds one sorted list, within the capacity, and the Merkle leaves are those of the list. */
    ghost predicate ViewOk(u: bool)
      reads this, tree
    {
      Good(tree.hasher, State(u)) && tree.GetNumLeaves(u) <= Pow2(tree.depth)
    }

    /** What every operation keeps, even one that throws: rolling back recovers from it. */
    ghost predicate Recoverable()
      reads this, tree
    {
      tree.Valid() && ViewOk(false)
    }

    ghost predicate Valid()
      reads this, tree
    {
      Recoverable() && ViewOk(true)
    }

    constructor (tree: TreeBase)
      ensures this.tree == tree && leaves == cachedLeaves == map[]
    {
      this.tree := tree;
      leaves, cachedLeaves := map[], map[];
    }

    /** Creates the head of the list and prefills it with the values 1, 2, ... taken modulo 256, as they are
        written to one-byte buffers; then commits. */
    method Init(prefilledSize: nat) returns (ok: bool)
      requires tree.Valid() && tree.latest == tree.committed == map[] && tree.size == 0 && tree.cachedSize == None
      requires leaves == cachedLeaves == map[]
      modifies this, tree
      ensures tree.Valid()
      ensures ok <==> AppendAll(tree.hasher, FreshSt(tree.hasher), Prefill(prefilledSize)).size <= Pow2(tree.depth)
      ensures ok <==> PrefilledSize(prefilledSize) <= Pow2(tree.depth)
      ensures ok ==> Valid() && State(false) == State(true) == AppendAll(tree.hasher, FreshSt(tree.hasher), Prefill(prefilledSize))
    {
      hide Linked; hide AppendOne; hide Synced; hide HashLeaf; hide ToBigIntBE; hide Coherent; hide SubRoot; hide PrefilledSize;
      PrefillEffect(tree.hasher, prefilledSize);
      assert AppendAll(tree.hasher, FreshSt(tree.hasher), Prefill(prefilledSize)).size == PrefilledSize(prefilledSize);
      hide Prefilled; hide Prefill; hide TreeBase.Valid;
      leaves := leaves[0 := ZERO_LEAF];
      var _ := WriteLeaf(HashLeaf(tree.hasher, ZERO_LEAF), 0);
      ghost var st := FreshSt(tree.hasher);
      FreshGood(tree.hasher, 1);
      assert LeafTable(true) == st.table;
      assert State(true) == st;
      hide Good; hide AppendAll; hide FreshSt;
      ok := AppendBytes(prefilledSize);
      if ok { Commit(); }
    }

    /** The loop of `init`. */
    method AppendBytes(prefilledSize: nat) returns (ok: bool)
      requires tree.Valid() && ViewOk(true)
      modifies this`cachedLeaves, tree
      ensures tree.Valid()
      ensures ok <==> AppendAll(tree.hasher, old(State(true)), Prefill(prefilledSize)).size <= Pow2(tree.depth)
      ensures ok ==> ViewOk(true) && State(true) == AppendAll(tree.hasher, old(State(true)), Prefill(prefilledSize))
    {
      hide Linked; hide AppendOne; hide ToBigIntBE; hide Good; hide TreeBase.Valid; hide AppendAll; hide Prefill;
      ghost var st, vs := State(true), Prefill(prefilledSize);
      AppendNone(tree.hasher, st);
      assert vs[..0] == [];
      for i := 1 to if prefilledSize >= 1 then prefilledSize else 1
        invariant tree.Valid() && ViewOk(true)
        invariant State(true) == AppendAll(tree.hasher, st, vs[..i - 1])
      {
        ghost var mid := State(true);
        TakeLast(vs, i - 1);
        AppendAllLast(tree.hasher, st, vs[..i - 1], vs[i - 1]);
        OneByte((i % 256) as byte);
        ok := AppendLeaf([(i % 256) as byte]);
        if !ok {
          AppendOneFull(tree.hasher, mid, vs[i - 1]);
          AppendAllMonotone(tree.hasher, st, vs, i);
          return;
        }
      }
      assert vs[..|vs|] == vs;
      ok := true;
    }

    /** The greatest leaf at or below the value, by the differences of a linear scan. */
    method FindIndexOfPreviousValue(newValue: nat, includeUncommitted: bool) returns (index: nat, alreadyPresent: bool)
      ensures Headed(LeafTable(includeUncommitted), tree.GetNumLeaves(includeUncommitted)) ==>
        && index < tree.GetNumLeaves(includeUncommitted) && index in LeafTable(includeUncommitted)
        && IsPrev(LeafTable(includeUncommitted), index, newValue)
        && (alreadyPresent <==> Holds(LeafTable(includeUncommitted), newValue))
        && (alreadyPresent <==> At(LeafTable(includeUncommitted), index).value == newValue)
    {
      var numLeaves := tree.GetNumLeaves(includeUncommitted);
      ghost var t := LeafTable(includeUncommitted);
      var diff: seq<int> := [];
      for i := 0 to numLeaves
        invariant |diff| == i
        invariant forall j :: 0 <= j < i ==> Diff(t, newValue, j, diff[j])
      {
        if i !in LeafTable(includeUncommitted) {
          diff := diff + [newValue];
        } else {
          var storedLeaf := LeafTable(includeUncommitted)[i];
          if storedLeaf.value > newValue {
            diff := diff + [newValue];
          } else if storedLeaf.value == newValue {
            if Headed(t, numLeaves) { PresentIsPrev(t, numLeaves, newValue, i, diff); }
            return i, true;
          } else {
            diff := diff + [newValue - storedLeaf.value];
          }
        }
      }
      index := FindMinIndex(diff);
      alreadyPresent := false;
      if Headed(t, numLeaves) { NearestIsPrev(t, numLeaves, newValue, diff, index); }
    }

    /** The entry that the scan of an index other than a hit leaves in the list of differences. */
    static ghost predicate Diff(t: Table, v: nat, j: nat, d: int) {
      && (j in t ==> t[j].value != v)
      && d == if j in t && t[j].value <= v then v - t[j].value else v
    }

    static lemma PresentIsPrev(t: Table, n: nat, v: nat, i: nat, diff: seq<int>)
      requires Headed(t, n) && i < n && i in t && t[i].value == v
      requires |diff| == i && forall j :: 0 <= j < i ==> Diff(t, v, j, diff[j])
      ensures IsPrev(t, i, v) && Holds(t, v)
    {
      assert i > 0 ==> Diff(t, v, 0, diff[0]);
    }

    static lemma NearestIsPrev(t: Table, n: nat, v: nat, diff: seq<int>, m: nat)
      requires Headed(t, n) && |diff| == n && m < n
      requires forall j :: 0 <= j < n ==> Diff(t, v, j, diff[j])
      requires forall j :: 0 <= j < n ==> diff[m] <= diff[j]
      requires forall j :: 0 <= j < m ==> diff[m] < diff[j]
      ensures m in t && IsPrev(t, m, v) && !Holds(t, v) && At(t, m).value != v
    {
      assert Diff(t, v, 0, diff[0]) && Diff(t, v, m, diff[m]);
      assert v != 0 && diff[0] == v;
      forall j: nat | Active(t, j)
        ensures At(t, j).value != v && (At(t, j).value <= At(t, m).value || At(t, j).value > v)
      {
        assert Diff(t, v, j, diff[j]);
      }
    }

    /** Writes one Merkle leaf and grows the size to cover it; an index beyond the capacity throws. */
    method WriteLeaf(leaf: Buffer, index: nat) returns (ok: bool)
      requires tree.Valid()
      modifies tree
      ensures tree.Valid() && tree.committed == old(tree.committed)
      ensures tree.GetNumLeaves(false) == old(tree.GetNumLeaves(false))
      ensures ok <==> index < Pow2(tree.depth)
      ensures tree.latest == if ok then old(tree.latest)[index := leaf] else old(tree.latest)
      ensures tree.GetNumLeaves(true) == if ok && index >= old(tree.GetNumLeaves(true)) then index + 1 else old(tree.GetNumLeaves(true))
    {
      if index > tree.MaxIndex() { return false; }
      tree.AddLeafToCacheAndHashToRoot(leaf, index);
      if index >= tree.GetNumLeaves(true) { tree.SetCachedSize(index + 1); }
      ok := true;
    }

    /** `updateLeaf`: the table entry is cached before an out-of-range index throws. */
    method UpdateLeaf(leaf: LeafData, index: nat) returns (ok: bool)
      requires tree.Valid()
      modifies this`cachedLeaves, tree
      ensures tree.Valid() && State(false) == old(State(false))
      ensures ok <==> index < Pow2(tree.depth)
      ensures LeafTable(true) == old(LeafTable(true))[index := leaf]
      ensures ok ==> tree.latest == old(tree.latest)[index := EncodeLeaf(tree.hasher, leaf)]
      ensures ok ==> tree.GetNumLeaves(true) == if index >= old(tree.GetNumLeaves(true)) then index + 1 else old(tree.GetNumLeaves(true))
    {
      var encodedLeaf := if leaf.value == 0 then INITIAL_LEAF else HashLeaf(tree.hasher, leaf);
      assert leaves + cachedLeaves[index := leaf] == (leaves + cachedLeaves)[index := leaf];
      cachedLeaves := cachedLeaves[index := leaf];
      ok := WriteLeaf(encodedLeaf, index);
    }

    /** Inserts one value.  Beyond the capacity it throws; for a value that is not zero the low leaf has by then
        been redirected to the slot that does not exist. */
    method AppendLeaf(leaf: Buffer) returns (ok: bool)
      requires tree.Valid() && ViewOk(true)
      modifies this`cachedLeaves, tree
      ensures tree.Valid() && State(false) == old(State(false))
      ensures var v := ToBigIntBE(leaf);
        ok <==> (v != 0 && old(Holds(LeafTable(true), v))) || old(tree.GetNumLeaves(true)) < Pow2(tree.depth)
      ensures ok ==> ViewOk(true) && State(true) == AppendOne(tree.hasher, old(State(true)), ToBigIntBE(leaf))
      ensures !ok ==> LeafTable(true) == AppendOne(tree.hasher, old(State(true)), ToBigIntBE(leaf)).table
      ensures !ok ==> tree.GetNumLeaves(true) == old(tree.GetNumLeaves(true))
    {
      hide Linked; hide HashLeaf; hide Best; hide Good; hide IsPrev; hide ToBigIntBE; hide Insert; hide TreeBase.Valid; hide Headed;
      var newValue := ToBigIntBE(leaf);
      if newValue == 0 {
        var newSize := (if tree.cachedSize.Some? then tree.cachedSize.value else tree.size) + 1;
        if newSize - 1 > tree.MaxIndex() { return false; }
        AppendOneEffect(tree.hasher, State(true), 0);
        tree.SetCachedSize(newSize);
        return true;
      }
      ok := AppendNonZero(newValue);
    }

    /** The rest of `appendLeaf`, for a value other than zero. */
    method AppendNonZero(newValue: nat) returns (ok: bool)
      requires tree.Valid() && ViewOk(true) && newValue != 0
      modifies this`cachedLeaves, tree
      ensures tree.Valid() && State(false) == old(State(false))
      ensures ok <==> old(Holds(LeafTable(true), newValue)) || old(tree.GetNumLeaves(true)) < Pow2(tree.depth)
      ensures ok ==> ViewOk(true) && State(true) == AppendOne(tree.hasher, old(State(true)), newValue)
      ensures !ok ==> LeafTable(true) == AppendOne(tree.hasher, old(State(true)), newValue).table
      ensures !ok ==> tree.GetNumLeaves(true) == old(tree.GetNumLeaves(true))
    {
      hide Linked; hide HashLeaf; hide Best; hide Good; hide IsPrev; hide Insert; hide TreeBase.Valid; hide Headed; hide Holds; hide AppendOne;
      hide SlotValues;
      ghost var st := State(true);
      GoodHeaded(tree.hasher, st);
      var index, alreadyPresent := FindIndexOfPreviousValue(newValue, true);
      PrevStable(st.table, st.size, st.table, index, newValue);
      var previousLeafCopy := LeafTable(true)[index];
      var newLeaf := LeafData(newValue, previousLeafCopy.nextIndex, previousLeafCopy.nextValue);
      if alreadyPresent {
        AppendPresent(tree.hasher, st, newValue);
        return true;
      }
      AppendOneEffect(tree.hasher, st, newValue);
      var currentSize := tree.GetNumLeaves(true);
      previousLeafCopy := LeafData(previousLeafCopy.value, currentSize, newLeaf.value);
      CacheTwo(leaves, cachedLeaves, currentSize, newLeaf, index, previousLeafCopy);
      InsertIs(tree.hasher, st, index, newValue, newLeaf, previousLeafCopy);
      cachedLeaves := cachedLeaves[currentSize := newLeaf];
      cachedLeaves := cachedLeaves[index := previousLeafCopy];
      var _ := WriteLeaf(HashLeaf(tree.hasher, previousLeafCopy), index);
      ok := WriteLeaf(HashLeaf(tree.hasher, newLeaf), tree.GetNumLeaves(true));
      assert ok ==> State(true) == AppendOne(tree.hasher, st, newValue);
    }

    static lemma GoodHeaded(h: Hasher, st: St)
      requires Good(h, st)
      ensures Sorted(st.table, st.size) && Headed(st.table, st.size)
    {
    }

    /** The two writes to the table and the two to the Merkle leaves are what one append means. */
    static lemma InsertIs(h: Hasher, st: St, p: nat, v: nat, newLeaf: LeafData, low: LeafData)
      requires p < st.size && p in st.table && p == Best(st.table, st.size, v) && v != 0 && st.table[p].value != v
      requires newLeaf == LeafData(v, st.table[p].nextIndex, st.table[p].nextValue)
      requires low == LeafData(st.table[p].value, st.size, v)
      ensures AppendOne(h, st, v) == St(st.table[st.size := newLeaf][p := low], st.size + 1,
                                        st.leaves[p := HashLeaf(h, low)][st.size := HashLeaf(h, newLeaf)])
    {
      hide HashLeaf;
    }

    static lemma CacheTwo(leaves: Table, cached: Table, i: nat, a: LeafData, j: nat, b: LeafData)
      ensures leaves + cached[i := a][j := b] == (leaves + cached)[i := a][j := b]
    {
    }

    /** Appends in order, up to the first leaf that throws. */
    method AppendLeaves(newLeaves: seq<Buffer>) returns (ok: bool)
      requires tree.Valid() && ViewOk(true)
      modifies this`cachedLeaves, tree
      ensures tree.Valid() && State(false) == old(State(false))
      ensures ok <==> AppendAll(tree.hasher, old(State(true)), Values(newLeaves)).size <= Pow2(tree.depth)
      ensures ok ==> ViewOk(true) && State(true) == AppendAll(tree.hasher, old(State(true)), Values(newLeaves))
    {
      hide Linked; hide AppendOne; hide AppendAll; hide Good; hide TreeBase.Valid; hide Pow2; hide Holds; hide ToBigIntBE;
      ghost var st, vs := State(true), Values(newLeaves);
      AppendNone(tree.hasher, st);
      for i := 0 to |newLeaves|
        invariant tree.Valid() && ViewOk(true) && State(false) == old(State(false))
        invariant State(true) == AppendAll(tree.hasher, st, vs[..i])
      {
        ghost var mid := State(true);
        TakeLast(vs, i);
        AppendAllLast(tree.hasher, st, vs[..i], vs[i]);
        ok := AppendLeaf(newLeaves[i]);
        if !ok {
          AppendOneFull(tree.hasher, mid, vs[i]);
          AppendAllMonotone(tree.hasher, st, vs, i + 1);
          return;
        }
      }
      assert vs[..|vs|] == vs;
      ok := true;
    }

    static lemma AppendNone(h: Hasher, st: St)
      ensures AppendAll(h, st, []) == st
    {
    }

    static lemma AppendOneFull(h: Hasher, st: St, v: nat)
      requires Good(h, st) && !(v != 0 && Holds(st.table, v))
      ensures AppendOne(h, st, v).size == st.size + 1
    {
      AppendOneEffect(h, st, v);
    }

    static lemma {:induction false} AppendAllMonotone(h: Hasher, st: St, vs: seq<nat>, k: nat)
      requires k <= |vs|
      ensures AppendAll(h, st, vs[..k]).size <= AppendAll(h, st, vs).size
    {
      if k < |vs| {
        var us := vs[..|vs| - 1];
        AppendAllMonotone(h, st, us, k);
        assert us[..k] == vs[..k];
        hide HashLeaf;
      } else {
        assert vs[..k] == vs;
      }
    }

    /** The committed list becomes the latest one. */
    method Commit()
      requires tree.Valid() && ViewOk(true)
      modifies this, tree
      ensures Valid() && State(false) == State(true) == old(State(true))
    {
      hide Good; hide TreeBase.Valid;
      tree.Commit();
      leaves := leaves + cachedLeaves;
      cachedLeaves := map[];
      assert leaves + cachedLeaves == leaves;
    }

    /** The latest list becomes the committed one, whatever happened since the last commit. */
    method Rollback()
      requires Recoverable()
      modifies this, tree
      ensures Valid() && State(true) == State(false) == old(State(false))
    {
      hide Good; hide TreeBase.Valid;
      tree.Rollback();
      cachedLeaves := map[];
      assert leaves + cachedLeaves == leaves;
    }

    /** Path of the subtree that holds the next free slot; a subtree higher than the tree throws. */
    method GetSubtreeSiblingPath(subtreeHeight: nat, includeUncommitted: bool) returns (path: Option<seq<Buffer>>)
      requires tree.Valid()
      ensures path.Some? <==> subtreeHeight <= tree.depth
      ensures path.Some? ==>
        && |path.value| == tree.depth - subtreeHeight
        && IsPath(tree.hasher, tree.Leaves(includeUncommitted), subtreeHeight,
                  Shift(tree.GetNumLeaves(includeUncommitted), subtreeHeight), path.value)
    {
      var next := tree.GetNumLeaves(includeUncommitted);
      var full := tree.GetSiblingPath(next, includeUncommitted);
      if subtreeHeight > tree.depth { return None; }
      DropPath(tree.hasher, tree.Leaves(includeUncommitted), next, full, subtreeHeight);
      path := Some(full[subtreeHeight..]);
    }

    static lemma DropPath(h: Hasher, m: LeafMap, j: nat, path: seq<Buffer>, k: nat)
      requires k <= |path| && IsPath(h, m, 0, j, path)
      ensures IsPath(h, m, k, Shift(j, k), path[k..])
    {
      forall t | 0 <= t < |path[k..]|
        ensures path[k..][t] == SubRoot(h, m, k + t, Sibling(Shift(Shift(j, k), t)))
      {
        ShiftAdd(j, k, t);
        assert path[k..][t] == path[k + t] == SubRoot(h, m, 0 + (k + t), Sibling(Shift(j, k + t)));
      }
    }

    /** The search of the pending leaves for a low leaf; the length of the list when there is none. */
    static method FindPending(pending: seq<LeafData>, newValue: nat) returns (j: nat)
      ensures j <= |pending| && (j < |pending| ==> Fits(pending[j], newValue))
      ensures forall k :: 0 <= k < j ==> !Fits(pending[k], newValue)
    {
      for i := 0 to |pending|
        invariant forall k :: 0 <= k < i ==> !Fits(pending[k], newValue)
      {
        if pending[i].value == 0 { continue; }
        if pending[i].value < newValue && (pending[i].nextValue > newValue || pending[i].nextValue == 0) {
          return i;
        }
      }
      return |pending|;
    }

    /** Reads the low leaf and its path, then points the leaf at the new value. */
    method RedirectLowLeaf(index: nat, slot: nat, newValue: nat) returns (lowLeaf: LeafData, siblingPath: seq<Buffer>)
      requires tree.Valid() && index in LeafTable(true) && index < tree.GetNumLeaves(true) <= Pow2(tree.depth)
      modifies this`cachedLeaves, tree
      ensures tree.Valid() && State(false) == old(State(false)) && tree.GetNumLeaves(true) == old(tree.GetNumLeaves(true))
      ensures lowLeaf == old(LeafTable(true))[index]
      ensures |siblingPath| == tree.depth && IsPath(tree.hasher, old(tree.latest), 0, index, siblingPath)
      ensures LeafTable(true) == old(LeafTable(true))[index := LeafData(lowLeaf.value, slot, newValue)]
      ensures tree.latest == old(tree.latest)[index := EncodeLeaf(tree.hasher, LeafData(lowLeaf.value, slot, newValue))]
    {
      lowLeaf := LeafTable(true)[index];
      siblingPath := tree.GetSiblingPath(index, true);
      hide IsPath; hide Coherent; hide SubRoot; hide EncodeLeaf;
      var _ := UpdateLeaf(LeafData(lowLeaf.value, slot, newValue), index);
    }

    /** The first loop of the batch insertion: finds and redirects the low leaves, in the tree or among the
        pending ones, and records the witnesses. */
    method LinkBatch(newLeaves: seq<Buffer>, treeHeight: nat) returns (pending: seq<LeafData>, witnesses: seq<Witness>, ghost l: Loop)
      requires tree.Valid() && ViewOk(true) && UniqueOrZero(Values(newLeaves))
      modifies this`cachedLeaves, tree
      ensures tree.Valid() && State(false) == old(State(false)) && tree.GetNumLeaves(true) == old(tree.GetNumLeaves(true))
      ensures LoopInv(tree.hasher, tree.depth, old(State(true)), Values(newLeaves), treeHeight, l)
      ensures |pending| == |newLeaves| && l.pending == pending && l.witnesses == witnesses
      ensures l.t == LeafTable(true) && l.maps[|newLeaves|] == tree.latest
    {
      hide Linked; hide LoopInv; hide Good; hide ToBigIntBE; hide TreeBase.Valid; hide SubRoot; hide Insert; hide IsPrev;
      hide Blocked; hide Fits; hide HashLeaf; hide EncodeLeaf; hide Touch; hide IsPath; hide UniqueOrZero; hide Headed;
      var touched: Touched := map[];
      pending, witnesses := [], [];
      var startInsertionIndex := tree.GetNumLeaves(true);
      ghost var st, vs := State(true), Values(newLeaves);
      l := Loop(st.table, [], map[], st.table, [st.leaves], []);
      LoopStart(tree.hasher, tree.depth, st, vs, treeHeight);
      for i := 0 to |newLeaves|
        invariant tree.Valid() && State(false) == old(State(false)) && tree.GetNumLeaves(true) == startInsertionIndex
        invariant LoopInv(tree.hasher, tree.depth, st, vs, treeHeight, l)
        invariant |pending| == i && |l.maps| == i + 1 && l.pending == pending && l.witnesses == witnesses && l.touched == touched
        invariant l.t == LeafTable(true) && l.maps[i] == tree.latest
      {
        var newValue := ToBigIntBE(newLeaves[i]);
        if newValue == 0 {
          LoopZero(tree.hasher, tree.depth, st, vs, treeHeight, l);
          l := Loop(l.t, l.pending + [ZERO_LEAF], l.touched, l.c, l.maps + [l.maps[i]], l.witnesses + [EmptyWitness(treeHeight)]);
          pending := pending + [ZERO_LEAF];
          witnesses := witnesses + [EmptyWitness(treeHeight)];
          continue;
        }
        LoopHeaded(tree.hasher, tree.depth, st, vs, treeHeight, l);
        var index, _ := FindIndexOfPreviousValue(newValue, true);
        LoopPrev(tree.hasher, tree.depth, st, vs, treeHeight, l, index, newValue);
        if Blocked(touched, index, newValue) {
          ghost var fit := LoopSearch(tree.hasher, tree.depth, st, vs, treeHeight, l, index);
          var j := FindPending(pending, newValue);
          assert j <= fit;
          LoopPending(tree.hasher, tree.depth, st, vs, treeHeight, l, index, j);
          var low := pending[j];
          l := Loop(l.t, l.pending[j := LeafData(low.value, st.size + i, newValue)] + [LeafData(newValue, low.nextIndex, low.nextValue)],
                    l.touched, Insert(l.c, st.size + i, st.size + j, newValue), l.maps + [l.maps[i]], l.witnesses + [EmptyWitness(treeHeight)]);
          pending := pending[j := LeafData(low.value, startInsertionIndex + i, newValue)] + [LeafData(newValue, low.nextIndex, low.nextValue)];
          witnesses := witnesses + [EmptyWitness(treeHeight)];
        } else {
          touched := Touch(touched, index, newValue);
          var lowLeaf, siblingPath := RedirectLowLeaf(index, startInsertionIndex + i, newValue);
          LoopTree(tree.hasher, tree.depth, st, vs, treeHeight, l, index, siblingPath);
          l := TreeNext(tree.hasher, st.size, newValue, l, l.maps[i], index, siblingPath);
          witnesses := witnesses + [Witness(lowLeaf, siblingPath, index)];
          pending := pending + [LeafData(newValue, lowLeaf.nextIndex, lowLeaf.nextValue)];
        }
      }
    }

    static lemma LoopHeaded(h: Hasher, depth: nat, st: St, vs: seq<nat>, treeHeight: nat, l: Loop)
      requires LoopInv(h, depth, st, vs, treeHeight, l)
      ensures Headed(l.t, st.size)
    {
      SortedHeaded(st.table, st.size);
      hide Linked;
    }

    static lemma LoopPrev(h: Hasher, depth: nat, st: St, vs: seq<nat>, treeHeight: nat, l: Loop, p: nat, v: nat)
      requires LoopInv(h, depth, st, vs, treeHeight, l) && IsPrev(l.t, p, v)
      ensures IsPrev(st.table, p, v) && p < st.size
    {
      hide Linked; hide TouchedOk; hide Chain; hide MerkleInv;
      PrevStable(st.table, st.size, l.t, p, v);
    }

    static lemma LoopSearch(h: Hasher, depth: nat, st: St, vs: seq<nat>, treeHeight: nat, l: Loop, p: nat) returns (j: nat)
      requires LoopInv(h, depth, st, vs, treeHeight, l) && |l.pending| < |vs| && vs[|l.pending|] != 0
      requires IsPrev(st.table, p, vs[|l.pending|]) && Blocked(l.touched, p, vs[|l.pending|])
      ensures j < |l.pending| && Fits(l.pending[j], vs[|l.pending|])
    {
      hide Linked; hide BatchInv; hide Chain; hide MerkleInv;
      j := PendingSlotIsPrev(st.table, st.size, vs, l.t, l.pending, l.touched, l.c, p);
    }

    /** The second loop: writes the pending leaves to their slots, until one is beyond the capacity. */
    method InsertPending(pending: seq<LeafData>) returns (ok: bool)
      requires tree.Valid() && tree.GetNumLeaves(true) <= Pow2(tree.depth)
      modifies this`cachedLeaves, tree
      ensures tree.Valid() && State(false) == old(State(false))
      ensures ok <==> old(tree.GetNumLeaves(true)) + |pending| <= Pow2(tree.depth)
      ensures ok ==>
        && tree.GetNumLeaves(true) == old(tree.GetNumLeaves(true)) + |pending|
        && Flushed(old(tree.GetNumLeaves(true)), pending, |pending|, tree.hasher, old(LeafTable(true)), LeafTable(true), old(tree.latest), tree.latest)
      ensures ok && old(0 in LeafTable(true)) ==> 0 in LeafTable(true)
    {
      hide HashLeaf; hide EncodeLeaf; hide TreeBase.Valid;
      var start := tree.GetNumLeaves(true);
      ghost var t, m := LeafTable(true), tree.latest;
      for i := 0 to |pending|
        invariant tree.Valid() && State(false) == old(State(false))
        invariant tree.GetNumLeaves(true) == start + i <= Pow2(tree.depth)
        invariant Flushed(start, pending, i, tree.hasher, t, LeafTable(true), m, tree.latest)
        invariant 0 in t ==> 0 in LeafTable(true)
      {
        WriteNext(start, pending, i, tree.hasher, t, LeafTable(true), m, tree.latest);
        hide Flushed;
        ok := UpdateLeaf(pending[i], start + i);
        if !ok { return; }
      }
      ok := true;
    }

    /** Inserts a batch.  `maps` is the history of Merkle leaf maps: one before each member and one before the
        pending leaves are inserted. */
    method BatchInsert(newLeaves: seq<Buffer>, treeHeight: nat, subtreeHeight: nat)
      returns (outcome: BatchOutcome, ghost maps: seq<LeafMap>)
      requires tree.Valid() && ViewOk(true) && UniqueOrZero(Values(newLeaves))
      modifies this`cachedLeaves, tree
      ensures tree.Valid() && State(false) == old(State(false))
      ensures outcome.Inserted? <==>
        subtreeHeight <= tree.depth && old(tree.GetNumLeaves(true)) + |newLeaves| <= Pow2(tree.depth)
      ensures outcome.Inserted? ==>
        && BatchResult(tree.hasher, old(State(true)), Values(newLeaves), State(true))
        && (AllAbsent(old(LeafTable(true)), Values(newLeaves)) <==> ViewOk(true))
      ensures outcome.Inserted? ==>
        var one := AppendAll(tree.hasher, old(State(true)), Values(newLeaves));
        && (AllAbsent(old(LeafTable(true)), Values(newLeaves)) <==>
              tree.GetNumLeaves(true) == one.size && SameTable(LeafTable(true), one.table))
        && (AllAbsent(old(LeafTable(true)), Values(newLeaves)) && !LowZero(old(LeafTable(true)), Values(newLeaves)) ==>
              tree.GetRoot(true) == SubRoot(tree.hasher, one.leaves, tree.depth, 0))
      ensures outcome.Inserted? ==>
        && |outcome.witnesses| == |newLeaves| && |maps| == |newLeaves| + 1 && maps[0] == old(tree.latest)
        && Chain(tree.hasher, tree.depth, old(LeafTable(true)), old(tree.GetNumLeaves(true)), Values(newLeaves),
                 maps, outcome.witnesses, treeHeight)
      ensures outcome.Inserted? ==> SubtreeInserted(old(tree.GetNumLeaves(true)), subtreeHeight, |newLeaves|,
        maps[|newLeaves|], outcome.subtreePath)
    {
      hide Linked; hide LoopInv; hide Good; hide Chain; hide BatchResult; hide Flushed; hide Coherent; hide SubRoot;
      hide IsPath; hide AllAbsent; hide UniqueOrZero; hide Shift; hide AppendAll; hide LowZero; hide SameTable;
      ghost var st, vs := State(true), Values(newLeaves);
      GoodHeaded(tree.hasher, st);
      var pending, witnesses;
      ghost var l;
      pending, witnesses, l := LinkBatch(newLeaves, treeHeight);
      LoopHeaded(tree.hasher, tree.depth, st, vs, treeHeight, l);
      LoopChain(tree.hasher, tree.depth, st, vs, treeHeight, l);
      maps := l.maps;
      assert |vs| == |newLeaves|;
      var path := GetSubtreeSiblingPath(subtreeHeight, true);
      if path.None? { return Failed, maps; }
      ghost var t, before := LeafTable(true), tree.latest;
      var ok := InsertPending(pending);
      if !ok { return Failed, maps; }
      outcome := Inserted(witnesses, path.value);
      LoopEnd(tree.hasher, tree.depth, st, vs, treeHeight, l, LeafTable(true), tree.latest);
      ResultGood(tree.hasher, st, vs, State(true));
      BatchRefinesAppend(tree.hasher, st, vs, State(true), tree.depth);
      SubtreeDone(tree.hasher, tree.depth, st, vs, treeHeight, l, subtreeHeight, LeafTable(true), tree.latest, path.value);
    }

    /** For an aligned batch of 2^k leaves, what the returned path proves. */
    ghost predicate SubtreeInserted(n: nat, k: nat, count: nat, before: LeafMap, path: seq<Buffer>)
      reads this, tree
    {
      forall j: nat :: n == j * Pow2(k) && count == Pow2(k) ==>
        && Fold(tree.hasher, j, ZeroHash(tree.hasher, k), path) == SubRoot(tree.hasher, before, tree.depth, 0)
        && Fold(tree.hasher, j, SubRoot(tree.hasher, tree.latest, k, j), path) == SubRoot(tree.hasher, tree.latest, tree.depth, 0)
    }

    static lemma LoopChain(h: Hasher, depth: nat, st: St, vs: seq<nat>, treeHeight: nat, l: Loop)
      requires LoopInv(h, depth, st, vs, treeHeight, l)
      ensures Chain(h, depth, st.table, st.size, vs, l.maps, l.witnesses, treeHeight)
      ensures |l.maps| == |l.witnesses| + 1 && |l.witnesses| == |l.pending| && l.maps[0] == st.leaves
    {
      hide Link;
    }

    static lemma SubtreeDone(h: Hasher, depth: nat, st: St, vs: seq<nat>, treeHeight: nat, l: Loop, k: nat,
                             t': Table, after: LeafMap, path: seq<Buffer>)
      requires LoopInv(h, depth, st, vs, treeHeight, l) && |l.pending| == |vs| && k <= depth && st.size + |vs| <= Pow2(depth)
      requires Flushed(st.size, l.pending, |vs|, h, l.t, t', l.maps[|vs|], after)
      requires |path| == depth - k && IsPath(h, l.maps[|vs|], k, Shift(st.size, k), path)
      ensures forall j: nat :: st.size == j * Pow2(k) && |vs| == Pow2(k) ==>
        && Fold(h, j, ZeroHash(h, k), path) == SubRoot(h, l.maps[|vs|], depth, 0)
        && Fold(h, j, SubRoot(h, after, k, j), path) == SubRoot(h, after, depth, 0)
    {
      hide Shift; hide SubRoot; hide Fold; hide IsPath; hide ZeroHash; hide Pow2; hide LoopInv; hide Flushed;
      LoopChain(h, depth, st, vs, treeHeight, l);
      SubtreeSlots(h, depth, st, vs, treeHeight, l, t', after);
      forall j: nat | st.size == j * Pow2(k) && |vs| == Pow2(k)
        ensures Fold(h, j, ZeroHash(h, k), path) == SubRoot(h, l.maps[|vs|], depth, 0)
        ensures Fold(h, j, SubRoot(h, after, k, j), path) == SubRoot(h, after, depth, 0)
      {
        SubtreePath(h, depth, st.size, k, j, l.maps[|vs|], after, path);
      }
    }

    /** Before the pending leaves are written their slots are empty, and writing them changes no other slot. */
    static lemma SubtreeSlots(h: Hasher, depth: nat, st: St, vs: seq<nat>, treeHeight: nat, l: Loop, t': Table, after: LeafMap)
      requires LoopInv(h, depth, st, vs, treeHeight, l) && |l.pending| == |vs|
      requires Flushed(st.size, l.pending, |vs|, h, l.t, t', l.maps[|vs|], after)
      ensures forall i: nat :: i >= st.size ==> LeafAt(l.maps[|vs|], i) == INITIAL_LEAF
      ensures forall i: nat :: !(st.size <= i < st.size + |vs|) ==> LeafAt(after, i) == LeafAt(l.maps[|vs|], i)
    {
      LoopHeaded(h, depth, st, vs, treeHeight, l);
      hide Linked; hide BatchInv; hide Link; hide HashLeaf; hide LowZero; hide Good;
    }
  }

  datatype IndexedOp =
    | Append(leaves: seq<Buffer>)
    | Batch(leaves: seq<Buffer>, treeHeight: nat, subtreeHeight: nat)
    | CommitChanges
    | RollbackChanges

  /** Whether no value of the batch is in the tree, by the tree's own search. */
  method AreAbsent(t: StandardIndexedTree, newLeaves: seq<Buffer>) returns (absent: bool)
    requires t.Valid()
    ensures absent <==> AllAbsent(t.LeafTable(true), Values(newLeaves))
  {
    hide Linked; hide ToBigIntBE; hide Holds; hide Headed; hide IsPrev; hide TreeBase.Valid; hide Good; hide Values;
    StandardIndexedTree.GoodHeaded(t.tree.hasher, t.State(true));
    ghost var table, vs := t.LeafTable(true), Values(newLeaves);
    assert Headed(table, t.tree.GetNumLeaves(true));
    for i := 0 to |newLeaves|
      invariant forall j :: 0 <= j < i && vs[j] != 0 ==> !Holds(table, vs[j])
    {
      var value := ToBigIntBE(newLeaves[i]);
      assert vs[i] == value;
      var _, present := t.FindIndexOfPreviousValue(value, true);
      if value != 0 && present { return false; }
    }
    absent := true;
  }

  /** Every run of appends, batches, commits and rollbacks, when exceptions are followed by a rollback and batches
      hold unique values that are absent: in the end, in both views, the pointers from slot 0 lead in strictly
      increasing order through exactly the slots in use. */
  method RunIndexed(t: StandardIndexedTree, ops: seq<IndexedOp>)
    requires t.Valid()
    modifies t, t.tree
    ensures t.Valid()
    ensures forall u: bool :: OneList(t.LeafTable(u), t.tree.GetNumLeaves(u))
  {
    hide Linked; hide Good; hide TreeBase.Valid; hide Chain; hide BatchResult; hide UniqueOrZero; hide OneList; hide AllAbsent; hide SubRoot;
    hide AppendAll; hide SameTable; hide LowZero;
    for i := 0 to |ops|
      invariant t.Valid()
    {
      match ops[i] {
        case Append(newLeaves) =>
          var ok := t.AppendLeaves(newLeaves);
          if !ok { t.Rollback(); }
        case Batch(newLeaves, treeHeight, subtreeHeight) =>
          var absent := AreAbsent(t, newLeaves);
          if absent && UniqueOrZero(Values(newLeaves)) {
            var outcome;
            ghost var maps;
            outcome, maps := t.BatchInsert(newLeaves, treeHeight, subtreeHeight);
            if outcome.Failed? { t.Rollback(); }
          }
        case CommitChanges => t.Commit();
        case RollbackChanges => t.Rollback();
      }
    }
    StandardIndexedTree.GoodHeaded(t.tree.hasher, t.State(true));
    StandardIndexedTree.GoodHeaded(t.tree.hasher, t.State(false));
    SortedIsOneList(t.LeafTable(true), t.tree.GetNumLeaves(true));
    SortedIsOneList(t.LeafTable(false), t.tree.GetNumLeaves(false));
  }

  ghost predicate OneList(t: Table, n: nat) {
    Sorted(t, n) && var s := Walk(t, n, 0); s[0] == 0 && LinkedLeaves.Increasing(t, s) && forall j: nat :: j in s <==> Active(t, j)
  }

  lemma SortedIsOneList(t: Table, n: nat)
    requires Sorted(t, n)
    ensures OneList(t, n)
  {
    OneListFromZero(t, n);
  }
}
