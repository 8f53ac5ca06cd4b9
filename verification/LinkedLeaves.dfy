/** The sorted linked list that the indexed tree threads through its leaves, on values. */
module LinkedLeaves {

  datatype LeafData = LeafData(value: nat, nextIndex: nat, nextValue: nat)

  const ZERO_LEAF := LeafData(0, 0, 0)

  /** A sparse leaf array; an absent slot reads as the zero leaf. */
  type Table = map<nat, LeafData>

  function At(t: Table, i: nat): LeafData {
    if i in t then t[i] else ZERO_LEAF
  }

  /** Slot 0 heads the list; any other slot is on the list when its value is not zero. */
  predicate Active(t: Table, i: nat) {
    i == 0 || At(t, i).value != 0
  }

  /** List order: by value and, for equal values, slots below `b` before slots from `b` on. */
  function Key(t: Table, b: nat, i: nat): nat {
    2 * At(t, i).value + if i < b then 0 else 1
  }

  /** Slot i points at the immediate successor in list order, or at nothing when there is none. */
  ghost predicate PointsToNext(t: Table, b: nat, i: nat) {
    var l := At(t, i);
    if l.nextValue == 0 then
      l.nextIndex == 0 && forall j: nat :: Active(t, j) ==> Key(t, b, j) <= Key(t, b, i)
    else
      && Active(t, l.nextIndex) && At(t, l.nextIndex).value == l.nextValue
      && Key(t, b, i) < Key(t, b, l.nextIndex)
      && forall j: nat :: Active(t, j) ==> Key(t, b, j) <= Key(t, b, i) || Key(t, b, j) >= Key(t, b, l.nextIndex)
  }

  /** Slots 0..n-1 hold one list from slot 0 in strictly increasing order, every other slot is empty.
      With b >= n the order is that of the values, so values do not repeat. */
  ghost predicate Linked(t: Table, n: nat, b: nat) {
    && Headed(t, n) && b >= 1
    && (forall i: nat :: !Active(t, i) ==> At(t, i) == ZERO_LEAF)
    && (forall i: nat, j: nat :: Active(t, i) && Active(t, j) && i != j ==> Key(t, b, i) != Key(t, b, j))
    && (forall i: nat :: Active(t, i) ==> PointsToNext(t, b, i))
  }

  ghost predicate Headed(t: Table, n: nat) {
    n >= 1 && 0 in t && At(t, 0).value == 0 && forall i: nat :: i >= n ==> At(t, i) == ZERO_LEAF
  }

  ghost predicate Sorted(t: Table, n: nat) {
    Linked(t, n, n)
  }

  /** Slot p holds the greatest value at or below v. */
  ghost predicate IsPrev(t: Table, p: nat, v: nat) {
    && Active(t, p) && At(t, p).value <= v
    && forall j: nat :: Active(t, j) ==> At(t, j).value <= At(t, p).value || At(t, j).value > v
  }

  /** Slot p is the list predecessor of a new slot with key k, and no slot has that key. */
  ghost predicate IsKeyPrev(t: Table, b: nat, p: nat, k: nat) {
    && Active(t, p) && Key(t, b, p) < k
    && forall j: nat :: Active(t, j) ==> Key(t, b, j) <= Key(t, b, p) || Key(t, b, j) > k
  }

  ghost predicate Holds(t: Table, v: nat) {
    exists i: nat :: Active(t, i) && At(t, i).value == v
  }

  /** Links v, stored in slot n, behind slot p. */
  function Insert(t: Table, n: nat, p: nat, v: nat): Table {
    var low := At(t, p);
    t[n := LeafData(v, low.nextIndex, low.nextValue)][p := LeafData(low.value, n, v)]
  }

  ghost predicate SameTable(t: Table, t': Table) {
    forall i: nat :: At(t, i) == At(t', i)
  }

  ghost predicate SameValues(t: Table, t': Table) {
    forall i: nat :: At(t, i).value == At(t', i).value
  }

  /** What `Insert` does, slot by slot. */
  ghost predicate Inserted(t: Table, t': Table, n: nat, p: nat, v: nat) {
    forall i: nat :: At(t', i) ==
      if i == p then LeafData(At(t, p).value, n, v)
      else if i == n then LeafData(v, At(t, p).nextIndex, At(t, p).nextValue)
      else At(t, i)
  }

  lemma InsertSlots(t: Table, n: nat, p: nat, v: nat)
    ensures Inserted(t, Insert(t, n, p, v), n, p, v)
    ensures Insert(t, n, p, v).Keys == t.Keys + {n, p}
  {
  }

  ghost predicate KeysKept(t: Table, t': Table, n: nat, b: nat) {
    forall j: nat :: j != n ==> Key(t', b, j) == Key(t, b, j) && (Active(t', j) <==> Active(t, j))
  }

  /** The new slot takes over the successor of p. */
  lemma NextOfNew(t: Table, t': Table, n: nat, b: nat, p: nat, k: nat)
    requires KeysKept(t, t', n, b) && Key(t', b, n) == k && IsKeyPrev(t, b, p, k) && PointsToNext(t, b, p)
    requires At(t', n).nextIndex == At(t, p).nextIndex && At(t', n).nextValue == At(t, p).nextValue
    requires At(t, n) == ZERO_LEAF && n > 0 && Active(t', n)
    requires forall j: nat :: j != n ==> At(t', j).value == At(t, j).value
    ensures PointsToNext(t', b, n)
  {
    var next := At(t, p).nextIndex;
    if At(t, p).nextValue != 0 { assert next != n && Key(t, b, next) > k; }
    forall j: nat | Active(t', j)
      ensures Key(t', b, j) <= k || (At(t, p).nextValue != 0 && Key(t', b, j) >= Key(t', b, next))
    {
      if j != n { assert Active(t, j) && Key(t', b, j) == Key(t, b, j); }
    }
  }

  /** A slot other than p keeps its successor: the new key does not fall between them. */
  lemma NextOfOther(t: Table, t': Table, n: nat, b: nat, p: nat, k: nat, i: nat)
    requires KeysKept(t, t', n, b) && Key(t', b, n) == k && IsKeyPrev(t, b, p, k) && PointsToNext(t, b, i)
    requires i != n && i != p && At(t', i) == At(t, i) && Active(t, i) && Key(t, b, i) != Key(t, b, p)
    requires At(t, n) == ZERO_LEAF && n > 0
    requires forall j: nat :: j != n ==> At(t', j).value == At(t, j).value
    ensures PointsToNext(t', b, i)
  {
    var next := At(t, i).nextIndex;
    assert Key(t, b, i) < Key(t, b, p) || Key(t, b, i) > k;
    if At(t, i).nextValue != 0 { assert next != n; }
    forall j: nat | Active(t', j)
      ensures Key(t', b, j) <= Key(t', b, i) || (At(t, i).nextValue != 0 && Key(t', b, j) >= Key(t', b, next))
    {
      if j != n { assert Active(t, j) && Key(t', b, j) == Key(t, b, j); }
    }
  }

  lemma InsertedNext(t: Table, t': Table, n: nat, b: nat, p: nat, v: nat, i: nat)
    requires Linked(t, n, b) && v > 0 && p < n && Inserted(t, t', n, p, v) && KeysKept(t, t', n, b)
    requires IsKeyPrev(t, b, p, 2 * v + if n < b then 0 else 1)
    requires Active(t', i)
    ensures PointsToNext(t', b, i)
  {
    hide Linked; hide PointsToNext;
    var k := 2 * v + if n < b then 0 else 1;
    assert Key(t', b, n) == k;
    LinkedAt(t, n, b, p);
    LinkedEnd(t, n, b);
    if i == n {
      NextOfNew(t, t', n, b, p, k);
    } else if i == p {
      NextOfPrev(t, t', n, b, p, k);
    } else {
      LinkedAt(t, n, b, i);
      LinkedKeys(t, n, b, i, p);
      NextOfOther(t, t', n, b, p, k, i);
    }
  }

  lemma NextOfPrev(t: Table, t': Table, n: nat, b: nat, p: nat, k: nat)
    requires KeysKept(t, t', n, b) && Key(t', b, n) == k && IsKeyPrev(t, b, p, k) && p != n
    requires At(t', p).nextIndex == n && At(t', p).nextValue == At(t', n).value != 0
    ensures PointsToNext(t', b, p)
  {
  }

  lemma LinkedEnd(t: Table, n: nat, b: nat)
    requires Linked(t, n, b)
    ensures n > 0 && At(t, n) == ZERO_LEAF
  {
  }

  lemma LinkedKeys(t: Table, n: nat, b: nat, i: nat, j: nat)
    requires Linked(t, n, b) && Active(t, i) && Active(t, j) && i != j
    ensures Key(t, b, i) != Key(t, b, j)
  {
  }

  lemma InsertedKeys(t: Table, t': Table, n: nat, b: nat, p: nat, v: nat)
    requires Inserted(t, t', n, p, v) && p < n
    ensures KeysKept(t, t', n, b)
  {
  }

  /** Inserting behind the predecessor keeps the list. */
  lemma InsertLinked(t: Table, t': Table, n: nat, b: nat, p: nat, v: nat)
    requires Linked(t, n, b) && v > 0 && p < n && Inserted(t, t', n, p, v) && 0 in t'
    requires IsKeyPrev(t, b, p, 2 * v + if n < b then 0 else 1)
    ensures Linked(t', n + 1, b)
  {
    hide PointsToNext;
    InsertedKeys(t, t', n, b, p, v);
    forall i: nat | Active(t', i)
      ensures PointsToNext(t', b, i)
    {
      InsertedNext(t, t', n, b, p, v, i);
    }
  }

  /** The list depends only on what the slots read as. */
  lemma LinkedSame(t: Table, t': Table, n: nat, b: nat)
    requires Linked(t, n, b) && SameTable(t, t') && 0 in t'
    ensures Linked(t', n, b)
  {
    assert forall j: nat :: Key(t', b, j) == Key(t, b, j) && (Active(t', j) <==> Active(t, j));
    forall i: nat | Active(t', i)
      ensures PointsToNext(t', b, i)
    {
      assert PointsToNext(t, b, i);
    }
  }

  lemma LinkedGrow(t: Table, n: nat, n': nat, b: nat)
    requires Linked(t, n, b) && n <= n'
    ensures Linked(t, n', b)
  {
  }

  ghost predicate DistinctValues(t: Table) {
    forall i: nat, j: nat :: Active(t, i) && Active(t, j) && i != j ==> At(t, i).value != At(t, j).value
  }

  /** When no value repeats, where the boundary lies does not matter. */
  lemma Rebase(t: Table, n: nat, b: nat, b': nat)
    requires Linked(t, n, b) && b' >= 1 && DistinctValues(t)
    ensures Linked(t, n, b')
  {
    assert forall i: nat, j: nat :: Active(t, i) && Active(t, j) ==> (Key(t, b', i) < Key(t, b', j) <==> Key(t, b, i) < Key(t, b, j));
    forall i: nat | Active(t, i)
      ensures PointsToNext(t, b', i)
    {
      assert PointsToNext(t, b, i);
    }
  }

  lemma SortedDistinct(t: Table, n: nat, b: nat)
    requires Linked(t, n, b) && n <= b
    ensures DistinctValues(t)
  {
    forall i: nat, j: nat | Active(t, i) && Active(t, j) && i != j
      ensures At(t, i).value != At(t, j).value
    {
      assert Key(t, b, i) != Key(t, b, j);
    }
  }

  /** The values decide the whole table: there is one way to link them. */
  lemma LinkedUnique(t: Table, t': Table, n: nat, b: nat)
    requires Linked(t, n, b) && Linked(t', n, b) && SameValues(t, t')
    ensures SameTable(t, t')
  {
    assert forall j: nat :: Key(t', b, j) == Key(t, b, j) && (Active(t', j) <==> Active(t, j));
    forall i: nat
      ensures At(t, i) == At(t', i)
    {
      if Active(t, i) {
        assert PointsToNext(t, b, i) && PointsToNext(t', b, i);
      }
    }
  }

  /** A leaf below v whose next value is above v, or is the tail, proves that v is not in the tree; and the
      greatest leaf at or below an absent v is such a leaf. */
  lemma LowLeafProvesAbsence(t: Table, n: nat, p: nat, v: nat)
    requires Sorted(t, n) && Active(t, p)
    ensures At(t, p).value < v && (At(t, p).nextValue > v || At(t, p).nextValue == 0) <==>
            IsPrev(t, p, v) && !Holds(t, v)
  {
    assert PointsToNext(t, n, p);
    forall j: nat | Active(t, j)
      ensures (Key(t, n, j) <= Key(t, n, p) <==> At(t, j).value <= At(t, p).value)
    {
    }
    if IsPrev(t, p, v) && !Holds(t, v) {
      assert At(t, p).value != v;
      if At(t, p).nextValue != 0 { assert Active(t, At(t, p).nextIndex); }
    }
    if At(t, p).value < v && (At(t, p).nextValue > v || At(t, p).nextValue == 0) {
      forall j: nat | Active(t, j)
        ensures At(t, j).value <= At(t, p).value || At(t, j).value > v
      {
      }
    }
  }

  /** The slots after slot i on the list. */
  ghost function After(t: Table, n: nat, i: nat): set<nat> {
    set j: nat | j < n && Active(t, j) && At(t, j).value > At(t, i).value
  }

  lemma NextIsAfter(t: Table, n: nat, i: nat)
    requires Sorted(t, n) && Active(t, i) && At(t, i).nextValue != 0
    ensures var next := At(t, i).nextIndex;
      && Active(t, next) && At(t, i).value < At(t, next).value
      && After(t, n, i) == After(t, n, next) + {next} && next !in After(t, n, next)
  {
    assert PointsToNext(t, n, i);
    var next := At(t, i).nextIndex;
    forall j: nat
      ensures j in After(t, n, i) <==> j in After(t, n, next) || j == next
    {
      if j in After(t, n, i) && j != next { assert Key(t, n, j) != Key(t, n, next); }
    }
  }

  lemma TailHasNoneAfter(t: Table, n: nat, i: nat)
    requires Sorted(t, n) && Active(t, i) && At(t, i).nextValue == 0
    ensures After(t, n, i) == {}
  {
    assert PointsToNext(t, n, i);
    forall j: nat | j < n && Active(t, j)
      ensures At(t, j).value <= At(t, i).value
    {
      assert Key(t, n, j) <= Key(t, n, i);
    }
  }

  /** For a slot from the boundary on, the low-leaf test for a new value v means being its list predecessor. */
  lemma LowTestIsPrev(t: Table, n: nat, b: nat, s: nat, v: nat)
    requires Linked(t, n, b) && Active(t, s) && s >= b && v > 0
    requires forall j: nat :: Active(t, j) ==> Key(t, b, j) != 2 * v + 1
    ensures At(t, s).value < v && (At(t, s).nextValue > v || At(t, s).nextValue == 0) <==> IsKeyPrev(t, b, s, 2 * v + 1)
  {
    hide Linked;
    assert PointsToNext(t, b, s) by { LinkedAt(t, n, b, s); }
  }

  lemma LinkedAt(t: Table, n: nat, b: nat, s: nat)
    requires Linked(t, n, b) && Active(t, s)
    ensures PointsToNext(t, b, s)
  {
  }

  lemma KeyPrevUnique(t: Table, n: nat, b: nat, p: nat, q: nat, k: nat)
    requires Linked(t, n, b) && IsKeyPrev(t, b, p, k) && IsKeyPrev(t, b, q, k)
    ensures p == q
  {
    hide PointsToNext;
    assert Key(t, b, p) == Key(t, b, q);
  }

  /** Follows the `nextIndex` pointers from slot i. */
  ghost function Walk(t: Table, n: nat, i: nat): (s: seq<nat>)
    requires Sorted(t, n) && Active(t, i)
    ensures |s| >= 1 && s[0] == i
    decreases After(t, n, i)
  {
    if At(t, i).nextValue == 0 then [i]
    else
      NextIsAfter(t, n, i);
      [i] + Walk(t, n, At(t, i).nextIndex)
  }

  /** The walk visits values in strictly increasing order and misses no slot after its start. */
  lemma {:induction false} WalkComplete(t: Table, n: nat, i: nat)
    requires Sorted(t, n) && Active(t, i)
    ensures Increasing(t, Walk(t, n, i))
    ensures forall j: nat :: j in Walk(t, n, i) <==> j == i || j in After(t, n, i)
    decreases After(t, n, i)
  {
    hide Linked; hide PointsToNext;
    if At(t, i).nextValue == 0 {
      TailHasNoneAfter(t, n, i);
      assert Walk(t, n, i) == [i];
    } else {
      var next := At(t, i).nextIndex;
      NextIsAfter(t, n, i);
      WalkComplete(t, n, next);
      var rest := Walk(t, n, next);
      assert Walk(t, n, i) == [i] + rest;
      forall b | 0 <= b < |rest|
        ensures At(t, i).value < At(t, rest[b]).value
      {
        assert rest[b] in rest;
      }
    }
  }

  ghost predicate Increasing(t: Table, s: seq<nat>) {
    forall a, b :: 0 <= a < b < |s| ==> At(t, s[a]).value < At(t, s[b]).value
  }

  /** From slot 0 the pointers lead, in increasing order, through exactly the slots in use. */
  lemma OneListFromZero(t: Table, n: nat)
    requires Sorted(t, n)
    ensures var s := Walk(t, n, 0);
      s[0] == 0 && Increasing(t, s) && forall j: nat :: j in s <==> Active(t, j)
  {
    WalkComplete(t, n, 0);
    forall j: nat
      ensures j in Walk(t, n, 0) <==> Active(t, j)
    {
      assert At(t, j) == ZERO_LEAF || j < n;
    }
  }

  /** The scan of the first k slots for the greatest value at or below v. */
  function Best(t: Table, k: nat, v: nat): (p: nat)
    ensures k == 0 ==> p == 0
    ensures k > 0 ==> p < k
  {
    if k <= 1 then 0
    else
      var p := Best(t, k - 1, v);
      if Active(t, k - 1) && At(t, p).value < At(t, k - 1).value <= v then k - 1 else p
  }

  lemma {:induction false} BestIsPrev(t: Table, n: nat, v: nat)
    requires Headed(t, n)
    ensures IsPrev(t, Best(t, n, v), v)
  {
    BestSoFar(t, n, v);
  }

  lemma {:induction false} BestSoFar(t: Table, k: nat, v: nat)
    requires k >= 1 && At(t, 0).value == 0
    ensures var p := Best(t, k, v);
      && Active(t, p) && At(t, p).value <= v
      && forall j: nat :: j < k && Active(t, j) ==> At(t, j).value <= At(t, p).value || At(t, j).value > v
  {
    if k > 1 { BestSoFar(t, k - 1, v); }
  }

  lemma PrevUnique(t: Table, p: nat, q: nat, v: nat)
    requires DistinctValues(t) && IsPrev(t, p, v) && IsPrev(t, q, v)
    ensures p == q
  {
  }
}
