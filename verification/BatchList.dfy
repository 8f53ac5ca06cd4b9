/** What the batch insertion loop keeps: the tree's leaf table together with the pending leaves is one linked
    list after every step, although the two are updated apart. */
module BatchList {
  import opened LinkedLeaves

  /** The documented assumption on a batch: its values are unique, or zero. */
  predicate UniqueOrZero(vs: seq<nat>) {
    forall i, j :: 0 <= i < j < |vs| && vs[i] != 0 ==> vs[i] != vs[j]
  }

  ghost predicate AllAbsent(t: Table, vs: seq<nat>) {
    forall i :: 0 <= i < |vs| && vs[i] != 0 ==> !Holds(t, vs[i])
  }

  /** The pending leaf's test for being the low leaf of v. */
  predicate Fits(l: LeafData, v: nat) {
    l.value != 0 && l.value < v && (l.nextValue > v || l.nextValue == 0)
  }

  type Touched = map<nat, seq<nat>>

  /** A value below v was already linked to the tree slot p. */
  predicate Blocked(touched: Touched, p: nat, v: nat) {
    p in touched && exists u :: u in touched[p] && u < v
  }

  /** The nearest smaller value among tree and earlier batch members is one of the latter. */
  ghost predicate PrevInBatch(t: Table, vs: seq<nat>, i: nat)
    requires i < |vs|
  {
    exists k :: 0 <= k < i && vs[k] != 0 && vs[k] < vs[i] && !TreeBetween(t, vs[k], vs[i])
  }

  ghost predicate TreeBetween(t: Table, u: nat, v: nat) {
    exists j: nat :: Active(t, j) && u < At(t, j).value <= v
  }

  ghost predicate Combined(c: Table, t: Table, pending: seq<LeafData>, n: nat) {
    forall k: nat :: At(c, k) == if n <= k < n + |pending| then pending[k - n] else At(t, k)
  }

  /** Each touched slot lists batch values whose tree predecessor it is. */
  ghost predicate TouchedSound(t0: Table, n: nat, done: seq<nat>, touched: Touched) {
    && (forall p :: p in touched ==> touched[p] != [])
    && (forall p, u :: p in touched && u in touched[p] ==> EntrySound(t0, n, done, p, u))
  }

  ghost predicate EntrySound(t0: Table, n: nat, done: seq<nat>, p: nat, u: nat) {
    u != 0 && u in done && p == Best(t0, n, u)
  }

  /** Each batch value has one at or below it listed at its tree predecessor. */
  ghost predicate TouchedComplete(t0: Table, n: nat, done: seq<nat>, touched: Touched) {
    forall u :: u in done && u != 0 ==> Blocked(touched, Best(t0, n, u), u + 1)
  }

  ghost predicate TouchedOk(t0: Table, n: nat, vs: seq<nat>, done: nat, touched: Touched)
    requires done <= |vs|
  {
    TouchedSound(t0, n, vs[..done], touched) && TouchedComplete(t0, n, vs[..done], touched)
  }

  /** The tree table t keeps the values of t0, the pending leaves carry the batch values, and c reads as both. */
  ghost predicate Slots(t0: Table, n: nat, vs: seq<nat>, t: Table, pending: seq<LeafData>, c: Table) {
    && |pending| <= |vs| && SameValues(t0, t)
    && 0 in t && 0 in c && (forall k: nat :: k >= n ==> At(t, k) == ZERO_LEAF)
    && Combined(c, t, pending, n)
    && (forall k :: 0 <= k < |pending| ==> pending[k].value == vs[k])
  }

  /** t0 is the table before the batch, t the current one, c both together with the pending leaves. */
  ghost predicate BatchInv(t0: Table, n: nat, vs: seq<nat>, t: Table, pending: seq<LeafData>, touched: Touched, c: Table) {
    && Sorted(t0, n) && UniqueOrZero(vs)
    && Slots(t0, n, vs, t, pending, c)
    && Linked(c, n + |pending|, n)
    && TouchedOk(t0, n, vs, |pending|, touched)
  }

  lemma BatchStart(t0: Table, n: nat, vs: seq<nat>)
    requires Sorted(t0, n) && UniqueOrZero(vs)
    ensures BatchInv(t0, n, vs, t0, [], map[], t0)
  {
  }

  /** The search in the tree finds the tree predecessor, which the batch does not change. */
  lemma PrevStable(t0: Table, n: nat, t: Table, p: nat, v: nat)
    requires Sorted(t0, n) && SameValues(t0, t) && IsPrev(t, p, v)
    ensures IsPrev(t0, p, v) && p == Best(t0, n, v) && p < n
  {
    assert forall j: nat :: Active(t, j) <==> Active(t0, j);
    BestIsPrev(t0, n, v);
    SortedDistinct(t0, n, n);
    PrevUnique(t0, p, Best(t0, n, v), v);
  }

  lemma PrevBelow(t0: Table, n: nat, p: nat, w: nat, v: nat)
    requires Sorted(t0, n) && IsPrev(t0, p, v) && At(t0, p).value <= w <= v
    ensures p == Best(t0, n, w)
  {
    assert IsPrev(t0, p, w);
    PrevStable(t0, n, t0, p, w);
  }

  /** The keys of the combined list: even for tree slots, odd for pending ones. */
  lemma CombinedKeys(t0: Table, n: nat, vs: seq<nat>, t: Table, pending: seq<LeafData>, touched: Touched, c: Table, j: nat)
    requires BatchInv(t0, n, vs, t, pending, touched, c) && Active(c, j)
    ensures j < n ==> Active(t0, j) && Key(c, n, j) == 2 * At(t0, j).value
    ensures j >= n ==> j - n < |pending| && vs[j - n] != 0 && Key(c, n, j) == 2 * vs[j - n] + 1
  {
    assert At(t0, j).value == At(t, j).value;
  }

  /** When nothing smaller was linked to the tree predecessor, it is the predecessor in the combined list. */
  lemma TreeSlotIsPrev(t0: Table, n: nat, vs: seq<nat>, t: Table, pending: seq<LeafData>, touched: Touched, c: Table, p: nat)
    requires BatchInv(t0, n, vs, t, pending, touched, c) && |pending| < |vs| && vs[|pending|] != 0
    requires IsPrev(t0, p, vs[|pending|]) && !Blocked(touched, p, vs[|pending|])
    ensures IsKeyPrev(c, n, p, 2 * vs[|pending|] + 1)
    ensures p < n && At(c, p) == At(t, p)
    ensures !PrevInBatch(t0, vs, |pending|)
  {
    hide Linked; hide Combined;
    var i := |pending|;
    var v := vs[i];
    PrevStable(t0, n, t0, p, v);
    forall k | 0 <= k < i && vs[k] != 0 && vs[k] <= v
      ensures vs[k] < At(t0, p).value
    {
      assert vs[k] != vs[i];
      assert vs[k] in vs[..i];
      if At(t0, p).value <= vs[k] { PrevBelow(t0, n, p, vs[k], v); }
    }
    assert Active(c, p) && At(c, p) == At(t, p) by { TreeSlotInCombined(t0, n, vs, t, pending, touched, c, p); }
    CombinedKeys(t0, n, vs, t, pending, touched, c, p);
    forall j: nat | Active(c, j)
      ensures Key(c, n, j) <= Key(c, n, p) || Key(c, n, j) > 2 * v + 1
    {
      CombinedKeys(t0, n, vs, t, pending, touched, c, j);
    }
    forall k | 0 <= k < i && vs[k] != 0 && vs[k] < v
      ensures TreeBetween(t0, vs[k], v)
    {
      assert Active(t0, p) && vs[k] < At(t0, p).value <= v;
    }
  }

  lemma TreeSlotInCombined(t0: Table, n: nat, vs: seq<nat>, t: Table, pending: seq<LeafData>, touched: Touched, c: Table, p: nat)
    requires BatchInv(t0, n, vs, t, pending, touched, c) && Active(t0, p) && p < n
    ensures Active(c, p) && At(c, p) == At(t, p) && At(t, p).value == At(t0, p).value
  {
    hide Linked; hide TouchedOk;
  }

  lemma PendingInCombined(t0: Table, n: nat, vs: seq<nat>, t: Table, pending: seq<LeafData>, touched: Touched, c: Table, k: nat)
    requires BatchInv(t0, n, vs, t, pending, touched, c) && k < |pending|
    ensures |pending| <= |vs| && n >= 1 && At(c, n + k) == pending[k] && pending[k].value == vs[k]
    ensures Linked(c, n + |pending|, n) && At(c, 0).value == 0
    ensures vs[k] != 0 ==> Active(c, n + k) && Key(c, n, n + k) == 2 * vs[k] + 1
  {
  }

  /** A pending leaf passes the low-leaf test exactly when it is the predecessor in the combined list. */
  lemma FitsIsPrev(t0: Table, n: nat, vs: seq<nat>, t: Table, pending: seq<LeafData>, touched: Touched, c: Table, j: nat, v: nat)
    requires BatchInv(t0, n, vs, t, pending, touched, c) && j < |pending| && v > 0
    requires forall k :: 0 <= k < |pending| ==> vs[k] != v
    ensures Fits(pending[j], v) <==> IsKeyPrev(c, n, n + j, 2 * v + 1)
  {
    hide BatchInv; hide Linked;
    PendingInCombined(t0, n, vs, t, pending, touched, c, j);
    if pending[j].value != 0 {
      forall k: nat | Active(c, k)
        ensures Key(c, n, k) != 2 * v + 1
      {
        CombinedKeys(t0, n, vs, t, pending, touched, c, k);
      }
      LowTestIsPrev(c, n + |pending|, n, n + j, v);
    }
  }

  lemma {:induction false} KeyPrevExists(t: Table, b: nat, m: nat, k: nat) returns (q: nat)
    requires m >= 1 && b >= 1 && Active(t, 0) && At(t, 0).value == 0 && k > 0
    ensures q < m && Active(t, q) && Key(t, b, q) < k
    ensures forall j: nat :: j < m && Active(t, j) ==> Key(t, b, j) <= Key(t, b, q) || Key(t, b, j) >= k
  {
    if m == 1 {
      q := 0;
    } else {
      q := KeyPrevExists(t, b, m - 1, k);
      if Active(t, m - 1) && Key(t, b, q) < Key(t, b, m - 1) < k { q := m - 1; }
    }
  }

  /** When something smaller was linked to the tree predecessor, exactly one pending leaf passes the test. */
  lemma PendingSlotIsPrev(t0: Table, n: nat, vs: seq<nat>, t: Table, pending: seq<LeafData>, touched: Touched, c: Table, p: nat)
    returns (j: nat)
    requires BatchInv(t0, n, vs, t, pending, touched, c) && |pending| < |vs| && vs[|pending|] != 0
    requires IsPrev(t0, p, vs[|pending|]) && Blocked(touched, p, vs[|pending|])
    ensures j < |pending| && Fits(pending[j], vs[|pending|])
    ensures forall k :: 0 <= k < |pending| && Fits(pending[k], vs[|pending|]) ==> k == j
    ensures PrevInBatch(t0, vs, |pending|)
  {
    hide *;
    var i := |pending|;
    var v := vs[i];
    var s := LinkedBelow(t0, n, vs, t, pending, touched, c, p);
    PendingInCombined(t0, n, vs, t, pending, touched, c, s);
    j := PendingAbove(t0, n, vs, t, pending, touched, c, p, s);
    FitsIsPrev(t0, n, vs, t, pending, touched, c, j, v);
    forall k | 0 <= k < i && Fits(pending[k], v)
      ensures k == j
    {
      FitsIsPrev(t0, n, vs, t, pending, touched, c, k, v);
      KeyPrevUnique(c, n + i, n, n + k, n + j, 2 * v + 1);
    }
  }

  lemma SortedHeaded(t0: Table, n: nat)
    requires Sorted(t0, n)
    ensures Headed(t0, n)
  {
  }

  lemma LinkedBelow(t0: Table, n: nat, vs: seq<nat>, t: Table, pending: seq<LeafData>, touched: Touched, c: Table, p: nat)
    returns (s: nat)
    requires BatchInv(t0, n, vs, t, pending, touched, c) && |pending| < |vs| && vs[|pending|] != 0
    requires IsPrev(t0, p, vs[|pending|]) && Blocked(touched, p, vs[|pending|])
    ensures s < |pending| && vs[s] != 0 && At(t0, p).value <= vs[s] < vs[|pending|]
    ensures forall k :: 0 <= k < |pending| ==> vs[k] != vs[|pending|]
    ensures PrevInBatch(t0, vs, |pending|)
  {
    hide Linked; hide Slots; hide Best;
    var v := vs[|pending|];
    var u :| u in touched[p] && u < v;
    assert u in vs[..|pending|];
    s :| 0 <= s < |pending| && vs[s] == u;
    assert IsPrev(t0, p, u) by { SortedHeaded(t0, n); BestIsPrev(t0, n, u); }
    assert !TreeBetween(t0, u, v);
  }

  /** With a pending value between the tree predecessor and v, the predecessor of v is pending. */
  lemma PendingAbove(t0: Table, n: nat, vs: seq<nat>, t: Table, pending: seq<LeafData>, touched: Touched, c: Table, p: nat, s: nat)
    returns (j: nat)
    requires BatchInv(t0, n, vs, t, pending, touched, c) && |pending| < |vs| && s < |pending|
    requires IsPrev(t0, p, vs[|pending|]) && At(t0, p).value <= vs[s] < vs[|pending|] && vs[s] != 0
    requires forall k :: 0 <= k < |pending| ==> vs[k] != vs[|pending|]
    ensures j < |pending| && IsKeyPrev(c, n, n + j, 2 * vs[|pending|] + 1)
  {
    hide BatchInv; hide Linked;
    var i := |pending|;
    var v := vs[i];
    PendingInCombined(t0, n, vs, t, pending, touched, c, s);
    var q := KeyPrevExists(c, n, n + i, 2 * v + 1);
    CombinedKeys(t0, n, vs, t, pending, touched, c, q);
    assert Key(c, n, n + s) <= Key(c, n, q);
    assert q >= n;
    j := q - n;
    forall k: nat | Active(c, k)
      ensures Key(c, n, k) <= Key(c, n, q) || Key(c, n, k) > 2 * v + 1
    {
      CombinedKeys(t0, n, vs, t, pending, touched, c, k);
    }
  }

  /** A zero value takes a slot and nothing else. */
  lemma StepZero(t0: Table, n: nat, vs: seq<nat>, t: Table, pending: seq<LeafData>, touched: Touched, c: Table)
    requires BatchInv(t0, n, vs, t, pending, touched, c) && |pending| < |vs| && vs[|pending|] == 0
    ensures BatchInv(t0, n, vs, t, pending + [ZERO_LEAF], touched, c)
  {
    hide Slots; hide Linked; hide TouchedOk; hide Combined;
    LinkedGrow(c, n + |pending|, n + |pending| + 1, n);
    TouchedSkip(t0, n, vs, |pending|, touched);
    ZeroSlots(t0, n, vs, t, pending, c);
  }

  lemma ZeroSlots(t0: Table, n: nat, vs: seq<nat>, t: Table, pending: seq<LeafData>, c: Table)
    requires Slots(t0, n, vs, t, pending, c) && |pending| < |vs| && vs[|pending|] == 0
    ensures Slots(t0, n, vs, t, pending + [ZERO_LEAF], c)
  {
  }

  lemma TouchedSkip(t0: Table, n: nat, vs: seq<nat>, done: nat, touched: Touched)
    requires done < |vs| && TouchedOk(t0, n, vs, done, touched)
    requires vs[done] != 0 ==> Blocked(touched, Best(t0, n, vs[done]), vs[done])
    ensures TouchedOk(t0, n, vs, done + 1, touched)
  {
    hide Best;
    assert vs[..done + 1] == vs[..done] + [vs[done]];
    SoundMore(t0, n, vs[..done], vs[done], touched);
    if vs[done] != 0 { BlockedMore(touched, Best(t0, n, vs[done]), vs[done]); }
    CompleteMore(t0, n, vs[..done], vs[done], touched);
  }

  lemma SoundMore(t0: Table, n: nat, us: seq<nat>, u: nat, touched: Touched)
    requires TouchedSound(t0, n, us, touched)
    ensures TouchedSound(t0, n, us + [u], touched)
  {
    hide Best;
    forall p, w | p in touched && w in touched[p]
      ensures EntrySound(t0, n, us + [u], p, w)
    {
      assert EntrySound(t0, n, us, p, w);
    }
  }

  lemma CompleteMore(t0: Table, n: nat, us: seq<nat>, u: nat, touched: Touched)
    requires TouchedComplete(t0, n, us, touched)
    requires u != 0 ==> Blocked(touched, Best(t0, n, u), u + 1)
    ensures TouchedComplete(t0, n, us + [u], touched)
  {
    hide Best; hide Blocked;
  }

  lemma BlockedMore(touched: Touched, p: nat, v: nat)
    requires Blocked(touched, p, v)
    ensures Blocked(touched, p, v + 1)
  {
    var w :| w in touched[p] && w < v;
  }

  function Touch(touched: Touched, p: nat, v: nat): Touched {
    touched[p := (if p in touched then touched[p] else []) + [v]]
  }

  lemma TouchedGrow(t0: Table, n: nat, vs: seq<nat>, done: nat, touched: Touched, p: nat)
    requires done < |vs| && TouchedOk(t0, n, vs, done, touched) && vs[done] != 0 && p == Best(t0, n, vs[done])
    ensures TouchedOk(t0, n, vs, done + 1, Touch(touched, p, vs[done]))
  {
    hide Best; hide Touch; hide TouchedSound; hide TouchedComplete;
    assert vs[..done + 1] == vs[..done] + [vs[done]];
    TouchSound(t0, n, vs[..done], touched, p, vs[done]);
    TouchComplete(t0, n, vs[..done], touched, p, vs[done]);
  }

  lemma TouchSound(t0: Table, n: nat, us: seq<nat>, touched: Touched, p: nat, v: nat)
    requires TouchedSound(t0, n, us, touched) && v != 0 && p == Best(t0, n, v)
    ensures TouchedSound(t0, n, us + [v], Touch(touched, p, v))
  {
    var touched' := Touch(touched, p, v);
    TouchAdds(touched, p, v);
    hide Best; hide Touch;
    forall q, w | q in touched' && w in touched'[q]
      ensures EntrySound(t0, n, us + [v], q, w)
    {
      if !(q == p && w == v) { assert q in touched && w in touched[q] && EntrySound(t0, n, us, q, w); }
    }
  }

  lemma TouchComplete(t0: Table, n: nat, us: seq<nat>, touched: Touched, p: nat, v: nat)
    requires TouchedComplete(t0, n, us, touched) && p == Best(t0, n, v)
    ensures TouchedComplete(t0, n, us + [v], Touch(touched, p, v))
  {
    var touched' := Touch(touched, p, v);
    TouchAdds(touched, p, v);
    hide Best; hide Touch;
    forall u | u in us + [v] && u != 0
      ensures Blocked(touched', Best(t0, n, u), u + 1)
    {
      if u == v {
        assert v in touched'[p];
      } else {
        assert u in us;
        var w :| w in touched[Best(t0, n, u)] && w < u + 1;
        assert w in touched'[Best(t0, n, u)];
      }
    }
  }

  lemma TouchAdds(touched: Touched, p: nat, v: nat)
    ensures Touch(touched, p, v).Keys == touched.Keys + {p}
    ensures forall q, u :: q in Touch(touched, p, v) ==>
      (u in Touch(touched, p, v)[q] <==> (q in touched && u in touched[q]) || (q == p && u == v))
    ensures forall q :: q in Touch(touched, p, v) ==> Touch(touched, p, v)[q] != [] || (q in touched && touched[q] == [])
  {
  }

  /** The new leaf is linked behind a tree slot. */
  lemma StepTree(t0: Table, n: nat, vs: seq<nat>, t: Table, pending: seq<LeafData>, touched: Touched, c: Table, p: nat)
    requires BatchInv(t0, n, vs, t, pending, touched, c) && |pending| < |vs| && vs[|pending|] != 0
    requires IsPrev(t0, p, vs[|pending|]) && !Blocked(touched, p, vs[|pending|])
    ensures var i, v, low := |pending|, vs[|pending|], At(t, p);
      && BatchInv(t0, n, vs, t[p := LeafData(low.value, n + i, v)],
           pending + [LeafData(v, low.nextIndex, low.nextValue)], Touch(touched, p, v), Insert(c, n + i, p, v))
      && low.value == At(t0, p).value && (low.nextValue > v || low.nextValue == 0)
  {
    hide Slots; hide Linked; hide TouchedOk; hide Insert; hide Inserted; hide IsPrev; hide IsKeyPrev; hide Blocked; hide Touch;
    var i, v := |pending|, vs[|pending|];
    TreeSlotIsPrev(t0, n, vs, t, pending, touched, c, p);
    PrevStable(t0, n, t0, p, v);
    TouchedGrow(t0, n, vs, i, touched, p);
    InsertSlots(c, n + i, p, v);
    TreeSlots(t0, n, vs, t, pending, c, p);
    InsertLinked(c, Insert(c, n + i, p, v), n + i, n, p, v);
    NextAbove(c, n + i, n, p, v);
  }

  lemma NextAbove(c: Table, n: nat, b: nat, p: nat, v: nat)
    requires Linked(c, n, b) && IsKeyPrev(c, b, p, 2 * v + 1)
    ensures At(c, p).nextValue > v || At(c, p).nextValue == 0
  {
    LinkedAt(c, n, b, p);
  }

  lemma TreeSlots(t0: Table, n: nat, vs: seq<nat>, t: Table, pending: seq<LeafData>, c: Table, p: nat)
    requires Slots(t0, n, vs, t, pending, c) && |pending| < |vs| && p < n && n >= 1
    ensures var i, v, low := |pending|, vs[|pending|], At(t, p);
      && At(c, p) == low && low.value == At(t0, p).value && 0 in Insert(c, n + i, p, v)
      && Slots(t0, n, vs, t[p := LeafData(low.value, n + i, v)],
               pending + [LeafData(v, low.nextIndex, low.nextValue)], Insert(c, n + i, p, v))
  {
    var i, v, low := |pending|, vs[|pending|], At(t, p);
    InsertSlots(c, n + i, p, v);
    var t', pending', c' := t[p := LeafData(low.value, n + i, v)], pending + [LeafData(v, low.nextIndex, low.nextValue)], Insert(c, n + i, p, v);
    hide Insert;
    forall k: nat
      ensures At(t', k) == if k == p then LeafData(low.value, n + i, v) else At(t, k)
      ensures At(c', k) == if n <= k < n + i + 1 then pending'[k - n] else At(t', k)
    {
    }
  }

  /** The new leaf is linked behind a pending leaf. */
  lemma StepPending(t0: Table, n: nat, vs: seq<nat>, t: Table, pending: seq<LeafData>, touched: Touched, c: Table, p: nat, j: nat)
    requires BatchInv(t0, n, vs, t, pending, touched, c) && |pending| < |vs| && vs[|pending|] != 0
    requires IsPrev(t0, p, vs[|pending|]) && Blocked(touched, p, vs[|pending|])
    requires j < |pending| && Fits(pending[j], vs[|pending|])
    ensures var i, v, low := |pending|, vs[|pending|], pending[j];
      BatchInv(t0, n, vs, t, pending[j := LeafData(low.value, n + i, v)] + [LeafData(v, low.nextIndex, low.nextValue)],
        touched, Insert(c, n + i, n + j, v))
  {
    hide Slots; hide Linked; hide TouchedOk; hide Insert; hide Inserted; hide IsPrev; hide IsKeyPrev; hide Blocked; hide Fits;
    var i, v := |pending|, vs[|pending|];
    var _ := LinkedBelow(t0, n, vs, t, pending, touched, c, p);
    PrevStable(t0, n, t0, p, v);
    FitsIsPrev(t0, n, vs, t, pending, touched, c, j, v);
    InsertSlots(c, n + i, n + j, v);
    PendingSlots(t0, n, vs, t, pending, c, j);
    InsertLinked(c, Insert(c, n + i, n + j, v), n + i, n, n + j, v);
    TouchedSkip(t0, n, vs, i, touched);
  }

  lemma PendingSlots(t0: Table, n: nat, vs: seq<nat>, t: Table, pending: seq<LeafData>, c: Table, j: nat)
    requires Slots(t0, n, vs, t, pending, c) && |pending| < |vs| && j < |pending|
    ensures var i, v, low := |pending|, vs[|pending|], pending[j];
      && Slots(t0, n, vs, t, pending[j := LeafData(low.value, n + i, v)] + [LeafData(v, low.nextIndex, low.nextValue)],
               Insert(c, n + i, n + j, v))
      && 0 in Insert(c, n + i, n + j, v)
  {
    InsertSlots(c, n + |pending|, n + j, vs[|pending|]);
    hide Insert;
    assert At(c, n + j) == pending[j];
  }

  /** After the batch, absence of its values from the tree is what makes the combined list one in value order. */
  lemma BatchSorted(t0: Table, n: nat, vs: seq<nat>, t: Table, pending: seq<LeafData>, touched: Touched, c: Table)
    requires BatchInv(t0, n, vs, t, pending, touched, c) && |pending| == |vs|
    ensures Sorted(c, n + |vs|) <==> AllAbsent(t0, vs)
  {
    if AllAbsent(t0, vs) {
      AbsentSorted(t0, n, vs, t, pending, touched, c);
    } else {
      PresentUnsorted(t0, n, vs, t, pending, touched, c);
    }
  }

  lemma AbsentSorted(t0: Table, n: nat, vs: seq<nat>, t: Table, pending: seq<LeafData>, touched: Touched, c: Table)
    requires BatchInv(t0, n, vs, t, pending, touched, c) && |pending| == |vs| && AllAbsent(t0, vs)
    ensures Sorted(c, n + |vs|)
  {
    hide BatchInv; hide Linked; hide AllAbsent;
    forall i: nat, j: nat | Active(c, i) && Active(c, j) && i < j
      ensures At(c, i).value != At(c, j).value
    {
      NoRepeat(t0, n, vs, t, pending, touched, c, i, j);
    }
    CombinedLinked(t0, n, vs, t, pending, touched, c);
    Rebase(c, n + |vs|, n, n + |vs|);
  }

  lemma PresentUnsorted(t0: Table, n: nat, vs: seq<nat>, t: Table, pending: seq<LeafData>, touched: Touched, c: Table)
    requires BatchInv(t0, n, vs, t, pending, touched, c) && |pending| == |vs| && !AllAbsent(t0, vs)
    ensures !Sorted(c, n + |vs|)
  {
    var k :| 0 <= k < |vs| && vs[k] != 0 && Holds(t0, vs[k]);
    var i: nat :| Active(t0, i) && At(t0, i).value == vs[k];
    assert i < n;
    hide BatchInv; hide Linked;
    PendingInCombined(t0, n, vs, t, pending, touched, c, k);
    TreeSlotInCombined(t0, n, vs, t, pending, touched, c, i);
    var m := n + |vs|;
    if Sorted(c, m) { SortedDistinct(c, m, m); }
  }

  lemma CombinedLinked(t0: Table, n: nat, vs: seq<nat>, t: Table, pending: seq<LeafData>, touched: Touched, c: Table)
    requires BatchInv(t0, n, vs, t, pending, touched, c) && |pending| == |vs|
    ensures Linked(c, n + |vs|, n) && n >= 1
  {
  }

  lemma NoRepeat(t0: Table, n: nat, vs: seq<nat>, t: Table, pending: seq<LeafData>, touched: Touched, c: Table, i: nat, j: nat)
    requires BatchInv(t0, n, vs, t, pending, touched, c) && AllAbsent(t0, vs)
    requires Active(c, i) && Active(c, j) && i < j
    ensures At(c, i).value != At(c, j).value
  {
    assert Key(c, n, i) != Key(c, n, j);
    CombinedKeys(t0, n, vs, t, pending, touched, c, i);
    CombinedKeys(t0, n, vs, t, pending, touched, c, j);
    hide BatchInv; hide Linked;
    if i < n <= j { assert At(t0, i).value != vs[j - n]; }
  }
}
