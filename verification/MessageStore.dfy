/** The archiver's counted store of L1 to L2 messages, and the accounting of pending, confirmed and cancelled ones. */
module MessageStore {

  datatype Option<T> = None | Some(value: T)

  datatype Message = Message(entryKey: nat, fee: int)

  /** A message and how often it was seen; a confirmation of an unknown key stores no message. */
  datatype Entry = Entry(message: Option<Message>, count: nat)

  type Store = map<nat, Entry>

  function Count(s: Store, key: nat): nat {
    if key in s then s[key].count else 0
  }

  function Added(s: Store, key: nat, message: Option<Message>): Store {
    if key in s then s[key := Entry(s[key].message, s[key].count + 1)] else s[key := Entry(message, 1)]
  }

  /** Key zero is ignored, an unknown key throws. */
  function Removed(s: Store, key: nat): Option<Store> {
    if key == 0 then Some(s)
    else if key !in s then None
    else if s[key].count > 1 then Some(s[key := Entry(s[key].message, s[key].count - 1)])
    else Some(s - {key})
  }

  /** Every entry is counted, and a pending one holds the message of its key. */
  ghost predicate WellKeyed(s: Store) {
    forall k :: k in s ==> s[k].count >= 1 && s[k].message.Some? && s[k].message.value.entryKey == k
  }

  /** The two stores, and what has happened: messages added, cancelled and confirmed, and confirmations that threw
      because the key was not pending. */
  datatype Archive = Archive(pending: Store, confirmed: Store,
                             added: multiset<nat>, cancelled: multiset<nat>, settled: multiset<nat>, failed: multiset<nat>)

  datatype Event = Add(message: Message) | Cancel(key: nat) | Confirm(key: nat)

  function EmptyArchive(): Archive {
    Archive(map[], map[], multiset{}, multiset{}, multiset{}, multiset{})
  }

  /** Whether the step throws. */
  predicate Throws(a: Archive, e: Event) {
    !e.Add? && e.key != 0 && e.key !in a.pending
  }

  /** One message; a confirmation is entered into the confirmed store before the pending one is asked. */
  function Step(a: Archive, e: Event): Archive {
    match e
    case Add(m) => a.(pending := Added(a.pending, m.entryKey, Some(m)), added := a.added + multiset{m.entryKey})
    case Cancel(key) =>
      if Throws(a, e) then a
      else a.(pending := Removed(a.pending, key).value, cancelled := a.cancelled + multiset{key})
    case Confirm(key) =>
      var message := if key in a.pending then a.pending[key].message else None;
      var b := a.(confirmed := Added(a.confirmed, key, message));
      if Throws(a, e) then b.(failed := a.failed + multiset{key})
      else b.(pending := Removed(a.pending, key).value, settled := a.settled + multiset{key})
  }

  /** A list of messages is processed up to the first one that throws. */
  function Process(a: Archive, events: seq<Event>): Archive
    decreases |events|
  {
    if events == [] then a
    else if Throws(a, events[0]) then Step(a, events[0])
    else Process(Step(a, events[0]), events[1..])
  }

  predicate Completes(a: Archive, events: seq<Event>)
    decreases |events|
  {
    events == [] || (!Throws(a, events[0]) && Completes(Step(a, events[0]), events[1..]))
  }

  /** Any sequence of calls, each with its own list. */
  function Run(calls: seq<seq<Event>>): Archive {
    if calls == [] then EmptyArchive() else Process(Run(calls[..|calls| - 1]), calls[|calls| - 1])
  }

  /** For every key but zero: what was added is pending, confirmed or cancelled, and the confirmed store counts the
      confirmations, those that threw included. */
  ghost predicate Balanced(a: Archive) {
    WellKeyed(a.pending) && forall key: nat :: key != 0 ==> BalancedAt(a, key)
  }

  ghost predicate BalancedAt(a: Archive, key: nat) {
    && a.added[key] == Count(a.pending, key) + a.settled[key] + a.cancelled[key]
    && Count(a.confirmed, key) == a.settled[key] + a.failed[key]
  }

  lemma AddedCounts(s: Store, key: nat, message: Option<Message>)
    ensures forall k: nat :: Count(Added(s, key, message), k) == Count(s, k) + if k == key then 1 else 0
    ensures WellKeyed(s) && message.Some? && message.value.entryKey == key ==> WellKeyed(Added(s, key, message))
  {
  }

  lemma RemovedCounts(s: Store, key: nat)
    requires WellKeyed(s) && (key == 0 || key in s)
    ensures Removed(s, key).Some? && WellKeyed(Removed(s, key).value)
    ensures forall k: nat :: Count(s, k) == Count(Removed(s, key).value, k) + if k == key && key != 0 then 1 else 0
  {
  }

  lemma StepBalanced(a: Archive, e: Event)
    requires Balanced(a)
    ensures Balanced(Step(a, e))
  {
    hide Added; hide Removed; hide WellKeyed; hide Count;
    match e {
      case Add(m) => AddedCounts(a.pending, m.entryKey, Some(m));
      case Cancel(key) => if !Throws(a, e) { RemovedCounts(a.pending, key); }
      case Confirm(key) =>
        AddedCounts(a.confirmed, key, if key in a.pending then a.pending[key].message else None);
        if !Throws(a, e) { RemovedCounts(a.pending, key); }
    }
    forall k: nat | k != 0
      ensures BalancedAt(Step(a, e), k)
    {
      assert BalancedAt(a, k);
    }
  }

  lemma {:induction false} ProcessBalanced(a: Archive, events: seq<Event>)
    requires Balanced(a)
    ensures Balanced(Process(a, events))
    ensures Completes(a, events) ==> Process(a, events).failed == a.failed
    decreases |events|
  {
    if events != [] {
      StepBalanced(a, events[0]);
      if !Throws(a, events[0]) { ProcessBalanced(Step(a, events[0]), events[1..]); }
    }
  }

  /** Every confirmation of the key that the call reaches finds the key pending. */
  predicate ConfirmsPendingIn(a: Archive, events: seq<Event>, key: nat)
    decreases |events|
  {
    events == [] ||
    ((events[0] == Confirm(key) ==> key in a.pending) &&
     (Throws(a, events[0]) || ConfirmsPendingIn(Step(a, events[0]), events[1..], key)))
  }

  predicate ConfirmsPending(calls: seq<seq<Event>>, key: nat) {
    calls == [] ||
    (ConfirmsPending(calls[..|calls| - 1], key) && ConfirmsPendingIn(Run(calls[..|calls| - 1]), calls[|calls| - 1], key))
  }

  /** A call adds to the failed confirmations of a key exactly when it confirms the key while it is not pending. */
  lemma {:induction false} FailsExactly(a: Archive, events: seq<Event>, key: nat)
    requires key != 0
    ensures Process(a, events).failed[key] >= a.failed[key]
    ensures Process(a, events).failed[key] == a.failed[key] <==> ConfirmsPendingIn(a, events, key)
    decreases |events|
  {
    if events != [] && !Throws(a, events[0]) { FailsExactly(Step(a, events[0]), events[1..], key); }
  }

  lemma {:induction false} RunFailsExactly(calls: seq<seq<Event>>, key: nat)
    requires key != 0
    ensures Run(calls).failed[key] == 0 <==> ConfirmsPending(calls, key)
  {
    if calls != [] {
      RunFailsExactly(calls[..|calls| - 1], key);
      FailsExactly(Run(calls[..|calls| - 1]), calls[|calls| - 1], key);
    }
  }

  lemma {:induction false} RunKeepsBalance(calls: seq<seq<Event>>)
    ensures Balanced(Run(calls))
  {
    if calls != [] {
      RunKeepsBalance(calls[..|calls| - 1]);
      ProcessBalanced(Run(calls[..|calls| - 1]), calls[|calls| - 1]);
    }
  }

  /** Accounting over every run: for each key but zero, added = pending + confirmed + cancelled holds exactly when every
      confirmation of the key found it pending. */
  lemma RunBalanced(calls: seq<seq<Event>>, key: nat)
    requires key != 0
    ensures Run(calls).added[key] == Count(Run(calls).pending, key) + Count(Run(calls).confirmed, key) + Run(calls).cancelled[key]
      <==> ConfirmsPending(calls, key)
  {
    RunKeepsBalance(calls);
    RunFailsExactly(calls, key);
    hide Run;
    assert BalancedAt(Run(calls), key);
  }

  /** A confirmation of a key that is not pending counts it as confirmed although it throws. */
  lemma FailedConfirmationCounts(key: nat)
    requires key != 0
    ensures var a := Run([[Confirm(key)]]);
      Throws(EmptyArchive(), Confirm(key)) && Count(a.confirmed, key) == 1 && a.added[key] == 0
  {
    assert [[Confirm(key)]][..0] == [];
    assert Run([[Confirm(key)]]) == Process(EmptyArchive(), [Confirm(key)]);
  }

  function MessageOf(s: Store, key: nat): Option<Message> {
    if key in s then s[key].message else None
  }

  /** Messages do not change: a key that stays in a store keeps its message, a key that becomes pending gets the added
      message, and a key that becomes confirmed gets the message that was pending under it. */
  lemma StepMessages(a: Archive, e: Event, key: nat)
    requires Balanced(a)
    ensures var a' := Step(a, e);
      && (key in a'.pending ==> a'.pending[key].message == if key in a.pending then a.pending[key].message else Some(e.message))
      && (key in a'.confirmed ==> a'.confirmed[key].message == if key in a.confirmed then a.confirmed[key].message else MessageOf(a.pending, key))
      && (key in a.confirmed ==> key in a'.confirmed)
      && (key in a'.pending && key !in a.pending ==> e == Add(a'.pending[key].message.value))
      && (key in a'.confirmed && key !in a.confirmed ==> e == Confirm(key))
  {
    hide BalancedAt; hide Count;
    StoreMessages(a.pending, if e.Add? then e.message.entryKey else e.key, if e.Add? then Some(e.message) else None, key);
    if e.Confirm? { StoreMessages(a.confirmed, e.key, MessageOf(a.pending, e.key), key); }
    hide Added; hide Removed; hide WellKeyed;
  }

  /** Adding and removing keep the messages of the keys that stay. */
  lemma StoreMessages(s: Store, k: nat, message: Option<Message>, key: nat)
    ensures key in Added(s, k, message) <==> key in s || key == k
    ensures key in Added(s, k, message) ==> Added(s, k, message)[key].message == if key in s then s[key].message else message
    ensures Removed(s, k).Some? <==> k == 0 || k in s
    ensures Removed(s, k).Some? && key in Removed(s, k).value ==> key in s && Removed(s, k).value[key].message == s[key].message
  {
  }

  /** From the moment its key becomes pending, a message stays under it as long as the key is pending, and if the key is
      then confirmed for the first time it is that message which is confirmed, for good. */
  lemma {:induction false} FirstMessageKept(a: Archive, m: Message, events: seq<Event>)
    requires Balanced(a) && m.entryKey !in a.pending && m.entryKey !in a.confirmed
    requires forall i: nat :: i <= |events| ==> PendingOrConfirmed(Steps(Step(a, Add(m)), events[..i]), m.entryKey)
    ensures var b := Steps(Step(a, Add(m)), events);
      && Balanced(b)
      && (m.entryKey in b.confirmed ==> b.confirmed[m.entryKey].message == Some(m))
      && (m.entryKey in b.pending && m.entryKey !in b.confirmed ==> b.pending[m.entryKey].message == Some(m))
  {
    var a1 := Step(a, Add(m));
    StepBalanced(a, Add(m));
    StepMessages(a, Add(m), m.entryKey);
    if events != [] {
      var init, e := events[..|events| - 1], events[|events| - 1];
      forall i: nat | i <= |init|
        ensures PendingOrConfirmed(Steps(a1, init[..i]), m.entryKey)
      {
        assert init[..i] == events[..i];
      }
      FirstMessageKept(a, m, init);
      assert init[..|init|] == init;
      StepBalanced(Steps(a1, init), e);
      StepMessages(Steps(a1, init), e, m.entryKey);
      hide Step; hide Balanced;
    }
  }

  predicate PendingOrConfirmed(a: Archive, key: nat) {
    key in a.pending || key in a.confirmed
  }

  /** Single steps, whether they throw or not. */
  function Steps(a: Archive, events: seq<Event>): Archive {
    if events == [] then a else Step(Steps(a, events[..|events| - 1]), events[|events| - 1])
  }

  /** `n` copies. */
  function Repeat(key: nat, n: nat): (s: seq<nat>)
    ensures |s| == n && forall i :: 0 <= i < n ==> s[i] == key
  {
    if n == 0 then [] else Repeat(key, n - 1) + [key]
  }

  /** The keys in order, each as often as its message was seen. */
  function Expand(s: Store, keys: seq<nat>): seq<nat> {
    if keys == [] then [] else Expand(s, keys[..|keys| - 1]) + Repeat(keys[|keys| - 1], Count(s, keys[|keys| - 1]))
  }

  function Fee(s: Store, key: nat): int {
    if key in s && s[key].message.Some? then s[key].message.value.fee else 0
  }

  ghost predicate ByFee(s: Store, keys: seq<nat>) {
    forall i, j :: 0 <= i < j < |keys| ==> Fee(s, keys[i]) >= Fee(s, keys[j])
  }

  ghost predicate Distinct(keys: seq<nat>) {
    forall i, j :: 0 <= i < j < |keys| ==> keys[i] != keys[j]
  }

  /** What `getMessageKeys` promises: as many keys as asked for, or all; the best paid first; none more often than it
      was seen, and none left out in favour of one that pays less. */
  ghost predicate BestPaid(s: Store, take: int, r: seq<nat>) {
    && ByFee(s, r)
    && (forall k: nat :: multiset(r)[k] <= Count(s, k))
    && (forall k: nat, j: nat :: k in r && Fee(s, j) > Fee(s, k) && j in s ==> multiset(r)[j] == Count(s, j))
    && exists all: seq<nat> :: AllSeen(s, all) && |r| == Asked(take, |all|)
  }

  /** A list of the stored keys, each as often as it was seen. */
  ghost predicate AllSeen(s: Store, all: seq<nat>) {
    forall k: nat :: multiset(all)[k] == Count(s, k)
  }

  function Asked(take: int, total: nat): nat {
    if take < 1 then 0 else if take < total then take else total
  }

  lemma {:induction false} ExpandByFee(s: Store, keys: seq<nat>)
    requires ByFee(s, keys)
    ensures ByFee(s, Expand(s, keys))
    ensures forall k :: k in Expand(s, keys) ==> k in keys
  {
    if keys != [] {
      var init, last := keys[..|keys| - 1], keys[|keys| - 1];
      ExpandByFee(s, init);
      var e := Expand(s, init);
      forall i | 0 <= i < |e|
        ensures Fee(s, e[i]) >= Fee(s, last)
      {
        assert e[i] in init;
      }
    }
  }

  lemma {:induction false} RepeatCount(key: nat, n: nat, k: nat)
    ensures multiset(Repeat(key, n))[k] == if k == key then n else 0
  {
    if n > 0 { RepeatCount(key, n - 1, k); }
  }

  lemma {:induction false} ExpandCount(s: Store, keys: seq<nat>, k: nat)
    requires Distinct(keys)
    ensures multiset(Expand(s, keys))[k] == if k in keys then Count(s, k) else 0
  {
    if keys != [] {
      var init, last := keys[..|keys| - 1], keys[|keys| - 1];
      assert keys == init + [last];
      ExpandCount(s, init, k);
      RepeatCount(last, Count(s, last), k);
    }
  }

  /** Whoever pays more than someone in a prefix of a list sorted by fee is not in the rest. */
  lemma NoneLeftOut(s: Store, all: seq<nat>, n: nat, k: nat, j: nat)
    requires ByFee(s, all) && n <= |all| && k in all[..n] && Fee(s, j) > Fee(s, k)
    ensures j !in all[n..]
  {
    var i :| 0 <= i < n && all[i] == k;
    forall x | 0 <= x < |all[n..]|
      ensures all[n..][x] != j
    {
      assert Fee(s, all[i]) >= Fee(s, all[n + x]);
    }
  }

  lemma SplitCounts(all: seq<nat>, n: nat)
    requires n <= |all|
    ensures forall k: nat :: multiset(all)[k] == multiset(all[..n])[k] + multiset(all[n..])[k]
  {
    assert all == all[..n] + all[n..];
  }

  lemma ExpandAllSeen(s: Store, keys: seq<nat>)
    requires Distinct(keys) && (forall k: nat :: k in keys <==> k in s)
    ensures AllSeen(s, Expand(s, keys))
  {
    forall k: nat
      ensures multiset(Expand(s, keys))[k] == Count(s, k)
    {
      ExpandCount(s, keys, k);
    }
  }

  lemma PrefixByFee(s: Store, all: seq<nat>, n: nat)
    requires ByFee(s, all) && n <= |all|
    ensures ByFee(s, all[..n])
  {
  }

  /** A prefix of the expanded sorted keys is best paid. */
  lemma PrefixBestPaid(s: Store, keys: seq<nat>, take: int, n: nat)
    requires Distinct(keys) && ByFee(s, keys) && (forall k: nat :: k in keys <==> k in s)
    requires n == Asked(take, |Expand(s, keys)|)
    ensures BestPaid(s, take, Expand(s, keys)[..n])
  {
    hide ByFee; hide Expand; hide Fee; hide Count; hide Distinct;
    var all: seq<nat> := Expand(s, keys);
    var r: seq<nat> := all[..n];
    ExpandByFee(s, keys);
    PrefixByFee(s, all, n);
    ExpandAllSeen(s, keys);
    SplitCounts(all, n);
    assert forall k: nat :: multiset(r)[k] <= Count(s, k);
    forall k: nat, j: nat | k in r && Fee(s, j) > Fee(s, k) && j in s
      ensures multiset(r)[j] == Count(s, j)
    {
      NoneLeftOut(s, all, n, k, j);
    }
  }

  /** What a best-paid selection means for the messages: keys of stored messages in non-increasing order of their fees,
      and no stored message with a higher fee than a selected one is left out. */
  lemma BestPaidFees(s: Store, take: int, r: seq<nat>, i: nat, j: nat)
    requires WellKeyed(s) && BestPaid(s, take, r) && i < |r|
    ensures r[i] in s
    ensures i < j < |r| ==> r[j] in s && s[r[i]].message.value.fee >= s[r[j]].message.value.fee
    ensures j in s && s[j].message.value.fee > s[r[i]].message.value.fee ==> multiset(r)[j] == s[j].count
  {
    assert r[i] in multiset(r);
    if i < j < |r| { assert r[j] in multiset(r); }
  }

  class L1ToL2MessageStore {
    var store: Store

    constructor ()
      ensures store == map[]
    {
      store := map[];
    }

    method AddMessage(key: nat, message: Option<Message>)
      modifies this
      ensures store == Added(old(store), key, message)
    {
      if key in store {
        store := store[key := Entry(store[key].message, store[key].count + 1)];
      } else {
        store := store[key := Entry(message, 1)];
      }
    }

    method GetMessage(key: nat) returns (message: Option<Message>)
      ensures message == if key in store then store[key].message else None
    {
      message := if key in store then store[key].message else None;
    }

    method RemoveMessage(key: nat) returns (ok: bool)
      modifies this
      ensures ok <==> Removed(old(store), key).Some?
      ensures store == if ok then Removed(old(store), key).value else old(store)
    {
      if key == 0 { return true; }
      if key !in store { return false; }
      if store[key].count > 1 {
        store := store[key := Entry(store[key].message, store[key].count - 1)];
      } else {
        store := store - {key};
      }
      ok := true;
    }

    /** The stored keys, best paid first: collects the entries and inserts each at its place. */
    method SortedKeys() returns (keys: seq<nat>)
      ensures Distinct(keys) && ByFee(store, keys) && forall k: nat :: k in keys <==> k in store
    {
      keys := [];
      var todo := store.Keys;
      while todo != {}
        invariant todo <= store.Keys
        invariant Distinct(keys) && ByFee(store, keys)
        invariant forall k: nat :: k in keys <==> k in store && k !in todo
        decreases |todo|
      {
        var k :| k in todo;
        var at := 0;
        while at < |keys| && Fee(store, keys[at]) >= Fee(store, k)
          invariant 0 <= at <= |keys|
          invariant forall i :: 0 <= i < at ==> Fee(store, keys[i]) >= Fee(store, k)
        {
          at := at + 1;
        }
        InsertKey(store, keys, at, k);
        keys := keys[..at] + [k] + keys[at..];
        todo := todo - {k};
      }
    }

    static lemma InsertKey(s: Store, keys: seq<nat>, at: nat, k: nat)
      requires Distinct(keys) && ByFee(s, keys) && k !in keys && at <= |keys|
      requires forall i :: 0 <= i < at ==> Fee(s, keys[i]) >= Fee(s, k)
      requires at < |keys| ==> Fee(s, keys[at]) < Fee(s, k)
      ensures var r := keys[..at] + [k] + keys[at..];
        Distinct(r) && ByFee(s, r) && forall j: nat :: j in r <==> j == k || j in keys
    {
      var r := keys[..at] + [k] + keys[at..];
      InsertedAt(keys, at, k, r);
      hide Fee;
      forall i, j | 0 <= i < j < |r|
        ensures r[i] != r[j]
      {
        assert i != at ==> r[i] in keys;
        assert j != at ==> r[j] in keys;
        if i != at && j != at {
          var i', j' := if i < at then i else i - 1, if j < at then j else j - 1;
          assert keys[i'] != keys[j'];
        }
      }
      forall i, j | 0 <= i < j < |r|
        ensures Fee(s, r[i]) >= Fee(s, r[j])
      {
        InsertKeyFee(s, keys, at, k, r, i, j);
      }
    }

    static lemma InsertKeyFee(s: Store, keys: seq<nat>, at: nat, k: nat, r: seq<nat>, i: nat, j: nat)
      requires ByFee(s, keys) && at <= |keys| && r == keys[..at] + [k] + keys[at..] && i < j < |r|
      requires forall x :: 0 <= x < at ==> Fee(s, keys[x]) >= Fee(s, k)
      requires at < |keys| ==> Fee(s, keys[at]) < Fee(s, k)
      ensures Fee(s, r[i]) >= Fee(s, r[j])
    {
      hide Fee;
      assert r[i] == if i < at then keys[i] else if i == at then k else keys[i - 1];
      assert r[j] == if j < at then keys[j] else if j == at then k else keys[j - 1];
      if i == at {
        assert j - 1 > at ==> Fee(s, keys[at]) >= Fee(s, keys[j - 1]);
      } else if j != at {
        var i', j' := if i < at then i else i - 1, if j < at then j else j - 1;
        assert Fee(s, keys[i']) >= Fee(s, keys[j']);
      }
    }

    static lemma InsertedAt(keys: seq<nat>, at: nat, k: nat, r: seq<nat>)
      requires at <= |keys| && r == keys[..at] + [k] + keys[at..]
      ensures |r| == |keys| + 1
      ensures forall i :: 0 <= i < |r| ==> r[i] == if i < at then keys[i] else if i == at then k else keys[i - 1]
      ensures forall j: nat :: j in r <==> j == k || j in keys
    {
      assert keys == keys[..at] + keys[at..];
    }

    /** The keys of up to `take` messages with the highest fees. */
    method GetMessageKeys(take: int) returns (messages: seq<nat>)
      requires WellKeyed(store)
      ensures BestPaid(store, take, messages)
    {
      var sorted := SortedKeys();
      hide BestPaid; hide ByFee; hide Distinct;
      if take < 1 {
        PrefixBestPaid(store, sorted, take, 0);
        assert Expand(store, sorted)[..0] == [];
        return [];
      }
      messages := [];
      for i := 0 to |sorted|
        invariant messages == Expand(store, sorted[..i]) && |messages| < take
      {
        var key := sorted[i];
        assert key in sorted;
        assert sorted[..i + 1] == sorted[..i] + [key] && sorted[..i + 1][..i] == sorted[..i];
        var entry := store[key];
        for j := 0 to entry.count
          invariant messages == Expand(store, sorted[..i]) + Repeat(key, j) && |messages| < take
        {
          messages := messages + [entry.message.value.entryKey];
          if |messages| == take {
            FullPrefix(store, sorted, i, j + 1, messages);
            PrefixBestPaid(store, sorted, take, |messages|);
            return;
          }
        }
      }
      assert sorted[..|sorted|] == sorted;
      assert messages[..|messages|] == messages;
      PrefixBestPaid(store, sorted, take, |messages|);
    }

    static lemma FullPrefix(s: Store, keys: seq<nat>, i: nat, j: nat, r: seq<nat>)
      requires i < |keys| && j <= Count(s, keys[i]) && r == Expand(s, keys[..i]) + Repeat(keys[i], j)
      ensures |r| <= |Expand(s, keys)| && r == Expand(s, keys)[..|r|]
    {
      ExpandPrefix(s, keys, i + 1);
      assert keys[..i + 1][..i] == keys[..i];
      var full := Repeat(keys[i], Count(s, keys[i]));
      assert full[..j] == Repeat(keys[i], j);
      assert Expand(s, keys[..i + 1]) == Expand(s, keys[..i]) + full;
    }

    static lemma {:induction false} ExpandPrefix(s: Store, keys: seq<nat>, i: nat)
      requires i <= |keys|
      ensures |Expand(s, keys[..i])| <= |Expand(s, keys)| && Expand(s, keys[..i]) == Expand(s, keys)[..|Expand(s, keys[..i])|]
    {
      if i < |keys| {
        ExpandPrefix(s, keys[..|keys| - 1], i);
        assert keys[..|keys| - 1][..i] == keys[..i];
      } else {
        assert keys[..i] == keys;
      }
    }
  }

  /** The archiver's two stores. */
  class ArchiverStore {
    const pending: L1ToL2MessageStore
    const confirmed: L1ToL2MessageStore
    ghost var added: multiset<nat>
    ghost var cancelled: multiset<nat>
    ghost var settled: multiset<nat>
    ghost var failed: multiset<nat>

    ghost function State(): Archive
      reads this, pending, confirmed
    {
      Archive(pending.store, confirmed.store, added, cancelled, settled, failed)
    }

    ghost predicate Valid()
      reads this, pending, confirmed
    {
      pending != confirmed && Balanced(State())
    }

    constructor ()
      ensures Valid() && fresh(pending) && fresh(confirmed) && State() == EmptyArchive()
    {
      pending := new L1ToL2MessageStore();
      confirmed := new L1ToL2MessageStore();
      added, cancelled, settled, failed := multiset{}, multiset{}, multiset{}, multiset{};
    }

    method AddPendingL1ToL2Messages(messages: seq<Message>)
      requires Valid()
      modifies this, pending
      ensures Valid() && State() == Process(old(State()), Adds(messages))
    {
      for i := 0 to |messages|
        invariant Valid() && Process(State(), Adds(messages[i..])) == Process(old(State()), Adds(messages))
      {
        assert messages[i..][0] == messages[i] && messages[i..][1..] == messages[i + 1..];
        StepBalanced(State(), Add(messages[i]));
        pending.AddMessage(messages[i].entryKey, Some(messages[i]));
        added := added + multiset{messages[i].entryKey};
      }
    }

    method CancelPendingL1ToL2Messages(keys: seq<nat>) returns (ok: bool)
      requires Valid()
      modifies this, pending
      ensures Valid() && State() == Process(old(State()), Cancels(keys))
      ensures ok <==> Completes(old(State()), Cancels(keys))
    {
      hide Balanced;
      for i := 0 to |keys|
        invariant Valid() && Process(State(), Cancels(keys[i..])) == Process(old(State()), Cancels(keys))
        invariant Completes(State(), Cancels(keys[i..])) <==> Completes(old(State()), Cancels(keys))
      {
        assert keys[i..][0] == keys[i] && keys[i..][1..] == keys[i + 1..];
        StepBalanced(State(), Cancel(keys[i]));
        ok := pending.RemoveMessage(keys[i]);
        if !ok { return; }
        cancelled := cancelled + multiset{keys[i]};
      }
      ok := true;
    }

    method ConfirmL1ToL2Messages(keys: seq<nat>) returns (ok: bool)
      requires Valid()
      modifies this, pending, confirmed
      ensures Valid() && State() == Process(old(State()), Confirms(keys))
      ensures ok <==> Completes(old(State()), Confirms(keys))
    {
      hide Balanced; hide Added; hide Process; hide Completes; hide Confirms;
      NoConfirms();
      for i := 0 to |keys|
        invariant Valid() && Process(State(), Confirms(keys[i..])) == Process(old(State()), Confirms(keys))
        invariant Completes(State(), Confirms(keys[i..])) <==> Completes(old(State()), Confirms(keys))
      {
        assert keys[i..][0] == keys[i] && keys[i..][1..] == keys[i + 1..];
        ConfirmFirst(State(), keys[i..]);
        StepBalanced(State(), Confirm(keys[i]));
        var message := pending.GetMessage(keys[i]);
        confirmed.AddMessage(keys[i], message);
        ok := pending.RemoveMessage(keys[i]);
        if !ok {
          failed := failed + multiset{keys[i]};
          return;
        }
        settled := settled + multiset{keys[i]};
      }
      ok := true;
    }
  }

  function Adds(messages: seq<Message>): seq<Event> {
    if messages == [] then [] else [Add(messages[0])] + Adds(messages[1..])
  }

  function Cancels(keys: seq<nat>): seq<Event> {
    if keys == [] then [] else [Cancel(keys[0])] + Cancels(keys[1..])
  }

  function Confirms(keys: seq<nat>): seq<Event> {
    if keys == [] then [] else [Confirm(keys[0])] + Confirms(keys[1..])
  }

  lemma ConfirmFirst(a: Archive, keys: seq<nat>)
    requires keys != []
    ensures var e := Confirm(keys[0]);
      && Process(a, Confirms(keys)) == (if Throws(a, e) then Step(a, e) else Process(Step(a, e), Confirms(keys[1..])))
      && (Completes(a, Confirms(keys)) <==> !Throws(a, e) && Completes(Step(a, e), Confirms(keys[1..])))
  {
    hide Step; hide Throws;
  }

  lemma NoConfirms()
    ensures forall b: Archive :: Process(b, Confirms([])) == b && Completes(b, Confirms([]))
  {
  }
}
