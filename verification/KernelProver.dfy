/** The kernel prover's walk over nested executions with an explicit stack. */
module KernelProver {

  const PRIVATE_CALL_STACK_LENGTH := 4
  const READ_REQUESTS_LENGTH := 4

  /** Call stack items, keys, notes and commitments are opaque; item 0 stands for the empty one. */
  datatype Execution = Execution(item: nat, vk: nat, nested: seq<Execution>, readIndices: seq<nat>, notes: seq<nat>)

  /** What the app circuit hands to the kernel: call preimages and read witnesses are padded to fixed lengths. */
  datatype CallData = CallData(item: nat, preimages: seq<nat>, witnesses: seq<nat>, vk: nat)

  /** Proof creation and commitments are foreign code. */
  datatype Creator<!Output> = Creator(
    init: CallData -> Output,
    inner: (Output, nat, CallData) -> Output,
    siloed: nat -> seq<nat>,
    commitments: Output -> seq<nat>,
    noteWitness: nat -> nat)

  datatype Result<Output> = Proved(output: Output, notes: seq<nat>) | Thrown

  function Zeros(n: nat): (s: seq<nat>)
    ensures |s| == n && forall i :: 0 <= i < n ==> s[i] == 0
  {
    if n == 0 then [] else [0] + Zeros(n - 1)
  }

  function Items(es: seq<Execution>): (s: seq<nat>)
    ensures |s| == |es| && forall i :: 0 <= i < |es| ==> s[i] == es[i].item
  {
    if es == [] then [] else Items(es[..|es| - 1]) + [es[|es| - 1].item]
  }

  function Witnesses<O>(p: Creator<O>, indices: seq<nat>): (s: seq<nat>)
    ensures |s| == |indices| && forall i :: 0 <= i < |indices| ==> s[i] == p.noteWitness(indices[i])
  {
    if indices == [] then [] else Witnesses(p, indices[..|indices| - 1]) + [p.noteWitness(indices[|indices| - 1])]
  }

  /** The limits of one call: more nested calls or read requests than the circuit has room for throw, and so does
      a note without a commitment. */
  predicate Fits<O>(p: Creator<O>, e: Execution) {
    |e.nested| <= PRIVATE_CALL_STACK_LENGTH && |e.readIndices| <= READ_REQUESTS_LENGTH && |e.notes| <= |p.siloed(e.item)|
  }

  function Prepare<O>(p: Creator<O>, e: Execution): CallData
    requires Fits(p, e)
  {
    CallData(e.item, Items(e.nested) + Zeros(PRIVATE_CALL_STACK_LENGTH - |e.nested|),
             Witnesses(p, e.readIndices) + Zeros(READ_REQUESTS_LENGTH - |e.readIndices|), e.vk)
  }

  /** The recursive traversal: a call, then its nested calls from the last to the first. */
  function Visit(e: Execution): (s: seq<Execution>)
    ensures |s| >= 1 && s[0] == e
    decreases e, 1
  {
    [e] + VisitLast(e.nested)
  }

  function VisitLast(es: seq<Execution>): seq<Execution>
    decreases es, 0
  {
    if es == [] then [] else Visit(es[|es| - 1]) + VisitLast(es[..|es| - 1])
  }

  /** Each proof extends the previous one with its key; only the first is an init proof. */
  function Proof<O>(p: Creator<O>, visits: seq<Execution>): O
    requires visits != [] && forall e :: e in visits ==> Fits(p, e)
  {
    var last := |visits| - 1;
    var data := Prepare(p, visits[last]);
    if last == 0 then p.init(data) else p.inner(Proof(p, visits[..last]), visits[last - 1].vk, data)
  }

  /** The notes of the visited calls by commitment; a later note replaces an earlier one. */
  function Notes<O>(p: Creator<O>, visits: seq<Execution>): map<nat, nat>
    requires forall e :: e in visits ==> Fits(p, e)
  {
    if visits == [] then map[]
    else
      var e := visits[|visits| - 1];
      assert e in visits && Fits(p, e);
      AddNotes(Notes(p, visits[..|visits| - 1]), p.siloed(e.item), e.notes)
  }

  function AddNotes(known: map<nat, nat>, commitments: seq<nat>, notes: seq<nat>): map<nat, nat>
    requires |notes| <= |commitments|
    decreases |notes|
  {
    if notes == [] then known
    else AddNotes(known, commitments, notes[..|notes| - 1])[commitments[|notes| - 1] := notes[|notes| - 1]]
  }

  /** The notes whose commitments the final proof carries, in its order. */
  function Kept(known: map<nat, nat>, commitments: seq<nat>): seq<nat> {
    if commitments == [] then []
    else
      var c := commitments[|commitments| - 1];
      Kept(known, commitments[..|commitments| - 1]) + if c in known then [known[c]] else []
  }

  /** Note i of visit k has the commitment c. */
  ghost predicate Made<O>(p: Creator<O>, visits: seq<Execution>, c: nat, k: nat, i: nat) {
    k < |visits| && i < |visits[k].notes| <= |p.siloed(visits[k].item)| && p.siloed(visits[k].item)[i] == c
  }

  /** ... and no later note has. */
  ghost predicate MadeLast<O>(p: Creator<O>, visits: seq<Execution>, c: nat, k: nat, i: nat) {
    Made(p, visits, c, k, i) && forall k': nat, i': nat :: Made(p, visits, c, k', i') ==> k' < k || (k' == k && i' <= i)
  }

  /** A commitment is on record exactly when a visited call made a note under it, and the note on record is the last
      such note. */
  lemma {:induction false} NotesFromVisits<O>(p: Creator<O>, visits: seq<Execution>, c: nat)
    requires forall e :: e in visits ==> Fits(p, e)
    ensures c in Notes(p, visits) <==> exists k: nat, i: nat :: Made(p, visits, c, k, i)
    ensures c in Notes(p, visits) ==> exists k: nat, i: nat :: MadeLast(p, visits, c, k, i) && visits[k].notes[i] == Notes(p, visits)[c]
  {
    if visits != [] {
      var init, e := visits[..|visits| - 1], visits[|visits| - 1];
      assert e in visits && Fits(p, e);
      NotesFromVisits(p, init, c);
      MadeInPrefix(p, visits, c);
      AddNotesLast(Notes(p, init), p.siloed(e.item), e.notes, c);
      if i :| NotedLast(p.siloed(e.item), e.notes, c, i) {
        assert MadeLast(p, visits, c, |init|, i);
      } else if c in Notes(p, init) {
        var k: nat, i: nat :| MadeLast(p, init, c, k, i) && init[k].notes[i] == Notes(p, init)[c];
        assert MadeLast(p, visits, c, k, i) by {
          forall k': nat, i': nat | Made(p, visits, c, k', i')
            ensures k' < k || (k' == k && i' <= i)
          {
            assert k' != |init|;
            assert Made(p, init, c, k', i');
          }
        }
      }
    }
  }

  lemma MadeInPrefix<O>(p: Creator<O>, visits: seq<Execution>, c: nat)
    requires visits != []
    ensures var init, e := visits[..|visits| - 1], visits[|visits| - 1];
      forall k: nat, i: nat :: Made(p, visits, c, k, i) <==>
        Made(p, init, c, k, i) || (k == |init| && Noted(p.siloed(e.item), e.notes, c, i))
  {
  }

  ghost predicate Noted(commitments: seq<nat>, notes: seq<nat>, c: nat, i: nat) {
    i < |notes| <= |commitments| && commitments[i] == c
  }

  ghost predicate NotedLast(commitments: seq<nat>, notes: seq<nat>, c: nat, i: nat) {
    Noted(commitments, notes, c, i) && forall j: nat :: Noted(commitments, notes, c, j) ==> j <= i
  }

  lemma {:induction false} AddNotesLast(known: map<nat, nat>, commitments: seq<nat>, notes: seq<nat>, c: nat)
    requires |notes| <= |commitments|
    ensures var r := AddNotes(known, commitments, notes);
      if exists i: nat :: NotedLast(commitments, notes, c, i)
      then c in r && forall i: nat :: NotedLast(commitments, notes, c, i) ==> r[c] == notes[i]
      else (forall i: nat :: !Noted(commitments, notes, c, i)) && (c in r <==> c in known) && (c in r ==> r[c] == known[c])
    decreases |notes|
  {
    if notes != [] {
      var n := |notes| - 1;
      AddNotesLast(known, commitments, notes[..n], c);
      if commitments[n] == c {
        assert NotedLast(commitments, notes, c, n);
      } else {
        forall i: nat
          ensures Noted(commitments, notes, c, i) <==> Noted(commitments, notes[..n], c, i)
          ensures NotedLast(commitments, notes, c, i) <==> NotedLast(commitments, notes[..n], c, i)
        {
          assert forall j: nat :: Noted(commitments, notes, c, j) <==> Noted(commitments, notes[..n], c, j);
        }
      }
    }
  }

  /** The positions of the commitments that are on record. */
  function KeptAt(known: map<nat, nat>, commitments: seq<nat>): seq<nat> {
    if commitments == [] then []
    else
      var n := |commitments| - 1;
      KeptAt(known, commitments[..n]) + if commitments[n] in known then [n] else []
  }

  ghost predicate Increasing(at: seq<nat>) {
    forall x, y :: 0 <= x < y < |at| ==> at[x] < at[y]
  }

  lemma {:induction false} KeptAtPositions(known: map<nat, nat>, commitments: seq<nat>)
    ensures var at, kept := KeptAt(known, commitments), Kept(known, commitments);
      && Increasing(at) && |kept| == |at|
      && (forall j: nat :: j in at <==> j < |commitments| && commitments[j] in known)
      && forall x :: 0 <= x < |at| ==> at[x] < |commitments| && commitments[at[x]] in known && kept[x] == known[commitments[at[x]]]
  {
    if commitments != [] {
      var n := |commitments| - 1;
      var init := commitments[..n];
      KeptAtPositions(known, init);
      var at := KeptAt(known, init);
      forall x | 0 <= x < |at|
        ensures at[x] < n && init[at[x]] == commitments[at[x]]
      {
        assert at[x] in at;
      }
    }
  }

  /** The returned notes: for the listed commitments that some visited call made, in their order, the last note made. */
  ghost predicate ReturnsNotes<O>(p: Creator<O>, visits: seq<Execution>, commitments: seq<nat>, notes: seq<nat>) {
    exists at: seq<nat> :: ReturnsNotesAt(p, visits, commitments, notes, at)
  }

  ghost predicate ReturnsNotesAt<O>(p: Creator<O>, visits: seq<Execution>, commitments: seq<nat>, notes: seq<nat>, at: seq<nat>) {
    && Increasing(at) && |notes| == |at|
    && (forall j: nat :: j in at <==> j < |commitments| && exists k: nat, i: nat :: Made(p, visits, commitments[j], k, i))
    && forall x :: 0 <= x < |at| ==> at[x] < |commitments| && IsLastNote(p, visits, commitments[at[x]], notes[x])
  }

  ghost predicate IsLastNote<O>(p: Creator<O>, visits: seq<Execution>, c: nat, note: nat) {
    exists k: nat, i: nat :: MadeLast(p, visits, c, k, i) && visits[k].notes[i] == note
  }

  lemma KeptReturnsNotes<O>(p: Creator<O>, visits: seq<Execution>, commitments: seq<nat>)
    requires forall e :: e in visits ==> Fits(p, e)
    ensures ReturnsNotes(p, visits, commitments, Kept(Notes(p, visits), commitments))
  {
    var known := Notes(p, visits);
    var at, kept := KeptAt(known, commitments), Kept(known, commitments);
    KeptAtPositions(known, commitments);
    hide KeptAt; hide Kept; hide Notes; hide Made; hide MadeLast; hide Fits; hide Increasing;
    forall c: nat
      ensures c in known <==> exists k: nat, i: nat :: Made(p, visits, c, k, i)
      ensures c in known ==> IsLastNote(p, visits, c, known[c])
    {
      NotesFromVisits(p, visits, c);
    }
    assert ReturnsNotesAt(p, visits, commitments, kept, at);
  }

  lemma {:induction false} VisitLastConcat(a: seq<Execution>, b: seq<Execution>)
    ensures VisitLast(a + b) == VisitLast(b) + VisitLast(a)
    decreases |b|
  {
    if b == [] {
      assert a + b == a;
    } else {
      VisitLastConcat(a, b[..|b| - 1]);
      assert (a + b)[..|a + b| - 1] == a + b[..|b| - 1];
      assert (a + b)[|a + b| - 1] == b[|b| - 1];
    }
  }

  /** Popping a call and pushing its nested calls is one step of the recursive traversal. */
  lemma PopPush(stack: seq<Execution>, e: Execution, rest: seq<Execution>)
    requires stack == rest + [e]
    ensures VisitLast(stack) == [e] + VisitLast(rest + e.nested)
  {
    hide *;
    VisitLastConcat(rest, e.nested);
    VisitOne(e);
    VisitTop(stack);
    assert stack[|stack| - 1] == e && stack[..|stack| - 1] == rest;
    Associative([e], VisitLast(e.nested), VisitLast(rest));
  }

  lemma Associative(a: seq<Execution>, b: seq<Execution>, c: seq<Execution>)
    ensures (a + b) + c == a + (b + c)
  {
  }

  lemma VisitOne(e: Execution)
    ensures Visit(e) == [e] + VisitLast(e.nested)
  {
  }

  lemma VisitTop(stack: seq<Execution>)
    requires stack != []
    ensures VisitLast(stack) == Visit(stack[|stack| - 1]) + VisitLast(stack[..|stack| - 1])
  {
  }

  /** The stack loop proves the calls in the order of the recursive traversal, chaining each output and key into
      the next step, and throws exactly when some call breaks a limit. */
  method Prove<O>(p: Creator<O>, root: Execution, emptyOutput: O, fakeKey: nat) returns (r: Result<O>)
    ensures r.Proved? <==> forall e :: e in Visit(root) ==> Fits(p, e)
    ensures r.Proved? ==>
      && r.output == Proof(p, Visit(root))
      && r.notes == Kept(Notes(p, Visit(root)), p.commitments(r.output))
      && ReturnsNotes(p, Visit(root), p.commitments(r.output), r.notes)
  {
    hide Visit; hide VisitLast; hide Notes; hide AddNotes; hide Kept; hide ReturnsNotes; hide Proof; hide Items; hide Witnesses; hide Zeros;
    var executionStack := [root];
    var newNotes: map<nat, nat> := map[];
    var firstIteration := true;
    var previousVerificationKey := fakeKey;
    var output := emptyOutput;
    ghost var done: seq<Execution> := [];
    ghost var all := Visit(root);
    assert VisitLast([root]) == all by {
      assert [root][..0] == [];
      VisitTop([root]);
      VisitNone();
    }
    NoNotes(p);
    while |executionStack| > 0
      invariant done + VisitLast(executionStack) == all
      invariant forall e :: e in done ==> Fits(p, e)
      invariant firstIteration <==> done == []
      invariant newNotes == Notes(p, done)
      invariant done != [] ==> output == Proof(p, done) && previousVerificationKey == done[|done| - 1].vk
      decreases |VisitLast(executionStack)|
    {
      var currentExecution := executionStack[|executionStack| - 1];
      PopPush(executionStack, currentExecution, executionStack[..|executionStack| - 1]);
      executionStack := executionStack[..|executionStack| - 1] + currentExecution.nested;
      Reached(all, done, currentExecution, VisitLast(executionStack));
      var preimages := Items(currentExecution.nested);
      if |preimages| > PRIVATE_CALL_STACK_LENGTH {
        assert !Fits(p, currentExecution);
        return Thrown;
      }
      preimages := preimages + Zeros(PRIVATE_CALL_STACK_LENGTH - |preimages|);
      var witnesses := Witnesses(p, currentExecution.readIndices);
      if |witnesses| > READ_REQUESTS_LENGTH {
        assert !Fits(p, currentExecution);
        return Thrown;
      }
      witnesses := witnesses + Zeros(READ_REQUESTS_LENGTH - |witnesses|);
      var callData := CallData(currentExecution.item, preimages, witnesses, currentExecution.vk);
      if firstIteration {
        output := p.init(callData);
      } else {
        output := p.inner(output, previousVerificationKey, callData);
      }
      var commitments := p.siloed(currentExecution.item);
      if |currentExecution.notes| > |commitments| {
        assert !Fits(p, currentExecution);
        return Thrown;
      }
      newNotes := AddNotes(newNotes, commitments, currentExecution.notes);
      ProofStep(p, done, currentExecution);
      done := done + [currentExecution];
      firstIteration := false;
      previousVerificationKey := callData.vk;
    }
    VisitNone();
    assert done == all;
    KeptReturnsNotes(p, all, p.commitments(output));
    r := Proved(output, Kept(newNotes, p.commitments(output)));
  }

  lemma VisitNone()
    ensures VisitLast([]) == []
  {
  }

  lemma Reached(all: seq<Execution>, done: seq<Execution>, e: Execution, rest: seq<Execution>)
    requires all == done + ([e] + rest)
    ensures all == (done + [e]) + rest && e in all
  {
    assert all[|done|] == e;
  }

  lemma NoNotes<O>(p: Creator<O>)
    ensures Notes(p, []) == map[]
  {
  }

  lemma ProofStep<O>(p: Creator<O>, done: seq<Execution>, e: Execution)
    requires (forall d :: d in done ==> Fits(p, d)) && Fits(p, e)
    ensures forall d :: d in done + [e] ==> Fits(p, d)
    ensures Notes(p, done + [e]) == AddNotes(Notes(p, done), p.siloed(e.item), e.notes)
    ensures Proof(p, done + [e]) == if done == [] then p.init(Prepare(p, e)) else p.inner(Proof(p, done), done[|done| - 1].vk, Prepare(p, e))
  {
    hide Prepare; hide AddNotes; hide Fits;
    var all := done + [e];
    assert all[..|done|] == done && all[|all| - 1] == e;
    assert done != [] ==> all[|all| - 2] == done[|done| - 1];
  }

  /** What a call hands to the kernel: its nested calls' items and its read witnesses in order, then padding. */
  lemma PreparedData<O>(p: Creator<O>, e: Execution)
    requires Fits(p, e)
    ensures var d := Prepare(p, e);
      && d.item == e.item && d.vk == e.vk && |d.preimages| == PRIVATE_CALL_STACK_LENGTH && |d.witnesses| == READ_REQUESTS_LENGTH
      && (forall i :: 0 <= i < PRIVATE_CALL_STACK_LENGTH ==> d.preimages[i] == if i < |e.nested| then e.nested[i].item else 0)
      && (forall i :: 0 <= i < READ_REQUESTS_LENGTH ==> d.witnesses[i] == if i < |e.readIndices| then p.noteWitness(e.readIndices[i]) else 0)
  {
  }

  /** One proof step as a proof creator sees it: no previous key for an init proof. */
  datatype Entry = InitProof(data: CallData) | InnerProof(previousKey: nat, data: CallData)

  /** A proof creator whose output lists the steps that led to it. */
  ghost predicate Traces(p: Creator<seq<Entry>>) {
    && (forall d :: p.init(d) == [InitProof(d)])
    && (forall o, key, d :: p.inner(o, key, d) == o + [InnerProof(key, d)])
  }

  /** The chain of proofs: an init proof for the first visit, then for each visit an inner proof on top of the previous
      output with the key of the previous visit. */
  lemma {:induction false} ProofChain(p: Creator<seq<Entry>>, visits: seq<Execution>)
    requires Traces(p) && visits != [] && forall e :: e in visits ==> Fits(p, e)
    ensures |Proof(p, visits)| == |visits|
    ensures forall k :: 0 <= k < |visits| ==> Fits(p, visits[k]) && Proof(p, visits)[k] == EntryOf(p, visits, k)
  {
    hide Prepare; hide Fits; hide Proof;
    var init, last := visits[..|visits| - 1], visits[|visits| - 1];
    assert visits == init + [last];
    forall k | 0 <= k < |visits|
      ensures Fits(p, visits[k])
    {
      assert visits[k] in visits;
    }
    ProofStep(p, init, last);
    if init != [] { ProofChain(p, init); }
  }

  function EntryOf(p: Creator<seq<Entry>>, visits: seq<Execution>, k: nat): Entry
    requires k < |visits| && Fits(p, visits[k])
  {
    if k == 0 then InitProof(Prepare(p, visits[0])) else InnerProof(visits[k - 1].vk, Prepare(p, visits[k]))
  }

  // Right-to-left pre-order, by the positions of the calls in the tree.

  type Path = seq<nat>

  predicate ValidPath(e: Execution, path: Path)
    decreases |path|
  {
    path == [] || (path[0] < |e.nested| && ValidPath(e.nested[path[0]], path[1..]))
  }

  function NodeAt(e: Execution, path: Path): Execution
    requires ValidPath(e, path)
    decreases |path|
  {
    if path == [] then e else NodeAt(e.nested[path[0]], path[1..])
  }

  /** A call before the calls it makes, and a later sibling with all it makes before an earlier one. */
  predicate Before(a: Path, b: Path)
    decreases |a|
  {
    b != [] && (a == [] || a[0] > b[0] || (a[0] == b[0] && Before(a[1..], b[1..])))
  }

  function Under(i: nat, paths: seq<Path>): (s: seq<Path>)
    ensures |s| == |paths| && forall k :: 0 <= k < |paths| ==> s[k] == [i] + paths[k]
  {
    if paths == [] then [] else Under(i, paths[..|paths| - 1]) + [[i] + paths[|paths| - 1]]
  }

  /** The positions of the calls in the order of `Visit`. */
  function Paths(e: Execution): seq<Path>
    decreases e, 1
  {
    [[]] + PathsLast(e.nested)
  }

  function PathsLast(es: seq<Execution>): seq<Path>
    decreases es, 0
  {
    if es == [] then [] else Under(|es| - 1, Paths(es[|es| - 1])) + PathsLast(es[..|es| - 1])
  }

  lemma {:induction false} PathsNameVisits(e: Execution)
    ensures |Paths(e)| == |Visit(e)|
    ensures forall k :: 0 <= k < |Paths(e)| ==> ValidPath(e, Paths(e)[k]) && NodeAt(e, Paths(e)[k]) == Visit(e)[k]
    decreases e, 1
  {
    PathsLastNameVisits(e, e.nested);
    assert e.nested[..|e.nested|] == e.nested;
  }

  lemma {:induction false} PathsLastNameVisits(e: Execution, es: seq<Execution>)
    requires |es| <= |e.nested| && es == e.nested[..|es|]
    ensures |PathsLast(es)| == |VisitLast(es)|
    ensures forall k :: 0 <= k < |PathsLast(es)| ==>
      PathsLast(es)[k] != [] && ValidPath(e, PathsLast(es)[k]) && NodeAt(e, PathsLast(es)[k]) == VisitLast(es)[k]
    decreases e, 0, |es|
  {
    if es != [] {
      var i := |es| - 1;
      assert es[i] == e.nested[i];
      PathsNameVisits(e.nested[i]);
      PathsLastNameVisits(e, es[..i]);
      var here, rest := Under(i, Paths(es[i])), PathsLast(es[..i]);
      forall k | 0 <= k < |here|
        ensures here[k] != [] && ValidPath(e, here[k]) && NodeAt(e, here[k]) == Visit(es[i])[k]
      {
        assert here[k][1..] == Paths(es[i])[k];
      }
    }
  }

  lemma {:induction false} PathsSorted(e: Execution)
    ensures forall a, b :: 0 <= a < b < |Paths(e)| ==> Before(Paths(e)[a], Paths(e)[b])
    decreases e, 1
  {
    PathsLastSorted(e, e.nested);
    assert e.nested[..|e.nested|] == e.nested;
  }

  lemma {:induction false} PathsLastSorted(e: Execution, es: seq<Execution>)
    requires |es| <= |e.nested| && es == e.nested[..|es|]
    ensures forall k :: 0 <= k < |PathsLast(es)| ==> PathsLast(es)[k] != [] && PathsLast(es)[k][0] < |es|
    ensures forall a, b :: 0 <= a < b < |PathsLast(es)| ==> Before(PathsLast(es)[a], PathsLast(es)[b])
    decreases e, 0, |es|
  {
    if es != [] {
      var i := |es| - 1;
      assert es[i] == e.nested[i];
      PathsSorted(e.nested[i]);
      PathsLastSorted(e, es[..i]);
      var here := Under(i, Paths(es[i]));
      forall a, b | 0 <= a < b < |here|
        ensures Before(here[a], here[b])
      {
        assert here[a][1..] == Paths(es[i])[a] && here[b][1..] == Paths(es[i])[b];
      }
    }
  }

  lemma {:induction false} PathsComplete(e: Execution, path: Path)
    requires ValidPath(e, path)
    ensures path in Paths(e)
    decreases |path|
  {
    if path == [] {
      assert Paths(e)[0] == [];
    } else {
      PathsComplete(e.nested[path[0]], path[1..]);
      PathsLastHas(e.nested, path);
    }
  }

  lemma {:induction false} PathsLastHas(es: seq<Execution>, path: Path)
    requires path != [] && path[0] < |es| && path[1..] in Paths(es[path[0]])
    ensures path in PathsLast(es)
    decreases |es|
  {
    var i := |es| - 1;
    if path[0] == i {
      var k :| 0 <= k < |Paths(es[i])| && Paths(es[i])[k] == path[1..];
      assert path == [i] + path[1..] == Under(i, Paths(es[i]))[k];
    } else {
      PathsLastHas(es[..i], path);
    }
  }

  lemma {:induction false} BeforeIrreflexive(a: Path)
    ensures !Before(a, a)
    decreases |a|
  {
    if a != [] { BeforeIrreflexive(a[1..]); }
  }

  /** The traversal visits every call of the tree exactly once, in right-to-left pre-order. */
  lemma VisitsOnceInPreOrder(e: Execution)
    ensures |Paths(e)| == |Visit(e)|
    ensures forall k :: 0 <= k < |Paths(e)| ==> ValidPath(e, Paths(e)[k]) && NodeAt(e, Paths(e)[k]) == Visit(e)[k]
    ensures forall path: Path :: ValidPath(e, path) ==> path in Paths(e)
    ensures forall a, b :: 0 <= a < b < |Paths(e)| ==> Before(Paths(e)[a], Paths(e)[b]) && Paths(e)[a] != Paths(e)[b]
  {
    hide Paths; hide Visit; hide Before; hide ValidPath;
    PathsNameVisits(e);
    PathsSorted(e);
    forall path: Path | ValidPath(e, path)
      ensures path in Paths(e)
    {
      PathsComplete(e, path);
    }
    forall a, b | 0 <= a < b < |Paths(e)|
      ensures Paths(e)[a] != Paths(e)[b]
    {
      BeforeIrreflexive(Paths(e)[a]);
    }
  }
}
