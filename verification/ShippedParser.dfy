/** What the shipped leaf parser costs: where its roots part from those of the repaired one, and which
    runs recorded on a correct trie it replays. */
module ShippedParser {
  import opened Words
  import opened LeafPaths
  import opened Nodes
  import opened MerkleTree
  import opened SparseMerkle
  import opened ZkTrieSpec
  import opened TrieMachine
  import opened LinkedLeaves
  import opened TrieRuns
  import opened TrieOnStore
  import opened Traces
  import opened Witness

  // ----- one operation -----

  function After(h: Hash, m: Mode, a: Abs, op: Op): Abs {
    var p := PlanOf(h, m, a, op);
    if p.None? then a else LastOf(a, p.value.steps)
  }

  /** On a linked state the shipped parser arrives at the root the repaired one does if and only if the
      operation writes no leaf. */
  lemma ShippedRootIff(h: Hash, a: Abs, op: Op, inUse: iset<Bytes>)
    requires Valid(h, a) && KeyOk(h, op) && Accepts(h, a, op) && CollisionFree(h, inUse)
    requires AbsInUse(h, After(h, Shipped, a, op), inUse) && AbsInUse(h, After(h, Repaired, a, op), inUse)
    ensures RootOf(h, After(h, Shipped, a, op)) == RootOf(h, After(h, Repaired, a, op)) <==> !Writes(h, a, op)
  {
    assert Hashable(op.key);
    hide PlanOf, Agrees, Linked, Accepts, AbsInUse, RootOf, CollisionFree;
    PlanExists(h, Shipped, a, op);
    PlanExists(h, Repaired, a, op);
    OpKeepsAgrees(h, Shipped, a, op);
    OpKeepsValid(h, a, op);
    if Writes(h, a, op) {
      ShippedKeepsListIff(h, a, op);
      if RootOf(h, After(h, Shipped, a, op)) == RootOf(h, After(h, Repaired, a, op)) {
        RootDeterminesContents(h, After(h, Shipped, a, op), After(h, Repaired, a, op), inUse);
      }
    } else {
      QuietPlan(h, Shipped, a, op);
      QuietPlan(h, Repaired, a, op);
    }
  }

  lemma QuietPlan(h: Hash, m: Mode, a: Abs, op: Op)
    requires Agrees(h, a) && KeyOk(h, op) && Hashable(op.key) && !Writes(h, a, op)
    ensures PlanOf(h, m, a, op) == Some(Plan([], []))
  {
    hide NearestTo;
    var near, below, above := NearestExists(h, a, h(op.key));
  }

  /** The very first insertion already spoils the list, and its root. */
  lemma FirstPutSpoils(h: Hash, key: Bytes, value: Bytes, inUse: iset<Bytes>)
    requires Hashable(key) && Hashable(value) && KeyOk(h, PutOp(key, value)) && CollisionFree(h, inUse)
    requires AbsInUse(h, After(h, Shipped, EMPTY, PutOp(key, value)), inUse)
    requires AbsInUse(h, After(h, Repaired, EMPTY, PutOp(key, value)), inUse)
    ensures !Linked(After(h, Shipped, EMPTY, PutOp(key, value)).slots)
    ensures Linked(After(h, Repaired, EMPTY, PutOp(key, value)).slots)
    ensures RootOf(h, After(h, Shipped, EMPTY, PutOp(key, value)))
         != RootOf(h, After(h, Repaired, EMPTY, PutOp(key, value)))
  {
    hide PlanOf, Agrees, Linked, AbsInUse, RootOf, CollisionFree;
    var op := PutOp(key, value);
    EmptyIsValid(h);
    PlanExists(h, Shipped, EMPTY, op);
    PlanExists(h, Repaired, EMPTY, op);
    ShippedKeepsListIff(h, EMPTY, op);
    OpKeepsValid(h, EMPTY, op);
    ShippedRootIff(h, EMPTY, op, inUse);
  }

  /** Among shipped runs, too, not every one is served: once a key's value was overwritten, both links of
      its leaf name the left neighbour, and so do those a trace of its removal records. */
  lemma OverwriteSpoilsRemoval(h: Hash, a: Abs, key: Bytes, value: Bytes)
    requires Agrees(h, a) && KeyOk(h, PutOp(key, value)) && Accepts(h, a, PutOp(key, value))
    requires h(key) in a.leaves
    ensures !LinksServe(h, After(h, Shipped, a, PutOp(key, value)), RemoveOp(key))
  {
    hide NearestTo;
    PlanExists(h, Shipped, a, PutOp(key, value));
    OpKeepsAgrees(h, Shipped, a, PutOp(key, value));
    var near, below, above := NearestExists(h, a, h(key));
    var b := After(h, Shipped, a, PutOp(key, value));
    var near', below', above' := NearestExists(h, b, h(key));
  }

  // ----- replaying a recorded run -----

  /** The two parsers give plans over the same leaves, and every leaf is looked up in the same contents:
      what they leave different is looked up by no later sub-step. */
  lemma SamePlaces(h: Hash, a: Abs, op: Op)
    requires PlanOf(h, Repaired, a, op).Some?
    ensures PlanOf(h, Shipped, a, op).Some?
    ensures var p, q := PlanOf(h, Repaired, a, op).value, PlanOf(h, Shipped, a, op).value;
            && p.touched == q.touched && |p.touched| <= |p.steps| == |q.steps|
            && forall k | 0 <= k < |p.touched| :: Before(a, p.steps, k) == Before(a, q.steps, k)
  {
    hide NearestTo;
  }

  lemma ReadyForBoth(h: Hash, s: Store, a: Abs, op: Op)
    requires PlanOf(h, Repaired, a, op).Some? && PlanReady(h, s, a, PlanOf(h, Repaired, a, op).value)
    ensures PlanOf(h, Shipped, a, op).Some? && PlanReady(h, s, a, PlanOf(h, Shipped, a, op).value)
  {
    hide PlanOf, Ready;
    SamePlaces(h, a, op);
    var p, q := PlanOf(h, Repaired, a, op).value, PlanOf(h, Shipped, a, op).value;
    forall k | 0 <= k < |q.touched|
      ensures q.touched[k] < INDEX_LIMIT && Ready(h, s, q.touched[k], a, Before(a, q.steps, k))
    {
      assert Ready(h, s, p.touched[k], a, Before(a, p.steps, k));
    }
  }

  /** None of the operations writes a leaf when run on `a`. */
  ghost predicate Quiet(h: Hash, a: Abs, ops: seq<Op>) {
    forall i | 0 <= i < |ops| :: !Writes(h, a, ops[i])
  }

  /** What the shipped parser hashes in the first operation that writes. */
  ghost predicate ShippedInUse(h: Hash, a: Abs, ops: seq<Op>, inUse: iset<Bytes>) {
    forall i | 0 <= i < |ops| && Quiet(h, a, ops[..i]) && PlanOf(h, Shipped, a, ops[i]).Some? ::
      StepsInUse(h, PlanOf(h, Shipped, a, ops[i]).value.steps, inUse)
  }

  /** A recorded run and its witness, as all the lemmas below take them. */
  ghost predicate WitnessedRun(h: Hash, w: State, a: Abs, ops: seq<Op>, inUse: iset<Bytes>) {
    && Valid(h, a) && KeysOk(h, ops) && AbsRun(h, Repaired, a, ops).Some?
    && RunRecordInUse(h, Repaired, a, ops, inUse)
    && |Record(h, Repaired, a, ops)| == |ops| && IsWitness(h, w, a, Record(h, Repaired, a, ops), inUse)
  }

  /** The witness knows the answer to each recorded question. */
  lemma KnowsAnswer(h: Hash, w: State, a: Abs, ops: seq<Op>, i: nat, inUse: iset<Bytes>)
    requires WitnessedRun(h, w, a, ops, inUse) && i < |ops| && AbsRun(h, Repaired, a, ops[..i]) == Some(a)
    ensures KeyOk(h, ops[i]) && Hashable(ops[i].key) && PlanOf(h, Repaired, a, ops[i]).Some?
    ensures Answers(Nearest(w.index, w.root, h(ops[i].key)), NearestTo(a, h(ops[i].key)), ops[i])
    ensures PlanReady(h, w.store, a, PlanOf(h, Repaired, a, ops[i]).value)
    ensures StepsInUse(h, PlanOf(h, Repaired, a, ops[i]).value.steps, inUse)
  {
    hide PlanOf, Agrees, Linked, RecordOp, TraceServed, Record, AbsRun, RunInUse, RecordInUse, CollisionFree,
      EmptyInUse, StepsInUse, Sim, LinksServe, Answers, NodesOf, Resolved, FromTraces, PlanReady, Nearest, NearestTo;
    var b := RecordAt(h, Repaired, a, ops, i);
    var b' := StateBefore(h, Repaired, a, ops, i, inUse);
    RecordedTop(h, Repaired, a, ops[i]);
    ValidServes(h, a, ops[i]);
    assert TraceServed(h, w, Record(h, Repaired, a, ops)[i]);
    ServedNodes(h, w, RecordOp(h, Repaired, a, ops[i]));
    WitnessAnswers(h, Repaired, w, w, a, ops[i], inUse);
    TraceReady(h, Repaired, w.store, a, ops[i], inUse);
  }

  /** As long as nothing is written the shipped run has not moved, and neither has the recorded one. */
  lemma {:induction false} QuietStays(h: Hash, w: State, a: Abs, ops: seq<Op>, n: nat, inUse: iset<Bytes>)
    requires WitnessedRun(h, w, a, ops, inUse) && n <= |ops| && Quiet(h, a, ops[..n])
    ensures Run(h, Shipped, w, ops[..n]) == Ok(w)
    ensures AbsRun(h, Repaired, a, ops[..n]) == Some(a) && States(h, Repaired, a, ops[..n]) == []
  {
    hide PlanOf, RunOp, WitnessedRun, Writes, Nearest, NearestTo, StepsInUse, PlanReady;
    if n == 0 {
      assert ops[..0] == [];
    } else {
      var front, op := ops[..n - 1], ops[n - 1];
      assert ops[..n][..n - 1] == front && ops[..n][n - 1] == op;
      assert forall i | 0 <= i < n - 1 :: front[i] == ops[..n][i];
      QuietStays(h, w, a, ops, n - 1, inUse);
      KnowsAnswer(h, w, a, ops, n - 1, inUse);
      QuietOp(h, w, a, ops, op, inUse);
    }
  }

  lemma QuietOp(h: Hash, w: State, a: Abs, ops: seq<Op>, op: Op, inUse: iset<Bytes>)
    requires WitnessedRun(h, w, a, ops, inUse) && KeyOk(h, op) && Hashable(op.key) && !Writes(h, a, op)
    requires Answers(Nearest(w.index, w.root, h(op.key)), NearestTo(a, h(op.key)), op)
    ensures RunOp(h, Shipped, w, op) == Ok(w) && PlanOf(h, Repaired, a, op) == Some(Plan([], []))
  {
    hide Nearest, NearestTo, Linked, RunRecordInUse, IsWitness, Record;
    var near, below, above := NearestExists(h, a, h(op.key));
    QuietPlan(h, Repaired, a, op);
  }

  /** The first operation that writes succeeds on the witness, and leaves a list that is broken. */
  lemma FirstWrite(h: Hash, w: State, a: Abs, ops: seq<Op>, i: nat, inUse: iset<Bytes>)
    requires WitnessedRun(h, w, a, ops, inUse) && ShippedInUse(h, a, ops, inUse)
    requires i < |ops| && Quiet(h, a, ops[..i]) && Writes(h, a, ops[i])
    ensures PlanOf(h, Shipped, a, ops[i]).Some?
    ensures var steps := PlanOf(h, Shipped, a, ops[i]).value.steps;
            && steps != [] && StepsInUse(h, steps, inUse)
            && InStep(h, w, Run(h, Shipped, w, ops[..i + 1]), LastOf(a, steps), steps, inUse)
            && Agrees(h, LastOf(a, steps)) && !Linked(LastOf(a, steps).slots)
  {
    hide PlanOf, RunOp, WitnessedRun, Nearest, NearestTo, StepsInUse, PlanReady, Agrees, Linked, Sim, Extends, Answers,
      States;
    QuietStays(h, w, a, ops, i, inUse);
    KnowsAnswer(h, w, a, ops, i, inUse);
    ReadyForBoth(h, w.store, a, ops[i]);
    assert ops[..i + 1][..i] == ops[..i] && ops[..i + 1][i] == ops[i];
    RecordedStarts(h, w, a, ops, inUse);
    StepFollows(h, Shipped, w, Ok(w), a, [], ops[i], inUse);
    var steps := PlanOf(h, Shipped, a, ops[i]).value.steps;
    assert [] + steps == steps;
    ShippedKeepsListIff(h, a, ops[i]);
    OpKeepsAgrees(h, Shipped, a, ops[i]);
  }

  lemma RecordedStarts(h: Hash, w: State, a: Abs, ops: seq<Op>, inUse: iset<Bytes>)
    requires WitnessedRun(h, w, a, ops, inUse)
    ensures InStep(h, w, Ok(w), a, [], inUse) && Valid(h, a) && w.trail == [RootOf(h, a)]
  {
    hide Agrees, Linked, RunRecordInUse, TraceServed, Sim, RootOf;
    assert w.trail + RootsOf(h, []) == w.trail;
  }

  /** Every question the table answers was asked by some trace. */
  lemma {:induction false} TableAsked(h: Hash, traces: seq<Trace>, q: (Word, Word)) returns (i: nat)
    requires FromTraces(h, traces).Some? && q in FromTraces(h, traces).value
    ensures i < |traces| && Holding(h, traces[i]) == q
    decreases |traces|
  {
    hide KeyRangeOf;
    var front, last := traces[..|traces| - 1], traces[|traces| - 1];
    if Holding(h, last) == q {
      i := |traces| - 1;
    } else {
      i := TableAsked(h, front, q);
    }
  }

  /** The witness has no answer at the root of a broken list. */
  lemma BrokenIsUnknown(h: Hash, w: State, a: Abs, ops: seq<Op>, c: Abs, hkey: Word, inUse: iset<Bytes>)
    requires WitnessedRun(h, w, a, ops, inUse) && Agrees(h, c) && !Linked(c.slots) && AbsInUse(h, c, inUse)
    ensures w.index.Recorded? && (RootOf(h, c), hkey) !in w.index.table
  {
    hide PlanOf, Agrees, Linked, RecordOp, TraceServed, Record, AbsRun, RunInUse, AbsInUse, CollisionFree, NodeInUse,
      EmptyInUse, Sim, FromTraces, ValuesInUse, Holding, RootOf;
    if (RootOf(h, c), hkey) in w.index.table {
      var i := TableAsked(h, Record(h, Repaired, a, ops), (RootOf(h, c), hkey));
      var b := RecordAt(h, Repaired, a, ops, i);
      var b' := StateBefore(h, Repaired, a, ops, i, inUse);
      RecordedTop(h, Repaired, b, ops[i]);
      assert RecordInUse(h, b, inUse);
      RootDeterminesContents(h, b, c, inUse);
    }
  }

  /** After the first write every further operation fails: its question was recorded at another root. */
  lemma ThenFails(h: Hash, w: State, a: Abs, ops: seq<Op>, i: nat, inUse: iset<Bytes>)
    requires WitnessedRun(h, w, a, ops, inUse) && ShippedInUse(h, a, ops, inUse)
    requires i + 1 < |ops| && Quiet(h, a, ops[..i]) && Writes(h, a, ops[i])
    ensures Run(h, Shipped, w, ops[..i + 2]).Err?
  {
    hide PlanOf, WitnessedRun, Agrees, Linked, RootOf, Extends, Put, Remove, Writes, Quiet, ShippedInUse;
    FirstWrite(h, w, a, ops, i, inUse);
    var steps := PlanOf(h, Shipped, a, ops[i]).value.steps;
    var c := LastOf(a, steps);
    assert AbsInUse(h, steps[|steps| - 1], inUse);
    var st := Run(h, Shipped, w, ops[..i + 1]).st;
    BrokenIsUnknown(h, w, a, ops, c, h(ops[i + 1].key), inUse);
    assert ops[..i + 2][..i + 1] == ops[..i + 1] && ops[..i + 2][i + 1] == ops[i + 1];
    UnknownFails(h, st, ops[i + 1]);
  }

  lemma UnknownFails(h: Hash, st: State, op: Op)
    requires Nearest(st.index, st.root, h(op.key)).None?
    ensures RunOp(h, Shipped, st, op).Err?
  {
  }

  lemma {:induction false} ErrStays(h: Hash, m: Mode, st: State, ops: seq<Op>, k: nat)
    requires k <= |ops| && Run(h, m, st, ops[..k]).Err?
    ensures Run(h, m, st, ops) == Run(h, m, st, ops[..k])
    decreases |ops|
  {
    if k == |ops| {
      assert ops[..k] == ops;
    } else {
      assert ops[..|ops| - 1][..k] == ops[..k];
      ErrStays(h, m, st, ops[..|ops| - 1], k);
    }
  }

  lemma {:induction false} FirstWriter(h: Hash, a: Abs, ops: seq<Op>) returns (i: nat)
    requires !Quiet(h, a, ops)
    ensures i < |ops| && Quiet(h, a, ops[..i]) && Writes(h, a, ops[i])
    decreases |ops|
  {
    hide Writes;
    var front := ops[..|ops| - 1];
    if Quiet(h, a, front) {
      i := |ops| - 1;
      assert forall k | 0 <= k < i :: ops[k] == front[k];
    } else {
      i := FirstWriter(h, a, front);
      assert front[..i] == ops[..i];
    }
  }

  /** The code as it is, on traces whose leaves arrive intact, as JSON carries them. Record any run of a
      correct trie, rebuild the witness, and replay with the shipped parser. The replay gets through the
      first `n` operations if and only if none but the last of them writes a leaf; and it shows the
      recorded roots if and only if none of them does. */
  lemma ShippedReplayIff(h: Hash, a: Abs, ops: seq<Op>, n: nat, inUse: iset<Bytes>) returns (w: State)
    requires Valid(h, a) && KeysOk(h, ops) && ops != [] && n <= |ops| && AbsRun(h, Repaired, a, ops).Some?
    requires RunRecordInUse(h, Repaired, a, ops, inUse) && ShippedInUse(h, a, ops, inUse)
    ensures Record(h, Repaired, a, ops) != [] && WitnessState(h, Record(h, Repaired, a, ops)) == Some(w)
    ensures var out := Run(h, Shipped, w, ops[..n]);
            && (out.Ok? <==> n == 0 || Quiet(h, a, ops[..n - 1]))
            && (out.Ok? && out.st.trail == [RootOf(h, a)] + Trail(h, Repaired, a, ops[..n])
                <==> Quiet(h, a, ops[..n]))
  {
    hide PlanOf, RunOp, Agrees, Linked, WitnessState, RunRecordInUse, Record, ShippedInUse, AbsRun, States, IsWitness,
      Writes, Run, RootOf, Quiet;
    w := WitnessExists(h, Repaired, a, ops, inUse);
    assert WitnessedRun(h, w, a, ops, inUse);
    hide WitnessedRun;
    RecordedStarts(h, w, a, ops, inUse);
    if Quiet(h, a, ops[..n]) {
      QuietStays(h, w, a, ops, n, inUse);
      assert [RootOf(h, a)] + RootsOf(h, []) == w.trail;
      QuietPrefix(h, a, ops, n);
    } else {
      var i := FirstWriter(h, a, ops[..n]);
      assert ops[..n][..i] == ops[..i] && ops[..n][i] == ops[i];
      if n == i + 1 {
        WriteParts(h, w, a, ops, i, inUse);
      } else {
        ThenFails(h, w, a, ops, i, inUse);
        assert ops[..n][..i + 2] == ops[..i + 2];
        ErrStays(h, Shipped, w, ops[..n], i + 2);
        WriterIsLoud(h, a, ops[..n - 1], i);
      }
    }
  }

  lemma QuietPrefix(h: Hash, a: Abs, ops: seq<Op>, n: nat)
    requires n <= |ops| && Quiet(h, a, ops[..n])
    ensures n > 0 ==> Quiet(h, a, ops[..n - 1])
  {
    hide Writes;
    assert forall k | 0 <= k < n - 1 :: ops[..n - 1][k] == ops[..n][k];
  }

  lemma WriterIsLoud(h: Hash, a: Abs, ops: seq<Op>, i: nat)
    requires i < |ops| && Writes(h, a, ops[i])
    ensures !Quiet(h, a, ops)
  {
    hide Writes;
  }

  /** The root after the first write is not the recorded one. */
  lemma WriteParts(h: Hash, w: State, a: Abs, ops: seq<Op>, i: nat, inUse: iset<Bytes>)
    requires WitnessedRun(h, w, a, ops, inUse) && ShippedInUse(h, a, ops, inUse)
    requires i < |ops| && Quiet(h, a, ops[..i]) && Writes(h, a, ops[i])
    ensures var out := Run(h, Shipped, w, ops[..i + 1]);
            out.Ok? && out.st.trail != [RootOf(h, a)] + Trail(h, Repaired, a, ops[..i + 1])
  {
    hide PlanOf, RunOp, WitnessedRun, Agrees, Linked, RootOf, Extends, Run, AbsRun, Sim, Quiet, ShippedInUse,
      AbsInUse, States, NearestTo, Nearest, Answers, PlanReady, Writes;
    FirstWrite(h, w, a, ops, i, inUse);
    QuietStays(h, w, a, ops, i, inUse);
    KnowsAnswer(h, w, a, ops, i, inUse);
    RecordedStarts(h, w, a, ops, inUse);
    var p, q := PlanOf(h, Repaired, a, ops[i]).value, PlanOf(h, Shipped, a, ops[i]).value;
    SamePlaces(h, a, ops[i]);
    RecordedStep(h, w, a, ops, i, inUse);
    assert AbsInUse(h, p.steps[|p.steps| - 1], inUse) && AbsInUse(h, q.steps[|q.steps| - 1], inUse);
    PlanExists(h, Repaired, a, ops[i]);
    NoCollision(h, w, a, ops, inUse);
    ShippedRootIff(h, a, ops[i], inUse);
    LastRoots(h, a, q.steps, p.steps);
  }

  lemma NoCollision(h: Hash, w: State, a: Abs, ops: seq<Op>, inUse: iset<Bytes>)
    requires WitnessedRun(h, w, a, ops, inUse)
    ensures CollisionFree(h, inUse)
  {
    hide Agrees, Linked, CollisionFree, IsWitness, RecordInUse, RunInUse, EmptyInUse;
  }

  lemma RecordedStep(h: Hash, w: State, a: Abs, ops: seq<Op>, i: nat, inUse: iset<Bytes>)
    requires WitnessedRun(h, w, a, ops, inUse) && i < |ops| && AbsRun(h, Repaired, a, ops[..i]) == Some(a)
    requires States(h, Repaired, a, ops[..i]) == []
    ensures PlanOf(h, Repaired, a, ops[i]).Some?
    ensures States(h, Repaired, a, ops[..i + 1]) == PlanOf(h, Repaired, a, ops[i]).value.steps
  {
    hide PlanOf, Agrees, Linked, RunRecordInUse, IsWitness, Record, States, AbsRun;
    var b := StateBefore(h, Repaired, a, ops, i, inUse);
  }

  lemma LastRoots(h: Hash, a: Abs, x: seq<Abs>, y: seq<Abs>)
    requires x != [] && y != [] && RootOf(h, LastOf(a, x)) != RootOf(h, LastOf(a, y))
    ensures forall pre: seq<Word> :: pre + RootsOf(h, x) != pre + RootsOf(h, y)
  {
    hide RootOf;
    forall pre: seq<Word>
      ensures pre + RootsOf(h, x) != pre + RootsOf(h, y)
    {
      var u, v := pre + RootsOf(h, x), pre + RootsOf(h, y);
      assert u[|u| - 1] == RootOf(h, LastOf(a, x)) && v[|v| - 1] == RootOf(h, LastOf(a, y));
    }
  }

  // ----- traces in RLP -----

  /** A trace decoded from RLP has had its leaves through the shipped parser. Its proof then rebuilds the
      nodes of the path if and only if the two links of the leaf coincide. */
  lemma DecodedRebuildsIff(h: Hash, a: Abs, idx: U64)
    requires idx < INDEX_LIMIT && idx in a.slots
    ensures
      var o, proof := a.slots[idx], ProofOf(h, idx, a);
      BuildNodes(h, proof, Some(View(Shipped, o))) == BuildNodes(h, proof, Some(o)) <==> o.next == o.prev
  {
    hide LeafPath, Join, SiblingsOf, ToBytes;
    var o, proof := a.slots[idx], ProofOf(h, idx, a);
    var mine, theirs := BuildNodes(h, proof, Some(View(Shipped, o))), BuildNodes(h, proof, Some(o));
    assert mine.value[0] == ProofLeaf(Some(View(Shipped, o))) && theirs.value[0] == ProofLeaf(Some(o));
    if mine == theirs {
      ToBytesInjective(View(Shipped, o), o);
    }
  }

  /** In a linked state that is no leaf at all, the sentinels included. */
  lemma NoLeafSurvivesDecoding(h: Hash, a: Abs, idx: U64)
    requires Valid(h, a) && idx in a.slots
    ensures a.slots[idx].next != a.slots[idx].prev
  {
    assert HEAD_INDEX in a.slots && TAIL_INDEX in a.slots;
    if idx != TAIL_INDEX {
      assert NextOk(a.slots, idx);
    }
    if idx != HEAD_INDEX {
      assert PrevOk(a.slots, idx);
    }
  }
}
