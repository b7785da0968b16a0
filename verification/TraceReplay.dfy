/** The prover's own use of the objects: load the traces into a fresh store, add the real top node, and run
    the operations on the trie over it. */
module TraceReplay {
  import opened Words
  import opened Nodes
  import opened TrieMachine
  import opened LinkedLeaves
  import opened TrieRuns
  import opened TrieOnStore
  import opened Traces
  import opened Witness
  import opened ShippedParser
  import opened Spec = ZkTrieSpec
  import Objects = TrieObjects

  /** One operation on the objects; a read is made for its answer only. */
  method Step(trie: Objects.ZkTrie, db: Objects.PrefixDB, op: Op) returns (r: Result<(), Error>)
    requires db.Valid()
    modifies trie.state, db.raw`nodes, db.raw`staging
    ensures trie.Ends(db, RunOp(db.raw.h, trie.mode, old(trie.View(db)), op), r)
  {
    hide Spec.Put, Spec.Remove, Spec.Read, Objects.Under;
    match op {
      case ReadOp(key) =>
        var found := trie.Read(db, key);
        return if found.Failure? then Failure(found.error) else Success(());
      case PutOp(key, value) =>
        r := trie.Put(db, key, value);
      case RemoveOp(key) =>
        r := trie.Remove(db, key);
    }
  }

  /** Runs the operations one after the other; `tops` are the top roots after each. */
  method RunAll(trie: Objects.ZkTrie, db: Objects.PrefixDB, ops: seq<Op>)
    returns (r: Result<(), Error>, tops: seq<Word>)
    requires db.Valid()
    modifies trie.state, db.raw`nodes, db.raw`staging
    ensures trie.Ends(db, Run(db.raw.h, trie.mode, old(trie.View(db)), ops), r)
    ensures TopsOf(db.raw.h, trie.mode, old(trie.View(db)), ops, tops) && (r.Success? ==> |tops| == |ops|)
  {
    hide RunOp, Objects.Under;
    ghost var w := trie.View(db);
    tops := [];
    for i := 0 to |ops|
      invariant Run(db.raw.h, trie.mode, w, ops[..i]) == Ok(trie.View(db))
      invariant |tops| == i && TopsOf(db.raw.h, trie.mode, w, ops, tops)
    {
      assert ops[..i + 1][..i] == ops[..i] && ops[..i + 1][i] == ops[i];
      r := Step(trie, db, ops[i]);
      if r.Failure? {
        ErrStays(db.raw.h, trie.mode, w, ops, i + 1);
        return;
      }
      tops := tops + [trie.state.rootHash];
    }
    assert ops[..|ops|] == ops;
    return Success(()), tops;
  }

  /** The roots after the first, second, ... operation of a run. */
  ghost predicate TopsOf(h: Hash, m: Mode, w: State, ops: seq<Op>, tops: seq<Word>) {
    |tops| <= |ops| && forall i | 0 <= i < |tops| :: tops[i] == Run(h, m, w, ops[..i + 1]).st.root
  }

  /** From traces to roots: a fresh store, the traces, the first top node, and the run. */
  method Replay(h: Hash, mode: Mode, traces: seq<Trace>, ops: seq<Op>)
    returns (r: Result<(), Error>, tops: seq<Word>, ghost trail: seq<Word>)
    ensures traces == [] || WitnessState(h, traces).None? ==> r == Failure(Panic)
    ensures traces != [] && WitnessState(h, traces).Some? ==>
      var w := WitnessState(h, traces).value;
      var out := Run(h, mode, w, ops);
      && r == (if out.Ok? then Success(()) else Failure(out.error)) && trail == out.st.trail
      && TopsOf(h, mode, w, ops, tops) && (r.Success? ==> |tops| == |ops|)
  {
    hide RunOp, Run, TopsOf, AllNodes, FromTraces, Objects.Under;
    tops, trail := [], [];
    var store := new Objects.MemStore.New(h);
    var loaded := store.LoadTraces(traces);
    if !loaded {
      return Failure(Panic), tops, trail;
    }
    TableIff(h, traces);
    var top := OldTopNode(traces[0]).value;
    var root := store.UpdateNode(top);
    var db := new Objects.PrefixDB(Objects.TRACE_PREFIX, store);
    var trie := new Objects.ZkTrie(mode, root);
    assert trie.View(db) == WitnessState(h, traces).value;
    r, tops := RunAll(trie, db, ops);
    trail := trie.state.trail;
  }

  /** `root` is that of the recorded contents after the `i`-th operation. */
  ghost predicate AfterOp(h: Hash, a: Abs, ops: seq<Op>, i: nat, root: Word)
    requires i < |ops|
  {
    var b := AbsRun(h, Repaired, a, ops[..i + 1]);
    b.Some? && root == RootOf(h, b.value)
  }

  /** With traces recorded on a correct trie and the repaired parser the replay succeeds, and the objects
      go through the recorded roots: after every operation, and in every sub-step. */
  method ReplayRecorded(h: Hash, traces: seq<Trace>, ops: seq<Op>, ghost a: Abs, ghost inUse: iset<Bytes>)
    returns (r: Result<(), Error>, tops: seq<Word>, ghost trail: seq<Word>)
    requires Valid(h, a) && KeysOk(h, ops) && ops != [] && AbsRun(h, Repaired, a, ops).Some?
    requires RunRecordInUse(h, Repaired, a, ops, inUse) && traces == Record(h, Repaired, a, ops)
    ensures r == Success(()) && trail == [RootOf(h, a)] + Trail(h, Repaired, a, ops) && |tops| == |ops|
    ensures forall i | 0 <= i < |ops| :: AfterOp(h, a, ops, i, tops[i])
  {
    hide RunOp, Run, Agrees, Linked, AbsRun, RunRecordInUse, Served, WitnessState, Record, RootOf, States, KeysOk, Read;
    RepairedIsServed(h, a, ops);
    r, tops, trail := Replay(h, Repaired, traces, ops);
    var w := WitnessIsFaithful(h, Repaired, a, ops, |ops|, inUse);
    assert ops[..|ops|] == ops;
    forall i | 0 <= i < |ops|
      ensures AfterOp(h, a, ops, i, tops[i])
    {
      var w' := WitnessIsFaithful(h, Repaired, a, ops, i + 1, inUse);
    }
  }

  /** With the shipped parser it shows those roots if and only if the run writes no leaf. */
  method ReplayShipped(h: Hash, traces: seq<Trace>, ops: seq<Op>, ghost a: Abs, ghost inUse: iset<Bytes>)
    returns (r: Result<(), Error>, tops: seq<Word>, ghost trail: seq<Word>)
    requires Valid(h, a) && KeysOk(h, ops) && ops != [] && AbsRun(h, Repaired, a, ops).Some?
    requires RunRecordInUse(h, Repaired, a, ops, inUse) && ShippedInUse(h, a, ops, inUse)
    requires traces == Record(h, Repaired, a, ops)
    ensures r == Success(()) <==> Quiet(h, a, ops[..|ops| - 1])
    ensures r == Success(()) && trail == [RootOf(h, a)] + Trail(h, Repaired, a, ops) <==> Quiet(h, a, ops)
  {
    hide RunOp, Run, Agrees, Linked, AbsRun, RunRecordInUse, WitnessState, Record, RootOf, States, KeysOk, Quiet;
    r, tops, trail := Replay(h, Shipped, traces, ops);
    var w := ShippedReplayIff(h, a, ops, |ops|, inUse);
    assert ops[..|ops|] == ops;
  }
}
