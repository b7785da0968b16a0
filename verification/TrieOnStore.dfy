/** The trie on a complete store with an ordered index: every run is the abstract run, with the
    canonical top root after every sub-step. */
module TrieOnStore {
  import opened Words
  import opened LeafPaths
  import opened Nodes
  import opened MerkleTree
  import opened SparseMerkle
  import opened ZkTrieSpec
  import opened TrieMachine
  import opened LinkedLeaves
  import opened TrieRuns

  ghost predicate AllPaths(h: Hash, s: Store, a: Abs) {
    forall i: nat | i < INDEX_LIMIT :: At(h, s, i, a)
  }

  /** Store, root and index all hold `a`, completely. */
  ghost predicate Holds(h: Hash, st: State, a: Abs, inUse: iset<Bytes>) {
    Sim(h, st, a, inUse) && AllPaths(h, st.store, a) && st.index == Ordered(a.leaves)
  }

  /** The store resolves the whole tree of each of `states`. */
  ghost predicate Kept(h: Hash, s: Store, states: seq<Abs>) {
    forall k | 0 <= k < |states| :: Top(h, s, states[k]) && AllPaths(h, s, states[k])
  }

  lemma CompleteIsFull(h: Hash, s: Store, a: Abs)
    requires Top(h, s, a) && AllPaths(h, s, a)
    ensures Full(h, s, a.free, Enc(a.slots))
  {
    hide LeafIn, TopIn;
    forall i: nat | i < INDEX_LIMIT
      ensures LeafIn(h, s, i, Enc(a.slots))
    {
      assert At(h, s, i, a);
    }
  }

  lemma KeptGrows(h: Hash, s: Store, s': Store, states: seq<Abs>)
    requires Kept(h, s, states) && Extends(h, s, s')
    ensures Kept(h, s', states)
  {
    hide LeafIn, TopIn, Extends;
    forall k | 0 <= k < |states|
      ensures Top(h, s', states[k]) && AllPaths(h, s', states[k])
    {
      assert Top(h, s, states[k]) && AllPaths(h, s, states[k]);
      CompleteIsFull(h, s, states[k]);
      FullGrows(h, s, s', states[k].free, Enc(states[k].slots));
    }
  }

  /** What a complete store went through, it still shows in full. */
  lemma ReachesKeeps(h: Hash, st: State, a: Abs, out: Out, steps: seq<Abs>, inUse: iset<Bytes>)
    requires Reaches(h, st, a, out, steps, inUse) && AllPaths(h, st.store, a)
    ensures Kept(h, out.st.store, steps) && AllPaths(h, out.st.store, LastOf(a, steps))
  {
    hide LeafIn, TopIn, Extends, Sim;
    forall k | 0 <= k <= |steps|
      ensures Top(h, out.st.store, Before(a, steps, k)) && AllPaths(h, out.st.store, Before(a, steps, k))
    {
      assert Carried(h, st.store, a, out.st.store, Before(a, steps, k));
    }
    forall k | 0 <= k < |steps|
      ensures Top(h, out.st.store, steps[k]) && AllPaths(h, out.st.store, steps[k])
    {
      assert Before(a, steps, k + 1) == steps[k];
    }
    assert Before(a, steps, |steps|) == LastOf(a, steps);
  }

  // ----- the index follows -----

  lemma EditKeepsIndex(h: Hash, m: Mode, st: State, i: nat, e: Edit)
    ensures EditLeaf(h, m, st, i, e).st.index == st.index
  {
  }

  lemma AddFreshIndex(h: Hash, m: Mode, st: State, near: KeyRange, free: U64, hkey: Word, value: Bytes)
    requires Hashable(value) && AddFresh(h, m, st, near, free, hkey, value).Ok?
    ensures AddFresh(h, m, st, near, free, hkey, value).st.index
         == UpdateIndex(st.index, hkey, FlattenedLeaf(free, value))
  {
    hide EditLeaf, AddLeaf;
    var ix := UpdateIndex(st.index, hkey, FlattenedLeaf(free, value));
    var leaf := LeafOpening(hkey, h(value), near.left, near.right);
    var w := WriteLeaf(h, st.(index := ix), free, ToBytes(leaf));
    EditKeepsIndex(h, m, w.st, near.right, SetPrev(free));
  }

  /** What an operation does to the index, whatever kind of index it is. */
  function IndexAfter(h: Hash, ix: Index, a: Abs, op: Op): Index {
    match op
    case ReadOp(_) => ix
    case PutOp(key, value) =>
      var idx := if h(key) in a.leaves then a.leaves[h(key)].leafIndex else a.free;
      UpdateIndex(ix, h(key), FlattenedLeaf(idx, value))
    case RemoveOp(key) => if h(key) in a.leaves then RemoveIndex(ix, h(key)) else ix
  }

  lemma DropExistingIndex(h: Hash, m: Mode, st: State, near: KeyRange, idx: U64, hkey: Word)
    requires DropExisting(h, m, st, near, idx, hkey).Ok?
    ensures DropExisting(h, m, st, near, idx, hkey).st.index == RemoveIndex(st.index, hkey)
  {
    hide EditLeaf, RemoveLeaf, ParseNode;
    var w := DropLeaf(h, st.(index := RemoveIndex(st.index, hkey)), idx);
    EditKeepsIndex(h, m, w.st, near.right, SetPrev(near.left));
  }

  lemma OpIndex(h: Hash, m: Mode, st: State, a: Abs, op: Op, inUse: iset<Bytes>)
    requires Sim(h, st, a, inUse) && RunOp(h, m, st, op).Ok? && NearestTo(a, h(op.key)).Some?
    requires Answers(Nearest(st.index, st.root, h(op.key)), NearestTo(a, h(op.key)), op)
    ensures RunOp(h, m, st, op).st.index == IndexAfter(h, st.index, a, op)
  {
    hide EditLeaf, AddFresh, DropExisting, Sound;
    CounterIsFree(h, st.store, a.free, Enc(a.slots));
    var near := NearestTo(a, h(op.key)).value;
    match op
    case ReadOp(_) =>
    case PutOp(key, value) =>
      if near.center.Some? {
        var idx := near.center.value.leafIndex;
        EditKeepsIndex(h, m, st.(index := UpdateIndex(st.index, h(key), FlattenedLeaf(idx, value))),
          idx, SetHval(h(value)));
      } else {
        var e := EditLeaf(h, m, st, near.left, SetNext(a.free));
        EditKeepsIndex(h, m, st, near.left, SetNext(a.free));
        AddFreshIndex(h, m, e.st, near, a.free, h(key), value);
      }
    case RemoveOp(key) =>
      if near.center.Some? {
        var e := EditLeaf(h, m, st, near.left, SetNext(near.right));
        EditKeepsIndex(h, m, st, near.left, SetNext(near.right));
        DropExistingIndex(h, m, e.st, near, near.center.value.leafIndex, h(key));
      }
  }

  lemma LeavesAfter(h: Hash, m: Mode, a: Abs, op: Op)
    requires PlanOf(h, m, a, op).Some?
    ensures IndexAfter(h, Ordered(a.leaves), a, op)
         == Ordered(LastOf(a, PlanOf(h, m, a, op).value.steps).leaves)
  {
  }

  // ----- one operation -----

  lemma AllPathsReady(h: Hash, m: Mode, st: State, a: Abs, op: Op)
    requires Agrees(h, a) && AllPaths(h, st.store, a) && PlanOf(h, m, a, op).Some?
    ensures PlanReady(h, st.store, a, PlanOf(h, m, a, op).value)
  {
  }

  /** An accepted operation on a complete trie succeeds, leaves it complete for the new contents, and
      keeps everything it passed through. */
  lemma StepHolds(h: Hash, m: Mode, st: State, a: Abs, op: Op, inUse: iset<Bytes>)
    requires Holds(h, st, a, inUse) && Agrees(h, a) && KeyOk(h, op) && Accepts(h, a, op)
    requires PlanOf(h, m, a, op).Some? ==> StepsInUse(h, PlanOf(h, m, a, op).value.steps, inUse)
    ensures PlanOf(h, m, a, op).Some?
    ensures var out, p := RunOp(h, m, st, op), PlanOf(h, m, a, op).value;
            && out.Ok? && Holds(h, out.st, LastOf(a, p.steps), inUse)
            && Extends(h, st.store, out.st.store) && Kept(h, out.st.store, p.steps)
            && out.st.trail == st.trail + RootsOf(h, p.steps)
  {
    hide PlanReady, Accepts, Agrees, PlanOf, RunOp, Extends, Carried, Sim, AllPaths, Kept;
    PlanExists(h, m, a, op);
    var p := PlanOf(h, m, a, op).value;
    AllPathsReady(h, m, st, a, op);
    NearestHere(h, st, a, h(op.key));
    OpReaches(h, m, st, a, op, inUse);
    NearestOfPlan(h, m, a, op);
    ReachesKeeps(h, st, a, RunOp(h, m, st, op), p.steps, inUse);
    OpIndex(h, m, st, a, op, inUse);
    LeavesAfter(h, m, a, op);
  }

  lemma NearestOfPlan(h: Hash, m: Mode, a: Abs, op: Op)
    requires PlanOf(h, m, a, op).Some?
    ensures NearestTo(a, h(op.key)).Some?
  {
  }

  lemma NearestHere(h: Hash, st: State, a: Abs, hkey: Word)
    requires st.index == Ordered(a.leaves)
    ensures Nearest(st.index, st.root, hkey) == NearestTo(a, hkey)
  {
  }

  /** What `read` returns is the index entry, and the leaf in the tree carries its hash. */
  lemma ReadHolds(h: Hash, st: State, a: Abs, key: Bytes, inUse: iset<Bytes>)
    requires Holds(h, st, a, inUse) && Agrees(h, a) && KeyOk(h, ReadOp(key)) && Hashable(key)
    ensures Read(h, st, key) == Success(ValueAt(a, h(key)))
    ensures h(key) in a.leaves ==>
              var o := ParseNode(h, Repaired, st, a.leaves[h(key)].leafIndex);
              o.Success? && o.value.hkey == h(key) && o.value.hval == h(a.leaves[h(key)].leafValue)
  {
    var near, below, above := NearestExists(h, a, h(key));
    if h(key) in a.leaves {
      assert At(h, st.store, a.leaves[h(key)].leafIndex, a);
      ParseNodeIsView(h, Repaired, st, a, a.leaves[h(key)].leafIndex, inUse);
    }
  }

  // ----- whole runs -----

  /** The contents a run passes through, after every sub-step of every operation. */
  function States(h: Hash, m: Mode, a: Abs, ops: seq<Op>): seq<Abs>
    decreases |ops|
  {
    if ops == [] || AbsRun(h, m, a, ops).None? then []
    else
      var b := AbsRun(h, m, a, ops[..|ops| - 1]).value;
      States(h, m, a, ops[..|ops| - 1]) + PlanOf(h, m, b, ops[|ops| - 1]).value.steps
  }

  /** The top roots a run passes through. */
  function Trail(h: Hash, m: Mode, a: Abs, ops: seq<Op>): seq<Word> {
    RootsOf(h, States(h, m, a, ops))
  }

  /** Every byte string that hashing what the run passes through takes. */
  ghost predicate RunInUse(h: Hash, m: Mode, a: Abs, ops: seq<Op>, inUse: iset<Bytes>) {
    StepsInUse(h, States(h, m, a, ops), inUse)
  }

  lemma StatesStep(h: Hash, m: Mode, a: Abs, ops: seq<Op>, inUse: iset<Bytes>)
    requires ops != [] && AbsRun(h, m, a, ops).Some?
    ensures var front, last := ops[..|ops| - 1], ops[|ops| - 1];
            && AbsRun(h, m, a, front).Some? && PlanOf(h, m, AbsRun(h, m, a, front).value, last).Some?
            && var p := PlanOf(h, m, AbsRun(h, m, a, front).value, last).value;
               && States(h, m, a, ops) == States(h, m, a, front) + p.steps
               && Trail(h, m, a, ops) == Trail(h, m, a, front) + RootsOf(h, p.steps)
               && AbsRun(h, m, a, ops) == Some(LastOf(AbsRun(h, m, a, front).value, p.steps))
               && (RunInUse(h, m, a, ops, inUse) ==>
                     RunInUse(h, m, a, front, inUse) && StepsInUse(h, p.steps, inUse))
  {
    hide PlanOf, AbsInUse, RootOf;
    var front, last := ops[..|ops| - 1], ops[|ops| - 1];
    var p := PlanOf(h, m, AbsRun(h, m, a, front).value, last).value;
    StepsSplit(h, States(h, m, a, front), p.steps, inUse);
  }

  lemma StepsSplit(h: Hash, x: seq<Abs>, y: seq<Abs>, inUse: iset<Bytes>)
    ensures RootsOf(h, x + y) == RootsOf(h, x) + RootsOf(h, y)
    ensures StepsInUse(h, x + y, inUse) <==> StepsInUse(h, x, inUse) && StepsInUse(h, y, inUse)
  {
    hide AbsInUse, RootOf;
    if StepsInUse(h, x + y, inUse) {
      forall k | 0 <= k < |x|
        ensures AbsInUse(h, x[k], inUse)
      {
        assert (x + y)[k] == x[k];
      }
      forall k | 0 <= k < |y|
        ensures AbsInUse(h, y[k], inUse)
      {
        assert (x + y)[|x| + k] == y[k];
      }
    }
  }

  /** What a run from `st` leaves: the contents of the abstract run, the canonical root after every
      sub-step, and a store that still shows all of them and all it showed before. */
  ghost predicate RunLeaves(h: Hash, st: State, out: Out, b: Abs, states: seq<Abs>, inUse: iset<Bytes>) {
    && out.Ok? && Holds(h, out.st, b, inUse) && Extends(h, st.store, out.st.store)
    && out.st.trail == st.trail + RootsOf(h, states) && Kept(h, out.st.store, states)
  }

  /** A run on a complete trie is the abstract run. */
  lemma {:induction false} RunHolds(h: Hash, m: Mode, st: State, a: Abs, ops: seq<Op>, inUse: iset<Bytes>)
    requires Holds(h, st, a, inUse) && Agrees(h, a) && KeysOk(h, ops)
    requires AbsRun(h, m, a, ops).Some? && RunInUse(h, m, a, ops, inUse)
    ensures RunLeaves(h, st, Run(h, m, st, ops), AbsRun(h, m, a, ops).value, States(h, m, a, ops), inUse)
    decreases |ops|
  {
    hide PlanOf, RunOp, Holds, Agrees, Extends, Kept, StepsInUse;
    if ops == [] {
      RunOfNothing(h, st, a, inUse);
    } else {
      var front, last := ops[..|ops| - 1], ops[|ops| - 1];
      KeysOkPrefix(h, ops);
      StatesStep(h, m, a, ops, inUse);
      RunHolds(h, m, st, a, front, inUse);
      RunKeeps(h, m, a, front);
      var b := AbsRun(h, m, a, front).value;
      PlanExists(h, m, b, last);
      RunHoldsStep(h, m, st, Run(h, m, st, front), b, States(h, m, a, front), last, inUse);
    }
  }

  lemma RunOfNothing(h: Hash, st: State, a: Abs, inUse: iset<Bytes>)
    requires Holds(h, st, a, inUse)
    ensures RunLeaves(h, st, Ok(st), a, [], inUse)
  {
    hide Holds;
    assert st.trail + RootsOf(h, []) == st.trail;
  }

  lemma RunHoldsStep(h: Hash, m: Mode, st: State, mid: Out, b: Abs, states: seq<Abs>, op: Op, inUse: iset<Bytes>)
    requires RunLeaves(h, st, mid, b, states, inUse) && Agrees(h, b) && KeyOk(h, op)
    requires PlanOf(h, m, b, op).Some? && StepsInUse(h, PlanOf(h, m, b, op).value.steps, inUse)
    ensures var steps := PlanOf(h, m, b, op).value.steps;
            RunLeaves(h, st, RunOp(h, m, mid.st, op), LastOf(b, steps), states + steps, inUse)
  {
    hide PlanOf, RunOp, Holds, Agrees, Extends, StepsInUse, AllPaths, Top, Accepts;
    var steps, out := PlanOf(h, m, b, op).value.steps, RunOp(h, m, mid.st, op);
    PlanExists(h, m, b, op);
    StepHolds(h, m, mid.st, b, op, inUse);
    ExtendsThen(h, st.store, mid.st.store, out.st.store);
    KeptGrows(h, mid.st.store, out.st.store, states);
    StepsSplit(h, states, steps, inUse);
  }

  // ----- the empty trie -----

  /** The contents `empty` passes through. */
  const BUILDING: seq<Abs> := [
    Abs(map[], 0, map[]),
    Abs(map[0 := HEAD], 0, map[]), Abs(map[0 := HEAD], 1, map[]),
    Abs(map[0 := HEAD, 1 := TAIL], 1, map[]), Abs(map[0 := HEAD, 1 := TAIL], 2, map[])]

  /** What building the empty trie hashes, among which no two collide. */
  ghost predicate StartInUse(h: Hash, inUse: iset<Bytes>) {
    CollisionFree(h, inUse) && EmptyInUse(h, inUse) && StepsInUse(h, BUILDING, inUse)
  }

  lemma PutSentinelReaches(h: Hash, st: State, a: Abs, o: LeafOpening, ix: Index, inUse: iset<Bytes>)
    requires Sim(h, st, a, inUse) && At(h, st.store, a.free, a) && a.free < INDEX_LIMIT
    requires var b := WithSlot(a, a.free, o); StepsInUse(h, [b, b.(free := a.free + 1)], inUse)
    ensures var b := WithSlot(a, a.free, o);
            Reaches(h, st, a, PutSentinel(h, st, a.free, o, ix), [b, b.(free := a.free + 1)], inUse)
    ensures PutSentinel(h, st, a.free, o, ix).st.index == ix
  {
    hide LeafIn, TopIn, Canon, Extends, AddLeaf, Sound, AbsInUse, Carried;
    var b := WithSlot(a, a.free, o);
    var steps := [b, b.(free := a.free + 1)];
    assert AbsInUse(h, steps[0], inUse) && AbsInUse(h, steps[1], inUse);
    WriteLeafReaches(h, st, a, a.free, o, inUse);
    var w := WriteLeaf(h, st, a.free, ToBytes(o));
    LinkRightGoesOn(h, st, a, w.st.(index := ix), b, inUse);
  }

  /** `set_head_and_tail` on the empty tree, as sub-steps. */
  lemma SentinelsReach(h: Hash, st: State, inUse: iset<Bytes>)
    requires Sim(h, st, BUILDING[0], inUse) && AllPaths(h, st.store, BUILDING[0])
    requires StepsInUse(h, BUILDING, inUse) && st.index == Ordered(map[])
    ensures Reaches(h, st, BUILDING[0], SetHeadAndTail(h, st), BUILDING[1..], inUse)
    ensures SetHeadAndTail(h, st).st.index == Ordered(EMPTY.leaves)
  {
    hide LeafIn, TopIn, Extends, PutSentinel, Sound, AbsInUse, Carried, RootOf;
    var ix0 := UpdateIndex(st.index, HEAD_KEY, FLAT_HEAD);
    var ix1 := UpdateIndex(ix0, TAIL_KEY, FLAT_TAIL);
    StepsSplit(h, BUILDING[..1], BUILDING[1..], inUse);
    StepsSplit(h, BUILDING[1..3], BUILDING[3..], inUse);
    assert BUILDING == BUILDING[..1] + BUILDING[1..] && BUILDING[1..] == BUILDING[1..3] + BUILDING[3..];
    assert At(h, st.store, 0, BUILDING[0]);
    SentinelSteps();
    PutSentinelReaches(h, st, BUILDING[0], HEAD, ix0, inUse);
    var st1 := PutSentinel(h, st, 0, HEAD, ix0).st;
    ReachesKeeps(h, st, BUILDING[0], Ok(st1), BUILDING[1..3], inUse);
    assert At(h, st1.store, 1, BUILDING[2]);
    var st1' := st1.(index := ix1);
    PutSentinelReaches(h, st1', BUILDING[2], TAIL, ix1, inUse);
    var out := PutSentinel(h, st1', 1, TAIL, ix1);
    assert Reaches(h, st, BUILDING[0], Ok(st1'), BUILDING[1..3], inUse);
    ReachesThen(h, st, BUILDING[0], st1', BUILDING[1..3], out, BUILDING[3..], inUse);
    SentinelsAre(h, st, st1, inUse);
    assert map[][HEAD_KEY := FLAT_HEAD][TAIL_KEY := FLAT_TAIL] == EMPTY.leaves;
  }

  lemma SentinelSteps()
    ensures var b := WithSlot(BUILDING[0], 0, HEAD); BUILDING[1..3] == [b, b.(free := 1)]
    ensures var b := WithSlot(BUILDING[2], 1, TAIL); BUILDING[3..] == [b, b.(free := 2)]
    ensures LastOf(BUILDING[0], BUILDING[1..3]) == BUILDING[2]
  {
  }

  /** Where the two sentinels go. */
  lemma SentinelsAre(h: Hash, st: State, st1: State, inUse: iset<Bytes>)
    requires Sim(h, st, BUILDING[0], inUse) && Sim(h, st1, BUILDING[2], inUse)
    requires var ix := UpdateIndex(st.index, HEAD_KEY, FLAT_HEAD);
             PutSentinel(h, st, 0, HEAD, ix) == Ok(st1) && st1.index == ix
    ensures var ix := UpdateIndex(st1.index, TAIL_KEY, FLAT_TAIL);
            SetHeadAndTail(h, st) == PutSentinel(h, st1.(index := ix), 1, TAIL, ix)
  {
    hide PutSentinel, Sound, Canon;
    CounterIsFree(h, st.store, 0, Enc(map[]));
    CounterIsFree(h, st1.store, 1, Enc(map[0 := HEAD]));
  }

  /** `empty` builds the two sentinels, on a store that resolves every path. */
  lemma EmptyHolds(h: Hash, inUse: iset<Bytes>)
    requires StartInUse(h, inUse)
    ensures var out := Empty(h, map[], Ordered(map[]));
            && out.Ok? && Holds(h, out.st, EMPTY, inUse)
            && out.st.trail == RootsOf(h, BUILDING) && Kept(h, out.st.store, BUILDING)
  {
    hide LeafIn, TopIn, Extends, SetHeadAndTail, Sound, AbsInUse, Carried, CollisionFree, EmptyInUse, TopRoot,
      EmptyTop;
    var st0 := Fresh(h, map[], Ordered(map[]));
    EmptyIsSound(h, inUse);
    assert Enc(BUILDING[0].slots) == map[];
    EmptyStoreIsFull(h, st0.store, inUse);
    SentinelsReach(h, st0, inUse);
    var out := Empty(h, map[], Ordered(map[]));
    ReachesKeeps(h, st0, BUILDING[0], out, BUILDING[1..], inUse);
    KeptGrows(h, st0.store, out.st.store, BUILDING[..1]);
    StepsSplit(h, BUILDING[..1], BUILDING[1..], inUse);
    assert BUILDING == BUILDING[..1] + BUILDING[1..];
    assert RootsOf(h, BUILDING[..1]) == [st0.root];
    forall k | 0 <= k < |BUILDING|
      ensures Top(h, out.st.store, BUILDING[k]) && AllPaths(h, out.st.store, BUILDING[k])
    {
      if k == 0 {
        assert BUILDING[..1][0] == BUILDING[0];
      } else {
        assert BUILDING[1..][k - 1] == BUILDING[k];
      }
    }
    HoldsReindexed(h, out.st, BUILDING[4], EMPTY, inUse);
  }

  /** The tree does not show the index. */
  lemma HoldsReindexed(h: Hash, st: State, a: Abs, b: Abs, inUse: iset<Bytes>)
    requires Sim(h, st, a, inUse) && AllPaths(h, st.store, a) && st.index == Ordered(b.leaves)
    requires a.slots == b.slots && a.free == b.free
    ensures Holds(h, st, b, inUse)
  {
    hide LeafIn, TopIn, Sound;
    forall i: nat | i < INDEX_LIMIT
      ensures At(h, st.store, i, b)
    {
      assert At(h, st.store, i, a);
    }
  }

  // ----- the trie is a map, with history -----

  /** From `empty`, through any run, `read` returns the last value put under the key, or None if
      there is none or it was removed since; with either parser. */
  lemma TrieIsMap(h: Hash, m: Mode, ops: seq<Op>, key: Bytes, inUse: iset<Bytes>)
    requires StartInUse(h, inUse) && RunInUse(h, m, EMPTY, ops, inUse)
    requires KeysOk(h, ops) && AbsRun(h, m, EMPTY, ops).Some? && Hashable(key) && KeyOk(h, ReadOp(key))
    ensures var out := Run(h, m, Empty(h, map[], Ordered(map[])).st, ops);
            out.Ok? && Read(h, out.st, key) == Success(LastWrite(h, ops, h(key)))
  {
    hide Run, Empty, Read, AbsRun, WrittenOver, Holds, Agrees, Extends, Linked, RunInUse, Kept, StartInUse;
    EmptyHolds(h, inUse);
    EmptyIsValid(h);
    var st0 := Empty(h, map[], Ordered(map[])).st;
    RunHolds(h, m, st0, EMPTY, ops, inUse);
    RunKeeps(h, m, EMPTY, ops);
    RunIsMap(h, m, EMPTY, ops, h(key));
    assert ValueAt(EMPTY, h(key)) == None;
    ReadHolds(h, Run(h, m, st0, ops).st, AbsRun(h, m, EMPTY, ops).value, key, inUse);
  }

  /** Nothing is ever lost: after any run from `empty`, every top root the trie was ever assigned
      still shows the counter and every leaf it showed at the time. */
  lemma EveryRootShows(h: Hash, m: Mode, ops: seq<Op>, k: nat, inUse: iset<Bytes>)
    requires StartInUse(h, inUse) && RunInUse(h, m, EMPTY, ops, inUse)
    requires KeysOk(h, ops) && AbsRun(h, m, EMPTY, ops).Some?
    ensures var out := Run(h, m, Empty(h, map[], Ordered(map[])).st, ops);
            var past := BUILDING + States(h, m, EMPTY, ops);
            && out.Ok? && |out.st.trail| == |past| && out.st.root == out.st.trail[|past| - 1]
            && (k < |past| ==> Shows(h, out.st.store, out.st.trail[k], past[k].free, Enc(past[k].slots)))
  {
    hide Run, Empty, AbsRun, Agrees, Extends, Linked, RunInUse, StartInUse, States, Shows, Full, Sim, Kept, RootOf;
    EmptyHolds(h, inUse);
    EmptyIsValid(h);
    var st0, states := Empty(h, map[], Ordered(map[])).st, States(h, m, EMPTY, ops);
    RunHolds(h, m, st0, EMPTY, ops, inUse);
    var out := Run(h, m, st0, ops);
    KeptGrows(h, st0.store, out.st.store, BUILDING);
    HistoryShows(h, out.st.store, BUILDING, states, k);
    LastState(h, m, EMPTY, ops);
    BuildingEnds(h);
    RootOfHolds(h, out.st, AbsRun(h, m, EMPTY, ops).value, inUse);
  }

  lemma BuildingEnds(h: Hash)
    ensures RootOf(h, BUILDING[|BUILDING| - 1]) == RootOf(h, EMPTY)
  {
  }

  lemma RootOfHolds(h: Hash, st: State, a: Abs, inUse: iset<Bytes>)
    requires Holds(h, st, a, inUse)
    ensures st.root == RootOf(h, a)
  {
  }

  lemma HistoryShows(h: Hash, s: Store, x: seq<Abs>, y: seq<Abs>, k: nat)
    requires Kept(h, s, x) && Kept(h, s, y)
    ensures RootsOf(h, x + y) == RootsOf(h, x) + RootsOf(h, y)
    ensures k < |x + y| ==> Shows(h, s, RootOf(h, (x + y)[k]), (x + y)[k].free, Enc((x + y)[k].slots))
  {
    hide Shows, RootOf, Top, AllPaths;
    if k < |x + y| {
      assert k >= |x| ==> (x + y)[k] == y[k - |x|];
      KeptShows(h, s, (x + y)[k]);
    }
  }

  lemma KeptShows(h: Hash, s: Store, a: Abs)
    requires Top(h, s, a) && AllPaths(h, s, a)
    ensures Shows(h, s, RootOf(h, a), a.free, Enc(a.slots))
  {
    hide LeafIn, TopIn, Shows;
    CompleteIsFull(h, s, a);
    FullShows(h, s, a.free, Enc(a.slots));
  }

  /** A run that changed anything ends in the last contents it passed through. */
  lemma {:induction false} LastState(h: Hash, m: Mode, a: Abs, ops: seq<Op>)
    requires AbsRun(h, m, a, ops).Some?
    ensures AbsRun(h, m, a, ops) == Some(LastOf(a, States(h, m, a, ops)))
    decreases |ops|
  {
    hide PlanOf;
    if ops != [] {
      StatesStep(h, m, a, ops, iset{});
      LastState(h, m, a, ops[..|ops| - 1]);
    }
  }

  /** Putting a fresh key and removing it gives back the exact sub-root under a counter one higher. */
  lemma PutRemoveSubRoot(h: Hash, st: State, a: Abs, key: Bytes, value: Bytes, inUse: iset<Bytes>)
    requires Holds(h, st, a, inUse) && Valid(h, a)
    requires KeyOk(h, PutOp(key, value)) && Accepts(h, a, PutOp(key, value)) && h(key) !in a.leaves
    requires RunInUse(h, Repaired, a, [PutOp(key, value), RemoveOp(key)], inUse)
    ensures var out := Run(h, Repaired, st, [PutOp(key, value), RemoveOp(key)]);
            && out.Ok?
            && SubRoot(h, out.st.store, out.st.root) == SubRoot(h, st.store, st.root)
            && NextFreeNode(h, out.st.store, out.st.root) == Success(a.free + 1)
  {
    hide Run, Agrees, Linked, AbsRun, AllPaths, Extends, RunInUse, Kept, States, Sound;
    var ops := [PutOp(key, value), RemoveOp(key)];
    PutRemoveRestores(h, a, key, value);
    RunHolds(h, Repaired, st, a, ops, inUse);
    CounterIsFree(h, st.store, a.free, Enc(a.slots));
    CounterIsFree(h, Run(h, Repaired, st, ops).st.store, a.free + 1, Enc(a.slots));
  }

  // ----- refused operations -----

  /** What a refused insertion leaves: the left neighbour relinked to a leaf that never comes. */
  function Dangling(a: Abs, hkey: Word): Abs {
    match NearestTo(a, hkey)
    case None => a
    case Some(near) =>
      if near.left in a.slots then WithEdit(Repaired, a, near.left, SetNext(a.free)) else a
  }

  /** The call ended after the left neighbour was relinked, the index as it was and the list broken. */
  ghost predicate StopsDangling(h: Hash, st: State, a: Abs, op: Op, out: Out, inUse: iset<Bytes>)
    requires op.PutOp?
  {
    var b := Dangling(a, h(op.key));
    && out.Err? && out.error == (if a.free >= INDEX_LIMIT then Panic else HashError(op.value))
    && Sim(h, out.st, b, inUse) && out.st.index == st.index && !Linked(b.slots)
  }

  /** A refused operation returns an error. It leaves the trie as it was exactly when it is refused
      before the first write: an unhashable key, or an unhashable value for a key already there. A
      fresh key with an unhashable value, or with no index left, has by then relinked the left
      neighbour to a leaf that never comes, and the list is broken. */
  lemma RefusedLeaves(h: Hash, st: State, a: Abs, op: Op, inUse: iset<Bytes>)
    requires Holds(h, st, a, inUse) && Valid(h, a) && KeyOk(h, op) && !Accepts(h, a, op)
    requires Hashable(op.key) ==> AbsInUse(h, Dangling(a, h(op.key)), inUse)
    ensures var out := RunOp(h, Repaired, st, op);
            if !Hashable(op.key) then out == Err(st, HashError(op.key))
            else if h(op.key) in a.leaves then op.PutOp? && out == Err(st, HashError(op.value))
            else op.PutOp? && StopsDangling(h, st, a, op, out, inUse)
  {
    assert h(op.key) in a.leaves ==> a.leaves[h(op.key)].leafIndex < INDEX_LIMIT;
    hide Linked, EditLeaf, AddFresh, Agrees, NearestTo, AllPaths, Sound, AbsInUse;
    CounterIsFree(h, st.store, a.free, Enc(a.slots));
    if Hashable(op.key) {
      var near, below, above := NearestExists(h, a, h(op.key));
      if h(op.key) !in a.leaves {
        RefusedFresh(h, st, a, op, near, inUse);
      }
    }
  }

  lemma RefusedFresh(h: Hash, st: State, a: Abs, op: Op, near: KeyRange, inUse: iset<Bytes>)
    requires Holds(h, st, a, inUse) && Agrees(h, a) && op.PutOp? && Hashable(op.key)
    requires NearestTo(a, h(op.key)) == Some(near) && near.center == None
    requires near.left in a.slots && near.right in a.slots && near.left != TAIL_INDEX
    requires !Hashable(op.value) || a.free >= INDEX_LIMIT
    requires AbsInUse(h, Dangling(a, h(op.key)), inUse)
    ensures StopsDangling(h, st, a, op, RunOp(h, Repaired, st, op), inUse)
  {
    hide Linked, EditLeaf, AddFresh, NearestTo, Nearest, Extends, LeafIn, TopIn, Put, Sound, AbsInUse, Carried;
    CounterIsFree(h, st.store, a.free, Enc(a.slots));
    assert near.left < INDEX_LIMIT && near.right < INDEX_LIMIT;
    assert At(h, st.store, near.left, a);
    EditLeafReaches(h, Repaired, st, a, near.left, SetNext(a.free), inUse);
    DanglingNext(h, a, near.left);
    EditKeepsIndex(h, Repaired, st, near.left, SetNext(a.free));
    NearestHere(h, st, a, h(op.key));
    RefusedPutStops(h, Repaired, st, op.key, op.value, near, a.free);
  }

  /** `put` of a fresh key it cannot finish stops right after the left neighbour was rewritten. */
  lemma RefusedPutStops(h: Hash, m: Mode, st: State, key: Bytes, value: Bytes, near: KeyRange, free: U64)
    requires Hashable(key) && Nearest(st.index, st.root, h(key)) == Some(near) && near.center == None
    requires SubRoot(h, st.store, st.root).Success? && NextFreeNode(h, st.store, st.root) == Success(free)
    requires near.left < INDEX_LIMIT && near.right < INDEX_LIMIT
    requires (!Hashable(value) || free >= INDEX_LIMIT) && EditLeaf(h, m, st, near.left, SetNext(free)).Ok?
    ensures Put(h, m, st, key, value) == Err(EditLeaf(h, m, st, near.left, SetNext(free)).st,
                                             if free >= INDEX_LIMIT then Panic else HashError(value))
  {
    hide EditLeaf, AddFresh, Nearest;
  }

  lemma DanglingNext(h: Hash, a: Abs, left: U64)
    requires Agrees(h, a) && left in a.slots && left != TAIL_INDEX
    ensures !Linked(WithEdit(Repaired, a, left, SetNext(a.free)).slots)
  {
    FreeIsVacant(h, a);
    var s := WithEdit(Repaired, a, left, SetNext(a.free)).slots;
    assert a.free != left;
    assert !NextOk(s, left);
  }
}
