/** The central theorem: a run on the partial store rebuilt from its own traces is, root by root,
    the run on the full trie. */
module Witness {
  import opened Words
  import opened LeafPaths
  import opened Nodes
  import opened MerkleTree
  import opened SparseMerkle
  import opened ZkTrieSpec
  import opened TrieMachine
  import opened LinkedLeaves
  import opened TrieRuns
  import opened TrieOnStore
  import opened Traces

  // ----- recording -----

  function Beside(lo: nat): nat {
    if lo % 2 == 0 then lo + 1 else lo - 1
  }

  /** The siblings on the path of `idx` in the canonical tree, leaf level first. */
  function SiblingsOf(h: Hash, idx: nat, slots: Slots): (s: seq<Word>)
    ensures |s| == ZK_TRIE_DEPTH
  {
    seq(ZK_TRIE_DEPTH, e requires 0 <= e < ZK_TRIE_DEPTH => Canon(h, e, Beside(Halve(e, idx)), slots))
  }

  function ProofOf(h: Hash, idx: U64, a: Abs): TraceProof {
    TraceProof(idx, SiblingsOf(h, idx, Enc(a.slots)))
  }

  function SubRootOf(h: Hash, a: Abs): Digest {
    Canon(h, ZK_TRIE_DEPTH, 0, Enc(a.slots))
  }

  /** The trace a full trie in contents `a` hands out for an operation: each proof is taken in the
      contents its change starts from, and each leaf is the one stored there. */
  ghost function RecordOp(h: Hash, m: Mode, a: Abs, op: Op): Trace
    requires Agrees(h, a) && KeyOk(h, op) && PlanOf(h, m, a, op).Some?
  {
    RangeInSlots(h, m, a, op);
    hide NearestTo, Agrees;
    var p, near := PlanOf(h, m, a, op).value, NearestTo(a, h(op.key)).value;
    if near.center.None? then
      if op.PutOp? then
        InsertionTrace(op.key, a.free + 1, SubRootOf(h, a), ProofOf(h, near.left, a),
                       ProofOf(h, a.free, p.steps[0]), ProofOf(h, near.right, p.steps[1]),
                       a.slots[near.left], p.steps[1].slots[near.right])
      else
        ReadZeroTrace(op.key, a.free, SubRootOf(h, a), ProofOf(h, near.left, a), ProofOf(h, near.right, a))
    else
      var idx, value := near.center.value.leafIndex, near.center.value.leafValue;
      match op
      case ReadOp(_) =>
        ReadTrace(op.key, a.free, SubRootOf(h, a), a.slots[idx], ProofOf(h, idx, a), value)
      case PutOp(_, _) =>
        UpdateTrace(op.key, a.free, SubRootOf(h, a), ProofOf(h, idx, a), value, a.slots[idx])
      case RemoveOp(_) =>
        DeletionTrace(op.key, a.free, SubRootOf(h, a), ProofOf(h, near.left, a),
                      ProofOf(h, idx, p.steps[0]), ProofOf(h, near.right, p.steps[1]), value,
                      a.slots[near.left], p.steps[0].slots[idx], p.steps[1].slots[near.right])
  }

  lemma RangeInSlots(h: Hash, m: Mode, a: Abs, op: Op)
    requires Agrees(h, a) && KeyOk(h, op) && PlanOf(h, m, a, op).Some?
    ensures var near := NearestTo(a, h(op.key)).value;
            && NearestTo(a, h(op.key)).Some? && a.free < TWO_TO_64 - 1
            && near.left in a.slots && near.right in a.slots && near.left != near.right
            && near.left < INDEX_LIMIT && near.right < INDEX_LIMIT
            && (near.center.Some? <==> h(op.key) in a.leaves)
            && (near.center.Some? ==>
                  && near.center.value == a.leaves[h(op.key)]
                  && near.center.value.leafIndex in a.slots
                  && near.center.value.leafIndex < INDEX_LIMIT
                  && near.center.value.leafIndex != near.left
                  && near.center.value.leafIndex != near.right)
  {
    var near, below, above := NearestExists(h, a, h(op.key));
  }

  ghost function Record(h: Hash, m: Mode, a: Abs, ops: seq<Op>): seq<Trace>
    requires Agrees(h, a) && KeysOk(h, ops) && AbsRun(h, m, a, ops).Some?
    decreases |ops|
  {
    if ops == [] then []
    else
      var front, last := ops[..|ops| - 1], ops[|ops| - 1];
      KeysOkPrefix(h, ops);
      RunKeeps(h, m, a, front);
      Record(h, m, a, front) + [RecordOp(h, m, AbsRun(h, m, a, front).value, last)]
  }

  // ----- what a recorded proof rebuilds -----

  /** One honest step of `build_nodes`. */
  lemma JoinIsCanon(h: Hash, idx: nat, slots: Slots, e: nat)
    requires e < ZK_TRIE_DEPTH
    ensures Join(h, LeafPath(idx)[ZK_TRIE_DEPTH - e], CanonNode(h, e, Halve(e, idx), slots),
                 SiblingsOf(h, idx, slots)[e])
         == CanonNode(h, e + 1, Halve(e + 1, idx), slots)
  {
    PathByte(idx, e + 1);
  }

  /** `out` lists the ancestors of `idx` from height `e` up. */
  ghost predicate IsPathFrom(h: Hash, idx: nat, slots: Slots, e: nat, out: seq<Node>) {
    && e <= ZK_TRIE_DEPTH && |out| == ZK_TRIE_DEPTH + 1 - e
    && forall k | e <= k <= ZK_TRIE_DEPTH :: out[k - e] == CanonNode(h, k, Halve(k, idx), slots)
  }

  ghost function Rebuilt(h: Hash, idx: nat, slots: Slots, e: nat): seq<Node>
    requires e <= ZK_TRIE_DEPTH
  {
    BuildFrom(h, LeafPath(idx), SiblingsOf(h, idx, slots), e, CanonNode(h, e, Halve(e, idx), slots))
  }

  lemma RebuiltStep(h: Hash, idx: nat, slots: Slots, e: nat)
    requires e <= ZK_TRIE_DEPTH
    ensures Rebuilt(h, idx, slots, e) == [CanonNode(h, e, Halve(e, idx), slots)]
              + (if e < ZK_TRIE_DEPTH then Rebuilt(h, idx, slots, e + 1) else [])
  {
    hide LeafPath, SiblingsOf, Join, CanonNode, Halve;
    if e < ZK_TRIE_DEPTH {
      JoinIsCanon(h, idx, slots, e);
    }
  }

  lemma {:induction false} BuildIsPath(h: Hash, idx: nat, slots: Slots, e: nat)
    requires e <= ZK_TRIE_DEPTH
    ensures IsPathFrom(h, idx, slots, e, Rebuilt(h, idx, slots, e))
    decreases ZK_TRIE_DEPTH - e
  {
    hide Rebuilt, CanonNode, Halve;
    RebuiltStep(h, idx, slots, e);
    if e < ZK_TRIE_DEPTH {
      BuildIsPath(h, idx, slots, e + 1);
    }
  }

  /** An honest proof, with the leaf it was taken for, rebuilds exactly the nodes of the path. */
  lemma ProofRebuildsPath(h: Hash, idx: U64, a: Abs, leaf: Option<LeafOpening>)
    requires idx < INDEX_LIMIT
    requires leaf == if idx in a.slots then Some(a.slots[idx]) else None
    ensures var built := BuildNodes(h, ProofOf(h, idx, a), leaf);
            built.Some? && IsPathFrom(h, idx, Enc(a.slots), 0, built.value)
  {
    hide BuildFrom, CanonNode, LeafPath, SiblingsOf, Halve, ProofLeaf, IsPathFrom;
    BuildIsPath(h, idx, Enc(a.slots), 0);
    LeafOfProof(h, idx, a, leaf);
  }

  lemma LeafOfProof(h: Hash, idx: U64, a: Abs, leaf: Option<LeafOpening>)
    requires leaf == if idx in a.slots then Some(a.slots[idx]) else None
    ensures ProofLeaf(leaf) == CanonNode(h, 0, Halve(0, idx), Enc(a.slots))
  {
  }

  /** A store that resolves the rebuilt nodes resolves the path. */
  lemma RebuiltIsResolved(h: Hash, s: Store, idx: U64, a: Abs, nodes: seq<Node>)
    requires idx < INDEX_LIMIT && IsPathFrom(h, idx, Enc(a.slots), 0, nodes) && Resolved(h, s, nodes)
    ensures At(h, s, idx, a)
  {
    hide CanonNode, Enc;
    var slots := Enc(a.slots);
    forall e: nat | e <= ZK_TRIE_DEPTH
      ensures NodeIn(h, s, e, idx, slots)
    {
      assert nodes[e - 0] == CanonNode(h, e, Halve(e, idx), slots);
      assert CanonNode(h, e, Halve(e, idx), slots) in nodes;
    }
  }

  /** The rebuilt nodes are hashed from bytes in use if the tree is. */
  lemma RebuiltInUse(h: Hash, idx: U64, a: Abs, nodes: seq<Node>, inUse: iset<Bytes>)
    requires idx < INDEX_LIMIT && IsPathFrom(h, idx, Enc(a.slots), 0, nodes) && AbsInUse(h, a, inUse)
    ensures AllInUse(nodes, inUse)
  {
    hide CanonNode, TreeInUse, NodeInUse, Sized;
    var slots := Enc(a.slots);
    EncSized(a.slots);
    IndexHasPath(idx);
    TreePathInUse(h, ZK_TRIE_DEPTH, idx, slots, inUse);
    forall k | 0 <= k < |nodes|
      ensures NodeInUse(nodes[k], inUse)
    {
      assert nodes[k - 0] == CanonNode(h, k, Halve(k, idx), slots);
    }
  }

  // ----- what one recorded trace provides -----

  lemma RecordedTop(h: Hash, m: Mode, a: Abs, op: Op)
    requires Agrees(h, a) && KeyOk(h, op) && PlanOf(h, m, a, op).Some?
    ensures OldTopNode(RecordOp(h, m, a, op)) == Some(CanonTop(h, a.free, Enc(a.slots)))
    ensures RecordOp(h, m, a, op).key == op.key && Hashable(op.key)
    ensures Holding(h, RecordOp(h, m, a, op)) == (RootOf(h, a), h(op.key))
  {
    hide BlankSentinels;
    hide NearestTo, FreshSteps, ExistingSteps, RemoveSteps, ProofOf, Canon;
    RangeInSlots(h, m, a, op);
  }

  /** A present leaf with the neighbours its links name. */
  function LinkedRange(a: Abs, hkey: Word): KeyRange
    requires hkey in a.leaves && a.leaves[hkey].leafIndex in a.slots
  {
    var o := a.slots[a.leaves[hkey].leafIndex];
    KeyRange(o.prev, Some(a.leaves[hkey]), o.next)
  }

  /** The recorded range: the index's answer for an absent key, the leaf's own links for a present one. */
  lemma RecordedRange(h: Hash, m: Mode, a: Abs, op: Op)
    requires Agrees(h, a) && KeyOk(h, op) && PlanOf(h, m, a, op).Some?
    ensures h(op.key) !in a.leaves ==> NearestTo(a, h(op.key)) == Some(KeyRangeOf(RecordOp(h, m, a, op)))
    ensures h(op.key) in a.leaves ==>
              && a.leaves[h(op.key)].leafIndex in a.slots
              && KeyRangeOf(RecordOp(h, m, a, op)) == LinkedRange(a, h(op.key))
  {
    hide NearestTo, Agrees, FreshSteps, ExistingSteps, SiblingsOf;
    RangeInSlots(h, m, a, op);
  }

  /** A leaf about to be removed names its two neighbours. */
  ghost predicate LinksServe(h: Hash, a: Abs, op: Op) {
    op.RemoveOp? && h(op.key) in a.leaves && a.leaves[h(op.key)].leafIndex in a.slots ==>
      NearestTo(a, h(op.key)) == Some(LinkedRange(a, h(op.key)))
  }

  lemma ValidServes(h: Hash, a: Abs, op: Op)
    requires Valid(h, a) && KeyOk(h, op) && Hashable(op.key)
    ensures LinksServe(h, a, op)
  {
    hide Agrees, Linked, NearestTo;
    KeyInRange(h, op);
    if h(op.key) in a.leaves {
      IndexInSlots(h, a, h(op.key));
      LinksAreNearest(h, a, h(op.key));
    }
  }

  /** The recorded range answers the operation as the index would. */
  lemma RecordedAnswers(h: Hash, m: Mode, a: Abs, op: Op)
    requires Agrees(h, a) && KeyOk(h, op) && PlanOf(h, m, a, op).Some? && LinksServe(h, a, op)
    ensures Answers(Some(KeyRangeOf(RecordOp(h, m, a, op))), NearestTo(a, h(op.key)), op)
  {
    hide NearestTo, Agrees, RecordOp, PlanOf, KeyRangeOf;
    RangeInSlots(h, m, a, op);
    RecordedRange(h, m, a, op);
  }

  lemma KeyInRange(h: Hash, op: Op)
    requires Hashable(op.key) && KeyOk(h, op)
    ensures HEAD_KEY < h(op.key) < TAIL_KEY
  {
  }

  /** An honest proof makes its path resolved once its nodes are, and takes only bytes in use. */
  lemma ProofResolves(h: Hash, s: Store, idx: U64, a: Abs, leaf: Option<LeafOpening>, inUse: iset<Bytes>)
    requires idx < INDEX_LIMIT && leaf == (if idx in a.slots then Some(a.slots[idx]) else None)
    ensures BuildNodes(h, ProofOf(h, idx, a), leaf).Some?
    ensures Resolved(h, s, BuildNodes(h, ProofOf(h, idx, a), leaf).value) ==> At(h, s, idx, a)
    ensures AbsInUse(h, a, inUse) ==> AllInUse(BuildNodes(h, ProofOf(h, idx, a), leaf).value, inUse)
  {
    hide BuildNodes, CanonNode, LeafIn, IsPathFrom, AbsInUse, Resolved, AllInUse;
    ProofRebuildsPath(h, idx, a, leaf);
    var built := BuildNodes(h, ProofOf(h, idx, a), leaf).value;
    if Resolved(h, s, built) {
      RebuiltIsResolved(h, s, idx, a, built);
    }
    if AbsInUse(h, a, inUse) {
      RebuiltInUse(h, idx, a, built, inUse);
    }
  }

  /** Two lists of nodes, resolved and in use together and one by one. */
  lemma Parts(h: Hash, s: Store, x: seq<Node>, y: seq<Node>, inUse: iset<Bytes>)
    ensures Resolved(h, s, x + y) <==> Resolved(h, s, x) && Resolved(h, s, y)
    ensures AllInUse(x + y, inUse) <==> AllInUse(x, inUse) && AllInUse(y, inUse)
  {
    hide NodeInUse, Lookup;
    assert forall n | n in x :: n in x + y;
    assert forall n | n in y :: n in x + y;
  }

  /** Three proofs, the middle one perhaps for an empty slot. */
  lemma ThreeProofs(h: Hash, s: Store, x: seq<Node>, y: seq<Node>, z: seq<Node>, inUse: iset<Bytes>)
    ensures var all := Both(Both(Some(x), Some(y)), Some(z)).value;
            && (Resolved(h, s, all) ==> Resolved(h, s, x) && Resolved(h, s, y) && Resolved(h, s, z))
            && (AllInUse(x, inUse) && AllInUse(y, inUse) && AllInUse(z, inUse) ==> AllInUse(all, inUse))
  {
    hide AllInUse, Resolved;
    Parts(h, s, x + y, z, inUse);
    Parts(h, s, x, y, inUse);
  }

  /** What one recorded trace is good for: a store that resolves its nodes has every path the operation
      touches, each for the contents of the sub-step that walks it; and its nodes take no other bytes
      than those contents. */
  ghost predicate TraceGood(h: Hash, m: Mode, s: Store, a: Abs, op: Op, inUse: iset<Bytes>)
    requires Agrees(h, a) && KeyOk(h, op) && PlanOf(h, m, a, op).Some?
  {
    var p, nodes := PlanOf(h, m, a, op).value, NodesOf(h, RecordOp(h, m, a, op));
    && nodes.Some?
    && (Resolved(h, s, nodes.value) ==> PlanReady(h, s, a, p))
    && (AbsInUse(h, a, inUse) && StepsInUse(h, p.steps, inUse) ==> AllInUse(nodes.value, inUse))
  }

  lemma ThreeReady(h: Hash, s: Store, a: Abs, p: Plan)
    requires |p.touched| == 3 <= |p.steps|
    ensures (forall k | 0 <= k < 3 :: p.touched[k] < INDEX_LIMIT)
         && At(h, s, p.touched[0], a) && At(h, s, p.touched[1], p.steps[0]) && At(h, s, p.touched[2], p.steps[1])
         ==> PlanReady(h, s, a, p)
  {
    hide At;
  }

  lemma InsertionReady(h: Hash, m: Mode, s: Store, a: Abs, op: Op, inUse: iset<Bytes>)
    requires Agrees(h, a) && KeyOk(h, op) && PlanOf(h, m, a, op).Some?
    requires op.PutOp? && NearestTo(a, h(op.key)).value.center.None?
    ensures TraceGood(h, m, s, a, op, inUse)
  {
    hide BlankSentinels;
    hide NearestTo, ProofOf, BuildNodes, At, Resolved, AbsInUse, AllInUse, PlanReady;
    RangeInSlots(h, m, a, op);
    FreeIsVacant(h, a);
    var t, near := RecordOp(h, m, a, op), NearestTo(a, h(op.key)).value;
    var p := PlanOf(h, m, a, op).value;
    assert a.free !in p.steps[0].slots;
    ProofResolves(h, s, near.left, a, Some(t.priorLeft), inUse);
    ProofResolves(h, s, a.free, p.steps[0], None, inUse);
    ProofResolves(h, s, near.right, p.steps[1], Some(t.priorRight), inUse);
    ThreeProofs(h, s, BuildNodes(h, t.leftProof, Some(t.priorLeft)).value,
      BuildNodes(h, t.newProof, None).value, BuildNodes(h, t.rightProof, Some(t.priorRight)).value, inUse);
    ThreeReady(h, s, a, p);
  }

  lemma DeletionReady(h: Hash, m: Mode, s: Store, a: Abs, op: Op, inUse: iset<Bytes>)
    requires Agrees(h, a) && KeyOk(h, op) && PlanOf(h, m, a, op).Some?
    requires op.RemoveOp? && NearestTo(a, h(op.key)).value.center.Some?
    ensures TraceGood(h, m, s, a, op, inUse)
  {
    hide NearestTo, Agrees, ProofOf, BuildNodes, At, Resolved, AbsInUse, AllInUse, PlanReady;
    RangeInSlots(h, m, a, op);
    var t, near := RecordOp(h, m, a, op), NearestTo(a, h(op.key)).value;
    var p, idx := PlanOf(h, m, a, op).value, near.center.value.leafIndex;
    ProofResolves(h, s, near.left, a, Some(t.priorLeft), inUse);
    ProofResolves(h, s, idx, p.steps[0], Some(t.priorDelete), inUse);
    ProofResolves(h, s, near.right, p.steps[1], Some(t.priorRight), inUse);
    ThreeProofs(h, s, BuildNodes(h, t.leftProof, Some(t.priorLeft)).value,
      BuildNodes(h, t.deleteProof, Some(t.priorDelete)).value,
      BuildNodes(h, t.rightProof, Some(t.priorRight)).value, inUse);
    ThreeReady(h, s, a, p);
  }

  lemma TraceReady(h: Hash, m: Mode, s: Store, a: Abs, op: Op, inUse: iset<Bytes>)
    requires Agrees(h, a) && KeyOk(h, op) && PlanOf(h, m, a, op).Some?
    ensures TraceGood(h, m, s, a, op, inUse)
  {
    hide NearestTo, Agrees, ProofOf, BuildNodes, LeafIn, Resolved, FreshSteps, RemoveSteps, AbsInUse;
    RangeInSlots(h, m, a, op);
    var near := NearestTo(a, h(op.key)).value;
    if op.PutOp? && near.center.None? {
      InsertionReady(h, m, s, a, op, inUse);
    } else if op.RemoveOp? && near.center.Some? {
      DeletionReady(h, m, s, a, op, inUse);
    } else if op.PutOp? {
      var idx := near.center.value.leafIndex;
      ProofResolves(h, s, idx, a, Some(a.slots[idx]), inUse);
    }
  }

  /** What recording an operation in contents `a` hashes besides the run itself: the counter leaf, the
      root over it, and the values. */
  ghost predicate RecordInUse(h: Hash, a: Abs, inUse: iset<Bytes>) {
    && AbsInUse(h, a, inUse)
    && NodeInUse(CounterLeaf(a.free), inUse)
    && NodeInUse(Branch(NodeHash(h, CounterLeaf(a.free)), SubRootOf(h, a)), inUse)
    && ValuesInUse(a.leaves, inUse)
  }

  ghost predicate ValuesInUse(leaves: Leaves, inUse: iset<Bytes>) {
    forall k | k in leaves && k != HEAD_KEY && k != TAIL_KEY :: leaves[k].leafValue in inUse
  }

  lemma StoredOfRecord(h: Hash, m: Mode, a: Abs, op: Op, inUse: iset<Bytes>)
    requires Agrees(h, a) && KeyOk(h, op) && PlanOf(h, m, a, op).Some?
    requires RecordInUse(h, a, inUse) && StepsInUse(h, PlanOf(h, m, a, op).value.steps, inUse)
    ensures var t := RecordOp(h, m, a, op);
            && StoredNodes(h, t).Some? && NodesOf(h, t).Some? && AllInUse(StoredNodes(h, t).value, inUse)
            && forall n | n in NodesOf(h, t).value :: n in StoredNodes(h, t).value
  {
    hide RecordOp, NodesOf, Agrees, PlanOf, StoredNodes, PlanReady, Canon, Enc, NodeInUse, AbsInUse;
    RecordedTop(h, m, a, op);
    TraceReady(h, m, map[], a, op, inUse);
    StoredHas(h, RecordOp(h, m, a, op), a.free, SubRootOf(h, a), inUse);
  }

  lemma StoredHas(h: Hash, t: Trace, free: U64, sub: Word, inUse: iset<Bytes>)
    requires OldTopNode(t) == Some(TopNode(free, sub)) && NodesOf(h, t).Some?
    requires AllInUse(NodesOf(h, t).value, inUse) && NodeInUse(CounterLeaf(free), inUse)
    requires NodeInUse(Branch(NodeHash(h, CounterLeaf(free)), sub), inUse)
    ensures StoredNodes(h, t).Some? && AllInUse(StoredNodes(h, t).value, inUse)
    ensures forall n | n in NodesOf(h, t).value :: n in StoredNodes(h, t).value
  {
    hide NodesOf, OldTopNode, CounterLeaf, NodeInUse, NodeHash;
  }

  // ----- the recorded run -----

  /** What recording a whole run hashes. */
  ghost predicate RunRecordInUse(h: Hash, m: Mode, a: Abs, ops: seq<Op>, inUse: iset<Bytes>) {
    && CollisionFree(h, inUse) && EmptyInUse(h, inUse) && RunInUse(h, m, a, ops, inUse)
    && forall i, b | 0 <= i < |ops| && AbsRun(h, m, a, ops[..i]) == Some(b) :: RecordInUse(h, b, inUse)
  }

  /** Every leaf the run removes names its two neighbours when it goes. */
  ghost predicate Served(h: Hash, m: Mode, a: Abs, ops: seq<Op>) {
    forall i, b | 0 <= i < |ops| && AbsRun(h, m, a, ops[..i]) == Some(b) :: LinksServe(h, b, ops[i])
  }

  lemma {:induction false} PrefixRuns(h: Hash, m: Mode, a: Abs, ops: seq<Op>, i: nat, inUse: iset<Bytes>)
    requires AbsRun(h, m, a, ops).Some? && i <= |ops|
    ensures AbsRun(h, m, a, ops[..i]).Some?
    ensures RunInUse(h, m, a, ops, inUse) ==> RunInUse(h, m, a, ops[..i], inUse)
    decreases |ops|
  {
    hide PlanOf, RunInUse;
    if i == |ops| {
      assert ops[..i] == ops;
    } else {
      var front := ops[..|ops| - 1];
      StatesStep(h, m, a, ops, inUse);
      PrefixRuns(h, m, a, front, i, inUse);
      assert front[..i] == ops[..i];
    }
  }

  /** The contents before the `i`-th operation agree with their index and accept it. */
  lemma StateBefore(h: Hash, m: Mode, a: Abs, ops: seq<Op>, i: nat, inUse: iset<Bytes>) returns (b: Abs)
    requires Agrees(h, a) && KeysOk(h, ops) && AbsRun(h, m, a, ops).Some? && i < |ops|
    ensures AbsRun(h, m, a, ops[..i]) == Some(b) && Agrees(h, b)
    ensures m.Repaired? && Linked(a.slots) ==> Valid(h, b)
    ensures KeyOk(h, ops[i]) && PlanOf(h, m, b, ops[i]).Some?
    ensures var p := PlanOf(h, m, b, ops[i]).value;
            && AbsRun(h, m, a, ops[..i + 1]) == Some(LastOf(b, p.steps))
            && States(h, m, a, ops[..i + 1]) == States(h, m, a, ops[..i]) + p.steps
            && (RunInUse(h, m, a, ops, inUse) ==> StepsInUse(h, p.steps, inUse))
  {
    hide PlanOf, Linked, Agrees, RunInUse, States;
    PrefixRuns(h, m, a, ops, i, inUse);
    PrefixRuns(h, m, a, ops, i + 1, inUse);
    assert ops[..i + 1][..i] == ops[..i] && ops[..i + 1][i] == ops[i];
    StatesStep(h, m, a, ops[..i + 1], inUse);
    RunKeeps(h, m, a, ops[..i]);
    b := AbsRun(h, m, a, ops[..i]).value;
  }

  /** The `i`-th trace is the record of the `i`-th operation. */
  lemma {:induction false} RecordAt(h: Hash, m: Mode, a: Abs, ops: seq<Op>, i: nat) returns (b: Abs)
    requires Agrees(h, a) && KeysOk(h, ops) && AbsRun(h, m, a, ops).Some? && i < |ops|
    ensures |Record(h, m, a, ops)| == |ops|
    ensures AbsRun(h, m, a, ops[..i]) == Some(b) && Agrees(h, b)
    ensures KeyOk(h, ops[i]) && PlanOf(h, m, b, ops[i]).Some?
    ensures Record(h, m, a, ops)[i] == RecordOp(h, m, b, ops[i])
    decreases |ops|
  {
    hide PlanOf, Agrees, RecordOp, Linked;
    b := StateBefore(h, m, a, ops, i, iset{});
    var front := ops[..|ops| - 1];
    KeysOkPrefix(h, ops);
    PrefixRuns(h, m, a, ops, |ops| - 1, iset{});
    RecordLength(h, m, a, front);
    if i < |front| {
      var b' := RecordAt(h, m, a, front, i);
      assert front[..i] == ops[..i];
    }
  }

  lemma {:induction false} RecordLength(h: Hash, m: Mode, a: Abs, ops: seq<Op>)
    requires Agrees(h, a) && KeysOk(h, ops) && AbsRun(h, m, a, ops).Some?
    ensures |Record(h, m, a, ops)| == |ops|
    decreases |ops|
  {
    if ops != [] {
      KeysOkPrefix(h, ops);
      PrefixRuns(h, m, a, ops, |ops| - 1, iset{});
      RecordLength(h, m, a, ops[..|ops| - 1]);
    }
  }

  // ----- the witness -----

  /** The store of all trace nodes plus the real top node of the first trace, the recorded answers,
      and the first trace's top root. */
  function WitnessState(h: Hash, traces: seq<Trace>): Option<State>
    requires traces != []
  {
    if AllNodes(h, traces).None? || FromTraces(h, traces).None? || OldTopNode(traces[0]).None? then None
    else
      var top := OldTopNode(traces[0]).value;
      var store := Insert(h, InsertAll(h, map[], AllNodes(h, traces).value), top);
      var root := NodeHash(h, top);
      Some(State(root, [root], store, Recorded(FromTraces(h, traces).value, map[])))
  }

  lemma {:induction false} AllNodesHas(h: Hash, traces: seq<Trace>, inUse: iset<Bytes>)
    requires forall i | 0 <= i < |traces| ::
               StoredNodes(h, traces[i]).Some? && AllInUse(StoredNodes(h, traces[i]).value, inUse)
    ensures AllNodes(h, traces).Some? && AllInUse(AllNodes(h, traces).value, inUse)
    ensures forall i, n | 0 <= i < |traces| && n in StoredNodes(h, traces[i]).value ::
              n in AllNodes(h, traces).value
    decreases |traces|
  {
    hide StoredNodes, NodeInUse;
    if traces != [] {
      var front := traces[..|traces| - 1];
      forall i | 0 <= i < |front|
        ensures StoredNodes(h, front[i]).Some? && AllInUse(StoredNodes(h, front[i]).value, inUse)
      {
        assert front[i] == traces[i];
      }
      AllNodesHas(h, front, inUse);
      forall i, n | 0 <= i < |traces| && n in StoredNodes(h, traces[i]).value
        ensures n in AllNodes(h, traces).value
      {
        if i < |front| {
          assert front[i] == traces[i];
        }
      }
    }
  }

  /** The witness answers a trace's question and resolves its nodes. */
  ghost predicate TraceServed(h: Hash, w: State, t: Trace) {
    && w.index.Recorded? && NodesOf(h, t).Some? && Resolved(h, w.store, NodesOf(h, t).value)
    && Holding(h, t) in w.index.table && w.index.table[Holding(h, t)] == KeyRangeOf(t)
  }

  /** The witness of a recorded run: the first contents' top node on a sound store, every recorded
      trace served, and no answers but the recorded ones. */
  ghost predicate IsWitness(h: Hash, w: State, a: Abs, traces: seq<Trace>, inUse: iset<Bytes>) {
    && w.trail == [RootOf(h, a)] && w.index.Recorded? && FromTraces(h, traces) == Some(w.index.table)
    && Sim(h, w, a, inUse) && forall i | 0 <= i < |traces| :: TraceServed(h, w, traces[i])
  }

  /** The witness of a recorded run exists. */
  lemma WitnessExists(h: Hash, m: Mode, a: Abs, ops: seq<Op>, inUse: iset<Bytes>) returns (w: State)
    requires Agrees(h, a) && KeysOk(h, ops) && AbsRun(h, m, a, ops).Some? && ops != []
    requires RunRecordInUse(h, m, a, ops, inUse)
    ensures |Record(h, m, a, ops)| == |ops| && WitnessState(h, Record(h, m, a, ops)) == Some(w)
    ensures IsWitness(h, w, a, Record(h, m, a, ops), inUse)
  {
    hide RecordOp, NodesOf, Agrees, PlanOf, StoredNodes, AllNodes, FromTraces, Consistent, CollisionFree, RootOf,
      Record, Canon, Enc, OldTopNode, KeyRangeOf, InsertAll, Lookup, Insert, AbsRun, RunInUse, RecordInUse,
      AllInUse, EmptyInUse, Sound, StepsInUse, Top;
    RecordLength(h, m, a, ops);
    var traces := Record(h, m, a, ops);
    forall i | 0 <= i < |ops|
      ensures OldTopNode(traces[i]).Some? && Hashable(traces[i].key)
      ensures StoredNodes(h, traces[i]).Some? && AllInUse(StoredNodes(h, traces[i]).value, inUse)
      ensures NodesOf(h, traces[i]).Some?
      ensures forall n | n in NodesOf(h, traces[i]).value :: n in StoredNodes(h, traces[i]).value
    {
      var b := RecordAt(h, m, a, ops, i);
      var b' := StateBefore(h, m, a, ops, i, inUse);
      RecordedTop(h, m, b, ops[i]);
      StoredOfRecord(h, m, b, ops[i], inUse);
    }
    AllNodesHas(h, traces, inUse);
    TableIff(h, traces);
    CollisionFreeIsConsistent(h, m, a, ops, inUse);
    TableAnswers(h, traces);
    FirstTop(h, m, a, ops);
    w := WitnessState(h, traces).value;
    assert ops[..0] == [];
    FirstInUse(h, m, a, ops, inUse);
    WitnessStoreResolves(h, AllNodes(h, traces).value, CanonTop(h, a.free, Enc(a.slots)), inUse);
    WitnessSim(h, w, a, inUse);
  }

  lemma FirstInUse(h: Hash, m: Mode, a: Abs, ops: seq<Op>, inUse: iset<Bytes>)
    requires RunRecordInUse(h, m, a, ops, inUse) && ops != []
    ensures RecordInUse(h, a, inUse) && NodeInUse(CanonTop(h, a.free, Enc(a.slots)), inUse)
  {
    hide Canon, Enc, TreeInUse;
    assert ops[..0] == [] && AbsRun(h, m, a, ops[..0]) == Some(a);
  }

  lemma WitnessSim(h: Hash, w: State, a: Abs, inUse: iset<Bytes>)
    requires w.root == RootOf(h, a) && Sound(h, w.store, inUse)
    requires Lookup(h, w.store, w.root) == Some(CanonTop(h, a.free, Enc(a.slots)))
    ensures Sim(h, w, a, inUse)
  {
    hide Sound, Lookup, Canon;
  }

  lemma FirstTop(h: Hash, m: Mode, a: Abs, ops: seq<Op>)
    requires Agrees(h, a) && KeysOk(h, ops) && AbsRun(h, m, a, ops).Some? && ops != []
    ensures Record(h, m, a, ops) != []
    ensures OldTopNode(Record(h, m, a, ops)[0]) == Some(CanonTop(h, a.free, Enc(a.slots)))
    ensures NodeHash(h, CanonTop(h, a.free, Enc(a.slots))) == RootOf(h, a)
  {
    hide RecordOp, Agrees, PlanOf, Record;
    var b := RecordAt(h, m, a, ops, 0);
    assert ops[..0] == [];
    RecordedTop(h, m, b, ops[0]);
  }

  lemma WitnessStoreResolves(h: Hash, nodes: seq<Node>, top: Node, inUse: iset<Bytes>)
    requires CollisionFree(h, inUse) && EmptyInUse(h, inUse) && AllInUse(nodes, inUse) && NodeInUse(top, inUse)
    ensures var s := Insert(h, InsertAll(h, map[], nodes), top);
            Sound(h, s, inUse) && Lookup(h, s, NodeHash(h, top)) == Some(top) && Resolved(h, s, nodes)
  {
    hide Lookup, Sound, CollisionFree, EmptyInUse, NodeInUse, Insert;
    EmptyIsSound(h, inUse);
    var s1 := InsertAll(h, map[], nodes);
    InsertAllResolves(h, map[], nodes, inUse);
    InsertKeeps(h, s1, top, inUse);
    ResolvedGrows(h, s1, Insert(h, s1, top), nodes);
  }

  lemma ResolvedGrows(h: Hash, s: Store, s': Store, nodes: seq<Node>)
    requires Resolved(h, s, nodes) && Extends(h, s, s')
    ensures Resolved(h, s', nodes)
  {
    hide Lookup;
  }

  // ----- faithfulness -----

  /** Where a run on the witness stands that has followed the recorded one to contents `b`. */
  ghost predicate InStep(h: Hash, w: State, out: Out, b: Abs, states: seq<Abs>, inUse: iset<Bytes>) {
    && out.Ok? && Sim(h, out.st, b, inUse) && Extends(h, w.store, out.st.store)
    && out.st.index.Recorded? && w.index.Recorded? && out.st.index.table == w.index.table
    && out.st.trail == w.trail + RootsOf(h, states)
  }

  lemma InStepNext(h: Hash, m: Mode, w: State, mid: Out, b: Abs, states: seq<Abs>, op: Op, inUse: iset<Bytes>)
    requires InStep(h, w, mid, b, states, inUse) && Agrees(h, b) && KeyOk(h, op) && PlanOf(h, m, b, op).Some?
    requires StepsInUse(h, PlanOf(h, m, b, op).value.steps, inUse)
    requires TraceServed(h, w, RecordOp(h, m, b, op)) && LinksServe(h, b, op)
    ensures var steps := PlanOf(h, m, b, op).value.steps;
            InStep(h, w, RunOp(h, m, mid.st, op), LastOf(b, steps), states + steps, inUse)
  {
    hide PlanOf, RunOp, RecordOp, NodesOf, Agrees, Resolved, PlanReady, KeyRangeOf, Nearest, NearestTo,
      Carried, Extends, Sim, Holding, IndexAfter, TraceServed, LinksServe, StepsInUse, Answers, AbsInUse;
    ServedNodes(h, w, RecordOp(h, m, b, op));
    WitnessAnswers(h, m, w, mid.st, b, op, inUse);
    ResolvedGrows(h, w.store, mid.st.store, NodesOf(h, RecordOp(h, m, b, op)).value);
    TraceReady(h, m, mid.st.store, b, op, inUse);
    StepFollows(h, m, w, mid, b, states, op, inUse);
  }

  /** One operation on a store that resolves its paths and knows the answer to its question. */
  lemma StepFollows(h: Hash, m: Mode, w: State, mid: Out, b: Abs, states: seq<Abs>, op: Op, inUse: iset<Bytes>)
    requires InStep(h, w, mid, b, states, inUse) && PlanOf(h, m, b, op).Some?
    requires StepsInUse(h, PlanOf(h, m, b, op).value.steps, inUse)
    requires PlanReady(h, mid.st.store, b, PlanOf(h, m, b, op).value)
    requires Answers(Nearest(mid.st.index, mid.st.root, h(op.key)), NearestTo(b, h(op.key)), op)
    ensures var steps := PlanOf(h, m, b, op).value.steps;
            InStep(h, w, RunOp(h, m, mid.st, op), LastOf(b, steps), states + steps, inUse)
  {
    hide PlanOf, RunOp, Nearest, NearestTo, Carried, Extends, Sim, IndexAfter, StepsInUse, Answers, PlanReady;
    var steps, out := PlanOf(h, m, b, op).value.steps, RunOp(h, m, mid.st, op);
    NearestOfPlan(h, m, b, op);
    OpReaches(h, m, mid.st, b, op, inUse);
    OpIndex(h, m, mid.st, b, op, inUse);
    TableKept(h, mid.st.index, b, op);
    ExtendsThen(h, w.store, mid.st.store, out.st.store);
    StepsSplit(h, states, steps, inUse);
  }

  lemma TableKept(h: Hash, ix: Index, b: Abs, op: Op)
    requires ix.Recorded?
    ensures IndexAfter(h, ix, b, op).Recorded? && IndexAfter(h, ix, b, op).table == ix.table
  {
  }

  lemma ServedNodes(h: Hash, w: State, t: Trace)
    requires TraceServed(h, w, t)
    ensures NodesOf(h, t).Some? && Resolved(h, w.store, NodesOf(h, t).value)
  {
  }

  /** In the contents a trace was recorded for, the witness table answers well enough. */
  lemma WitnessAnswers(h: Hash, m: Mode, w: State, st: State, b: Abs, op: Op, inUse: iset<Bytes>)
    requires Agrees(h, b) && KeyOk(h, op) && PlanOf(h, m, b, op).Some? && Sim(h, st, b, inUse)
    requires TraceServed(h, w, RecordOp(h, m, b, op)) && st.index.Recorded? && st.index.table == w.index.table
    requires LinksServe(h, b, op)
    ensures Answers(Nearest(st.index, st.root, h(op.key)), NearestTo(b, h(op.key)), op)
  {
    hide PlanOf, RecordOp, Agrees, NodesOf, KeyRangeOf, NearestTo, Holding, LinksServe, Sound, Answers;
    RecordedTop(h, m, b, op);
    RecordedAnswers(h, m, b, op);
  }

  lemma {:induction false} WitnessFollows(h: Hash, m: Mode, w: State, a: Abs, ops: seq<Op>, n: nat,
                                          inUse: iset<Bytes>)
    requires Agrees(h, a) && KeysOk(h, ops) && AbsRun(h, m, a, ops).Some? && n <= |ops|
    requires |Record(h, m, a, ops)| == |ops| && IsWitness(h, w, a, Record(h, m, a, ops), inUse)
    requires RunInUse(h, m, a, ops, inUse) && Served(h, m, a, ops)
    ensures AbsRun(h, m, a, ops[..n]).Some?
    ensures InStep(h, w, Run(h, m, w, ops[..n]), AbsRun(h, m, a, ops[..n]).value, States(h, m, a, ops[..n]), inUse)
  {
    hide PlanOf, RunOp, RecordOp, TraceServed, Linked, Agrees, Sim, LinksServe, RunInUse, StepsInUse, States;
    if n == 0 {
      assert ops[..0] == [];
      WitnessStarts(h, m, w, a, inUse);
    } else {
      WitnessFollows(h, m, w, a, ops, n - 1, inUse);
      assert ops[..n][..n - 1] == ops[..n - 1] && ops[..n][n - 1] == ops[n - 1];
      var b := RecordAt(h, m, a, ops, n - 1);
      var b' := StateBefore(h, m, a, ops, n - 1, inUse);
      InStepNext(h, m, w, Run(h, m, w, ops[..n - 1]), b, States(h, m, a, ops[..n - 1]), ops[n - 1], inUse);
    }
  }

  lemma WitnessStarts(h: Hash, m: Mode, w: State, a: Abs, inUse: iset<Bytes>)
    requires Sim(h, w, a, inUse) && w.index.Recorded?
    ensures InStep(h, w, Ok(w), a, States(h, m, a, []), inUse)
  {
    hide Sim;
    assert w.trail + RootsOf(h, []) == w.trail;
  }

  /** What the full trie shows after the first `n` operations, on some other state: the canonical
      top root now and after every sub-step so far, and the value the next operation's key has. */
  ghost predicate ShowsRun(h: Hash, m: Mode, st: State, a: Abs, ops: seq<Op>, n: nat)
    requires n <= |ops|
  {
    && AbsRun(h, m, a, ops[..n]).Some?
    && var b := AbsRun(h, m, a, ops[..n]).value;
       && st.root == RootOf(h, b)
       && st.trail == [RootOf(h, a)] + Trail(h, m, a, ops[..n])
       && (n < |ops| ==> Read(h, st, ops[n].key) == Success(ValueAt(b, h(ops[n].key))))
  }

  /** Witness execution is faithful. Take any run that succeeds on a full trie, in either mode, in which
      every removed leaf names its neighbours; record its traces and rebuild the partial store from
      them. The same run on the witness succeeds, and after every prefix it shows what the full trie
      shows. */
  lemma WitnessIsFaithful(h: Hash, m: Mode, a: Abs, ops: seq<Op>, n: nat, inUse: iset<Bytes>) returns (w: State)
    requires Agrees(h, a) && KeysOk(h, ops) && ops != [] && n <= |ops| && AbsRun(h, m, a, ops).Some?
    requires RunRecordInUse(h, m, a, ops, inUse) && Served(h, m, a, ops)
    ensures Record(h, m, a, ops) != [] && WitnessState(h, Record(h, m, a, ops)) == Some(w)
    ensures w.root == RootOf(h, a)
    ensures var out := Run(h, m, w, ops[..n]); out.Ok? && ShowsRun(h, m, out.st, a, ops, n)
  {
    hide PlanOf, RunOp, RecordOp, Agrees, WitnessState, Run, States, AbsRun, Extends, LinksServe,
      Record, TraceServed, Served, RunInUse, ShowsRun, Top, Sound, RootOf;
    w := WitnessExists(h, m, a, ops, inUse);
    WitnessFollows(h, m, w, a, ops, n, inUse);
    WitnessShows(h, m, w, Run(h, m, w, ops[..n]), a, ops, n, inUse);
  }

  lemma WitnessShows(h: Hash, m: Mode, w: State, out: Out, a: Abs, ops: seq<Op>, n: nat, inUse: iset<Bytes>)
    requires Agrees(h, a) && KeysOk(h, ops) && AbsRun(h, m, a, ops).Some? && n <= |ops|
    requires AbsRun(h, m, a, ops[..n]).Some? && Served(h, m, a, ops)
    requires InStep(h, w, out, AbsRun(h, m, a, ops[..n]).value, States(h, m, a, ops[..n]), inUse)
    requires |Record(h, m, a, ops)| == |ops| && IsWitness(h, w, a, Record(h, m, a, ops), inUse)
    ensures ShowsRun(h, m, out.st, a, ops, n)
  {
    hide PlanOf, RecordOp, Agrees, States, Record, TraceServed, Extends, Top, Sound, RootOf, Read, LinksServe;
    if n < |ops| {
      var b := RecordAt(h, m, a, ops, n);
      assert TraceServed(h, w, Record(h, m, a, ops)[n]) && LinksServe(h, b, ops[n]);
      WitnessReads(h, m, w, out.st, b, ops[n], inUse);
    }
  }

  lemma WitnessReads(h: Hash, m: Mode, w: State, st: State, b: Abs, op: Op, inUse: iset<Bytes>)
    requires Agrees(h, b) && KeyOk(h, op) && PlanOf(h, m, b, op).Some? && Sim(h, st, b, inUse)
    requires TraceServed(h, w, RecordOp(h, m, b, op)) && st.index.Recorded? && st.index.table == w.index.table
    requires LinksServe(h, b, op)
    ensures Read(h, st, op.key) == Success(ValueAt(b, h(op.key)))
  {
    hide PlanOf, RecordOp, Agrees, Nearest, NearestTo, Sim, TraceServed, LinksServe;
    WitnessAnswers(h, m, w, st, b, op, inUse);
    RecordedTop(h, m, b, op);
    RangeInSlots(h, m, b, op);
  }

  /** A linked list serves every removal, so with the repaired parser every run is served. */
  lemma RepairedIsServed(h: Hash, a: Abs, ops: seq<Op>)
    requires Valid(h, a) && KeysOk(h, ops) && AbsRun(h, Repaired, a, ops).Some?
    ensures Served(h, Repaired, a, ops)
  {
    hide PlanOf, Agrees, Linked, LinksServe, AbsRun;
    forall i, b | 0 <= i < |ops| && AbsRun(h, Repaired, a, ops[..i]) == Some(b)
      ensures LinksServe(h, b, ops[i])
    {
      var b' := RecordAt(h, Repaired, a, ops, i);
      var c := StateBefore(h, Repaired, a, ops, i, iset{});
      RecordedTop(h, Repaired, b, ops[i]);
      ValidServes(h, b, ops[i]);
    }
  }

  /** Put side by side with the full trie: both runs assign the same roots, sub-step by sub-step. */
  lemma WitnessMatchesFullTrie(h: Hash, full: State, a: Abs, ops: seq<Op>, inUse: iset<Bytes>) returns (w: State)
    requires Holds(h, full, a, inUse) && full.trail == [RootOf(h, a)] && RunRecordInUse(h, Repaired, a, ops, inUse)
    requires Valid(h, a) && KeysOk(h, ops) && ops != [] && AbsRun(h, Repaired, a, ops).Some?
    ensures Record(h, Repaired, a, ops) != [] && WitnessState(h, Record(h, Repaired, a, ops)) == Some(w)
    ensures var onFull, onWitness := Run(h, Repaired, full, ops), Run(h, Repaired, w, ops);
            && onFull.Ok? && onWitness.Ok? && onWitness.st.trail == onFull.st.trail
            && onWitness.st.root == onFull.st.root
  {
    hide PlanOf, RunOp, RecordOp, Agrees, Linked, WitnessState, Run, States, AbsRun, AllPaths, Served, Kept,
      RunInUse, Top, Sound, RootOf, LinksServe;
    RepairedIsServed(h, a, ops);
    w := WitnessIsFaithful(h, Repaired, a, ops, |ops|, inUse);
    assert ops[..|ops|] == ops;
    RunHolds(h, Repaired, full, a, ops, inUse);
  }

  // ----- consistent answers follow from collision-freedom -----

  lemma EncInjective(s: LeafSlots, s': LeafSlots)
    requires Enc(s) == Enc(s')
    ensures s == s'
  {
    assert s.Keys == Enc(s).Keys && s'.Keys == Enc(s').Keys;
    forall i | i in s
      ensures s[i] == s'[i]
    {
      assert Enc(s)[i] == ToBytes(s[i]) && Enc(s')[i] == ToBytes(s'[i]);
      ToBytesInjective(s[i], s'[i]);
    }
  }

  /** Equal roots of reachable contents mean equal leaves; equal values too where those are in use. */
  lemma RootDeterminesContents(h: Hash, a: Abs, b: Abs, inUse: iset<Bytes>)
    requires Agrees(h, a) && Agrees(h, b) && RootOf(h, a) == RootOf(h, b) && CollisionFree(h, inUse)
    requires AbsInUse(h, a, inUse) && AbsInUse(h, b, inUse)
    ensures a.free == b.free && a.slots == b.slots && a.leaves.Keys == b.leaves.Keys
    ensures forall k | k in a.leaves :: a.leaves[k].leafIndex == b.leaves[k].leafIndex
    ensures ValuesInUse(a.leaves, inUse) && ValuesInUse(b.leaves, inUse) ==>
              forall k | k in a.leaves && k != HEAD_KEY && k != TAIL_KEY :: a.leaves[k] == b.leaves[k]
  {
    hide TreeInUse, Canon;
    TopRootDetermines(h, a.free, Enc(a.slots), b.free, Enc(b.slots), inUse);
    EncInjective(a.slots, b.slots);
    SameSlotsSameLeaves(h, a, b, inUse);
  }

  lemma SameSlotsSameLeaves(h: Hash, a: Abs, b: Abs, inUse: iset<Bytes>)
    requires Agrees(h, a) && Agrees(h, b) && a.slots == b.slots && CollisionFree(h, inUse)
    ensures a.leaves.Keys == b.leaves.Keys
    ensures forall k | k in a.leaves :: a.leaves[k].leafIndex == b.leaves[k].leafIndex
    ensures ValuesInUse(a.leaves, inUse) && ValuesInUse(b.leaves, inUse) ==>
              forall k | k in a.leaves && k != HEAD_KEY && k != TAIL_KEY :: a.leaves[k] == b.leaves[k]
  {
    forall k | k in a.leaves
      ensures k in b.leaves && a.leaves[k].leafIndex == b.leaves[k].leafIndex
    {
      assert a.slots[a.leaves[k].leafIndex].hkey == k;
    }
    forall k | k in b.leaves
      ensures k in a.leaves
    {
      assert b.slots[b.leaves[k].leafIndex].hkey == k;
    }
  }

  lemma SameNearest(h: Hash, a: Abs, b: Abs, hkey: Word)
    requires Agrees(h, a) && Agrees(h, b) && HEAD_KEY < hkey < TAIL_KEY
    requires a.leaves.Keys == b.leaves.Keys
    requires forall k | k in a.leaves :: a.leaves[k].leafIndex == b.leaves[k].leafIndex
    requires hkey in a.leaves ==> a.leaves[hkey] == b.leaves[hkey]
    ensures NearestTo(a, hkey) == NearestTo(b, hkey)
  {
    hide Agrees, NearestTo;
    var n, below, above := NearestExists(h, a, hkey);
    var n', below', above' := NearestExists(h, b, hkey);
    SameBelow(a.leaves, b.leaves, hkey, below, below');
    SameAbove(a.leaves, b.leaves, hkey, above, above');
  }

  lemma SameBelow(a: Leaves, b: Leaves, hkey: Word, x: Word, y: Word)
    requires a.Keys == b.Keys && IsBelow(a, hkey, x) && IsBelow(b, hkey, y)
    ensures x == y
  {
    assert x in b && y in a;
  }

  lemma SameAbove(a: Leaves, b: Leaves, hkey: Word, x: Word, y: Word)
    requires a.Keys == b.Keys && IsAbove(a, hkey, x) && IsAbove(b, hkey, y)
    ensures x == y
  {
    assert x in b && y in a;
  }

  /** If nothing hashed along the run collides, the recorded answers cannot contradict each other. */
  lemma CollisionFreeIsConsistent(h: Hash, m: Mode, a: Abs, ops: seq<Op>, inUse: iset<Bytes>)
    requires Agrees(h, a) && KeysOk(h, ops) && AbsRun(h, m, a, ops).Some?
    requires RunRecordInUse(h, m, a, ops, inUse)
    ensures Consistent(h, Record(h, m, a, ops))
  {
    hide RecordOp, Agrees, PlanOf, Record, AbsRun, RecordInUse, CollisionFree, Holding, KeyRangeOf, RunInUse,
      EmptyInUse;
    RecordLength(h, m, a, ops);
    var traces := Record(h, m, a, ops);
    forall i, j | 0 <= i < |traces| && 0 <= j < |traces| && Holding(h, traces[i]) == Holding(h, traces[j])
      ensures KeyRangeOf(traces[i]) == KeyRangeOf(traces[j])
    {
      var b := RecordAt(h, m, a, ops, i);
      var c := RecordAt(h, m, a, ops, j);
      assert RecordInUse(h, b, inUse) && RecordInUse(h, c, inUse);
      SameAnswer(h, m, b, ops[i], c, ops[j], inUse);
    }
  }

  lemma SameAnswer(h: Hash, m: Mode, b: Abs, x: Op, c: Abs, y: Op, inUse: iset<Bytes>)
    requires Agrees(h, b) && KeyOk(h, x) && PlanOf(h, m, b, x).Some?
    requires Agrees(h, c) && KeyOk(h, y) && PlanOf(h, m, c, y).Some?
    requires CollisionFree(h, inUse) && RecordInUse(h, b, inUse) && RecordInUse(h, c, inUse)
    requires Holding(h, RecordOp(h, m, b, x)) == Holding(h, RecordOp(h, m, c, y))
    ensures KeyRangeOf(RecordOp(h, m, b, x)) == KeyRangeOf(RecordOp(h, m, c, y))
  {
    hide RecordOp, Agrees, PlanOf, CollisionFree, Holding, KeyRangeOf, NearestTo, NodeInUse, AbsInUse,
      ValuesInUse, RootOf;
    RecordedTop(h, m, b, x);
    RecordedTop(h, m, c, y);
    KeyInRange(h, x);
    RootDeterminesContents(h, b, c, inUse);
    SameNearest(h, b, c, h(x.key));
    RecordedRange(h, m, b, x);
    RecordedRange(h, m, c, y);
  }
}
