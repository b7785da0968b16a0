/** Whole runs: the trie over a complete store follows the abstract machine, means a plain map,
    keeps its list walkable and never reuses an index. */
module TrieRuns {
  import opened Words
  import opened LeafPaths
  import opened Nodes
  import opened MerkleTree
  import opened SparseMerkle
  import opened ZkTrieSpec
  import opened TrieMachine
  import opened LinkedLeaves

  // ----- runs -----

  /** The contents after a run of operations; None as soon as one fails. */
  function AbsRun(h: Hash, m: Mode, a: Abs, ops: seq<Op>): Option<Abs>
    decreases |ops|
  {
    if ops == [] then Some(a)
    else match AbsRun(h, m, a, ops[..|ops| - 1])
      case None => None
      case Some(b) =>
        var p := PlanOf(h, m, b, ops[|ops| - 1]);
        if p.None? then None else Some(LastOf(b, p.value.steps))
  }

  function Run(h: Hash, m: Mode, st: State, ops: seq<Op>): Out
    decreases |ops|
  {
    if ops == [] then Ok(st)
    else
      var st' :- Run(h, m, st, ops[..|ops| - 1]);
      RunOp(h, m, st', ops[|ops| - 1])
  }

  predicate KeysOk(h: Hash, ops: seq<Op>) {
    forall i | 0 <= i < |ops| :: KeyOk(h, ops[i])
  }

  lemma KeysOkPrefix(h: Hash, ops: seq<Op>)
    requires ops != [] && KeysOk(h, ops)
    ensures KeysOk(h, ops[..|ops| - 1]) && KeyOk(h, ops[|ops| - 1])
  {
  }

  /** Every reachable state agrees with its index, and is a linked list under the repaired parser. */
  lemma {:induction false} RunKeeps(h: Hash, m: Mode, a: Abs, ops: seq<Op>)
    requires Agrees(h, a) && KeysOk(h, ops) && AbsRun(h, m, a, ops).Some?
    ensures Agrees(h, AbsRun(h, m, a, ops).value)
    ensures m.Repaired? && Linked(a.slots) ==> Valid(h, AbsRun(h, m, a, ops).value)
    decreases |ops|
  {
    if ops != [] {
      KeysOkPrefix(h, ops);
      RunKeeps(h, m, a, ops[..|ops| - 1]);
      var b := AbsRun(h, m, a, ops[..|ops| - 1]).value;
      OpKeepsAgrees(h, m, b, ops[|ops| - 1]);
      if m.Repaired? && Linked(a.slots) {
        OpKeepsValid(h, b, ops[|ops| - 1]);
      }
    }
  }

  /** Safety over whole runs: whatever is done to an empty trie, the leaves stay a list. */
  lemma ReachableIsValid(h: Hash, ops: seq<Op>)
    requires KeysOk(h, ops) && AbsRun(h, Repaired, EMPTY, ops).Some?
    ensures Valid(h, AbsRun(h, Repaired, EMPTY, ops).value)
  {
    EmptyIsValid(h);
    RunKeeps(h, Repaired, EMPTY, ops);
  }

  // ----- walking the list -----

  /** The leaves met by following `next_leaf` from `i`, at most `n` of them. */
  function Walk(slots: LeafSlots, i: nat, n: nat): seq<nat>
    decreases n
  {
    if n == 0 || i !in slots then []
    else if i == TAIL_INDEX then [i]
    else [i] + Walk(slots, slots[i].next, n - 1)
  }

  function Beyond(slots: LeafSlots, i: nat): set<nat>
    requires i in slots
  {
    set k | k in slots && slots[k].hkey > slots[i].hkey
  }

  lemma BeyondNext(slots: LeafSlots, i: nat, j: nat)
    requires Distinct(slots) && IsNext(slots, i, j)
    ensures Beyond(slots, i) == Beyond(slots, j) + {j} && j !in Beyond(slots, j)
  {
  }

  /** What a walk from `i` must be: every leaf from `i` on, in strictly increasing key order, ending
      at the tail, with `prev_leaf` leading back along it. */
  ghost predicate IsWalk(slots: LeafSlots, i: nat, w: seq<nat>) {
    && |w| > 0 && w[0] == i && w[|w| - 1] == TAIL_INDEX
    && (forall p | 0 <= p < |w| :: w[p] in slots)
    && SortedByKey(slots, w)
    && (forall p | 0 <= p < |w| - 1 :: slots[w[p]].next == w[p + 1] && slots[w[p + 1]].prev == w[p])
    && (forall k | k in slots :: slots[k].hkey >= slots[w[0]].hkey <==> k in w)
  }

  ghost predicate SortedByKey(slots: LeafSlots, w: seq<nat>)
    requires forall p | 0 <= p < |w| :: w[p] in slots
  {
    forall p, q | 0 <= p < q < |w| :: slots[w[p]].hkey < slots[w[q]].hkey
  }

  /** Both sentinels are there, at the two ends of the key range. */
  ghost predicate Bounded(slots: LeafSlots) {
    && HEAD_INDEX in slots && TAIL_INDEX in slots
    && forall k | k in slots :: slots[HEAD_INDEX].hkey <= slots[k].hkey <= slots[TAIL_INDEX].hkey
  }

  lemma WalkAtTail(slots: LeafSlots)
    requires Bounded(slots) && Distinct(slots)
    ensures IsWalk(slots, TAIL_INDEX, [TAIL_INDEX])
  {
  }

  lemma {:induction false} WalkVisits(slots: LeafSlots, i: nat, n: nat)
    requires Linked(slots) && Distinct(slots) && Bounded(slots) && i in slots
    requires n > |Beyond(slots, i)|
    ensures IsWalk(slots, i, Walk(slots, i, n))
    decreases n
  {
    hide IsWalk, IsNext, Distinct;
    if i == TAIL_INDEX {
      WalkAtTail(slots);
    } else {
      assert NextOk(slots, i);
      var j := slots[i].next;
      BeyondNext(slots, i, j);
      WalkVisits(slots, j, n - 1);
      WalkCons(slots, i, Walk(slots, j, n - 1));
    }
  }

  lemma NextMeetsPrev(slots: LeafSlots, i: nat)
    requires Linked(slots) && Distinct(slots) && Bounded(slots) && NextOk(slots, i)
    ensures slots[i].next in slots && slots[slots[i].next].prev == i
  {
    assert slots[i].next != HEAD_INDEX;
    assert PrevOk(slots, slots[i].next);
  }

  lemma WalkCons(slots: LeafSlots, i: nat, w: seq<nat>)
    requires Linked(slots) && Distinct(slots) && Bounded(slots) && i != TAIL_INDEX
    requires NextOk(slots, i) && IsWalk(slots, slots[i].next, w)
    ensures IsWalk(slots, i, [i] + w)
  {
    hide Linked, Distinct, Bounded;
    NextMeetsPrev(slots, i);
    var j, w' := slots[i].next, [i] + w;
    assert forall q | 0 <= q < |w| :: slots[w[q]].hkey >= slots[j].hkey by {
      assert forall q | 0 <= q < |w| :: w[q] in w;
    }
    forall k | k in slots
      ensures slots[k].hkey >= slots[i].hkey <==> k in w'
    {
      assert k in w' <==> k == i || k in w;
      if slots[k].hkey == slots[i].hkey {
        SameKeySameLeaf(slots, k, i);
      }
    }
  }

  lemma SameKeySameLeaf(slots: LeafSlots, i: nat, j: nat)
    requires Distinct(slots) && i in slots && j in slots && slots[i].hkey == slots[j].hkey
    ensures i == j
  {
  }

  /** Following `next_leaf` from the head visits exactly the live leaves, in strictly increasing key
      order, and ends at the tail. */
  lemma WalkFromHead(h: Hash, a: Abs)
    requires Valid(h, a)
    ensures var w := Walk(a.slots, HEAD_INDEX, |a.slots|);
            IsWalk(a.slots, HEAD_INDEX, w) && forall k :: k in w <==> k in a.slots
  {
    assert Bounded(a.slots) && Distinct(a.slots);
    assert HEAD_INDEX !in Beyond(a.slots, HEAD_INDEX);
    SubsetSize(Beyond(a.slots, HEAD_INDEX) + {HEAD_INDEX}, a.slots.Keys);
    WalkVisits(a.slots, HEAD_INDEX, |a.slots|);
    var w := Walk(a.slots, HEAD_INDEX, |a.slots|);
    assert forall k | k in w :: k in a.slots;
  }

  lemma {:induction false} SubsetSize(a: set<nat>, b: set<nat>)
    requires a <= b
    ensures |a| <= |b|
  {
    if a != {} {
      var x :| x in a;
      SubsetSize(a - {x}, b - {x});
    }
  }

  // ----- indices are never reused -----

  /** What an operation never does: move the counter back, revive a dead index below it, or give a
      live index another key. */
  ghost predicate NoReuse(a: Abs, b: Abs) {
    && a.free <= b.free
    && forall k | k in b.slots && k < a.free :: k in a.slots && b.slots[k].hkey == a.slots[k].hkey
  }

  lemma FreshNoReuse(h: Hash, m: Mode, a: Abs, near: KeyRange, hkey: Word, value: Bytes)
    requires near.left in a.slots && near.right in a.slots && a.free < INDEX_LIMIT
    requires a.free !in a.slots
    ensures NoReuse(a, LastOf(a, FreshSteps(h, m, a, near, hkey, value)))
  {
  }

  lemma ExistingNoReuse(h: Hash, m: Mode, a: Abs, idx: U64, hkey: Word, value: Bytes)
    requires idx in a.slots
    ensures NoReuse(a, LastOf(a, ExistingSteps(h, m, a, idx, hkey, value)))
  {
  }

  lemma RemoveNoReuse(m: Mode, a: Abs, near: KeyRange, idx: U64, hkey: Word)
    requires near.left in a.slots && near.right in a.slots && near.right != idx
    ensures NoReuse(a, LastOf(a, RemoveSteps(m, a, near, idx, hkey)))
  {
  }

  lemma OpNoReuse(h: Hash, m: Mode, a: Abs, op: Op)
    requires Agrees(h, a) && PlanOf(h, m, a, op).Some?
    ensures NoReuse(a, LastOf(a, PlanOf(h, m, a, op).value.steps))
  {
    hide NearestTo, FreshSteps, ExistingSteps, RemoveSteps, Agrees;
    var near := NearestTo(a, h(op.key)).value;
    if op.PutOp? && near.center.None? {
      FreeIsVacant(h, a);
      FreshNoReuse(h, m, a, near, h(op.key), op.value);
    } else if op.PutOp? {
      ExistingNoReuse(h, m, a, near.center.value.leafIndex, h(op.key), op.value);
    } else if op.RemoveOp? && near.center.Some? {
      RemoveNoReuse(m, a, near, near.center.value.leafIndex, h(op.key));
    }
  }

  lemma {:induction false} IndicesNeverReused(h: Hash, m: Mode, a: Abs, ops: seq<Op>)
    requires Agrees(h, a) && KeysOk(h, ops) && AbsRun(h, m, a, ops).Some?
    ensures NoReuse(a, AbsRun(h, m, a, ops).value)
    decreases |ops|
  {
    if ops != [] {
      KeysOkPrefix(h, ops);
      IndicesNeverReused(h, m, a, ops[..|ops| - 1]);
      RunKeeps(h, m, a, ops[..|ops| - 1]);
      OpNoReuse(h, m, AbsRun(h, m, a, ops[..|ops| - 1]).value, ops[|ops| - 1]);
    }
  }

  // ----- the plain map -----

  /** The value last put under a hashed key, unless it was removed since; `before` if the run never
      wrote it. */
  function WrittenOver(h: Hash, ops: seq<Op>, hkey: Word, before: Option<Bytes>): Option<Bytes>
    decreases |ops|
  {
    if ops == [] then before
    else
      var last := ops[|ops| - 1];
      if last.ReadOp? || h(last.key) != hkey then WrittenOver(h, ops[..|ops| - 1], hkey, before)
      else if last.PutOp? then Some(last.value)
      else None
  }

  function LastWrite(h: Hash, ops: seq<Op>, hkey: Word): Option<Bytes> {
    WrittenOver(h, ops, hkey, None)
  }

  function ValueAt(a: Abs, hkey: Word): Option<Bytes> {
    if hkey in a.leaves then Some(a.leaves[hkey].leafValue) else None
  }

  lemma OpIsMapUpdate(h: Hash, m: Mode, a: Abs, op: Op, hkey: Word)
    requires Agrees(h, a) && KeyOk(h, op) && PlanOf(h, m, a, op).Some?
    ensures ValueAt(LastOf(a, PlanOf(h, m, a, op).value.steps), hkey)
         == if op.ReadOp? || h(op.key) != hkey then ValueAt(a, hkey)
            else if op.PutOp? then Some(op.value) else None
  {
    hide NearestTo;
    var near, below, above := NearestExists(h, a, h(op.key));
  }

  /** The trie is a map: after any run every key holds its last write, or what it held before. */
  lemma {:induction false} RunIsMap(h: Hash, m: Mode, a: Abs, ops: seq<Op>, hkey: Word)
    requires Agrees(h, a) && KeysOk(h, ops) && AbsRun(h, m, a, ops).Some?
    ensures ValueAt(AbsRun(h, m, a, ops).value, hkey) == WrittenOver(h, ops, hkey, ValueAt(a, hkey))
    decreases |ops|
  {
    if ops != [] {
      KeysOkPrefix(h, ops);
      RunIsMap(h, m, a, ops[..|ops| - 1], hkey);
      RunKeeps(h, m, a, ops[..|ops| - 1]);
      OpIsMapUpdate(h, m, AbsRun(h, m, a, ops[..|ops| - 1]).value, ops[|ops| - 1], hkey);
    }
  }

  // ----- put, then remove -----

  /** Putting a fresh key and removing it again restores every leaf slot and the index; only the
      free counter has moved. The canonical sub-root is therefore the same. */
  lemma PutRemoveRestores(h: Hash, a: Abs, key: Bytes, value: Bytes)
    requires Valid(h, a) && KeyOk(h, PutOp(key, value)) && Accepts(h, a, PutOp(key, value))
    requires h(key) !in a.leaves
    ensures AbsRun(h, Repaired, a, [PutOp(key, value), RemoveOp(key)])
         == Some(a.(free := a.free + 1))
  {
    hide Linked, NearestTo, Agrees, PlanOf, FreshSteps, RemoveSteps;
    var put, rem, hkey := PutOp(key, value), RemoveOp(key), h(key);
    var near, b := FreshPlan(h, a, key, value);
    NeighboursLinked(h, a, hkey, near);
    FreeIsVacant(h, a);
    OpKeepsValid(h, a, put);
    LinksAreNearest(h, b, hkey);
    RestoredSlots(h, a, near, hkey, value);
    RemovePlan(h, b, key, KeyRange(near.left, Some(b.leaves[hkey]), near.right));
    RunOfTwo(h, Repaired, a, put, rem);
  }

  lemma FreshPlan(h: Hash, a: Abs, key: Bytes, value: Bytes) returns (near: KeyRange, b: Abs)
    requires Agrees(h, a) && KeyOk(h, PutOp(key, value)) && Accepts(h, a, PutOp(key, value))
    requires h(key) !in a.leaves
    ensures NearestTo(a, h(key)) == Some(near) && near.center == None && near.left != near.right
    ensures near.left in a.slots && near.right in a.slots && a.free < INDEX_LIMIT
    ensures b == LastOf(a, FreshSteps(h, Repaired, a, near, h(key), value))
    ensures PlanOf(h, Repaired, a, PutOp(key, value))
         == Some(Plan(FreshSteps(h, Repaired, a, near, h(key), value), [near.left, a.free, near.right]))
    ensures b == LastOf(a, PlanOf(h, Repaired, a, PutOp(key, value)).value.steps)
    ensures h(key) in b.leaves && b.leaves[h(key)] == FlattenedLeaf(a.free, value)
    ensures a.free in b.slots && near.left in b.slots && near.right in b.slots
    ensures b.slots[a.free].prev == near.left && b.slots[a.free].next == near.right
  {
    hide NearestTo;
    var below, above;
    near, below, above := NearestExists(h, a, h(key));
    FreeIsVacant(h, a);
    b := LastOf(a, FreshSteps(h, Repaired, a, near, h(key), value));
  }

  lemma RemovePlan(h: Hash, b: Abs, key: Bytes, near: KeyRange)
    requires Hashable(key) && NearestTo(b, h(key)) == Some(near) && near.center.Some?
    requires near.left in b.slots && near.right in b.slots && near.center.value.leafIndex in b.slots
    requires near.right != near.center.value.leafIndex
    ensures PlanOf(h, Repaired, b, RemoveOp(key))
         == Some(Plan(RemoveSteps(Repaired, b, near, near.center.value.leafIndex, h(key)),
                      [near.left, near.center.value.leafIndex, near.right]))
  {
    hide NearestTo;
  }

  /** Relinking the neighbours to each other undoes what linking them to the new leaf did. */
  lemma RestoredSlots(h: Hash, a: Abs, near: KeyRange, hkey: Word, value: Bytes)
    requires near.left in a.slots && near.right in a.slots && near.left != near.right
    requires a.free < INDEX_LIMIT && a.free !in a.slots && hkey !in a.leaves
    requires a.slots[near.left].next == near.right && a.slots[near.right].prev == near.left
    ensures var b := LastOf(a, FreshSteps(h, Repaired, a, near, hkey, value));
            var near' := KeyRange(near.left, Some(FlattenedLeaf(a.free, value)), near.right);
            near.left in b.slots && near.right in b.slots &&
            LastOf(b, RemoveSteps(Repaired, b, near', a.free, hkey)) == a.(free := a.free + 1)
  {
    var b := LastOf(a, FreshSteps(h, Repaired, a, near, hkey, value));
    var near' := KeyRange(near.left, Some(FlattenedLeaf(a.free, value)), near.right);
    var c := LastOf(b, RemoveSteps(Repaired, b, near', a.free, hkey));
    assert c.slots == a.slots;
    assert c.leaves == a.leaves;
  }

  lemma RunOfTwo(h: Hash, m: Mode, a: Abs, x: Op, y: Op)
    requires PlanOf(h, m, a, x).Some?
    requires PlanOf(h, m, LastOf(a, PlanOf(h, m, a, x).value.steps), y).Some?
    ensures AbsRun(h, m, a, [x, y])
         == Some(LastOf(LastOf(a, PlanOf(h, m, a, x).value.steps),
                        PlanOf(h, m, LastOf(a, PlanOf(h, m, a, x).value.steps), y).value.steps))
  {
    assert [x, y][..1] == [x] && [x][..0] == [];
    assert AbsRun(h, m, a, [x]) == Some(LastOf(a, PlanOf(h, m, a, x).value.steps));
  }
}
