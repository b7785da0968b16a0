/** What every operation keeps: the index and the leaf slots describe the same leaves, and the
    leaves form a doubly linked list in strictly increasing key order between the sentinels. */
module LinkedLeaves {
  import opened Words
  import opened LeafPaths
  import opened Nodes
  import opened ZkTrieSpec
  import opened TrieMachine

  type LeafSlots = map<nat, LeafOpening>

  /** Index entry and leaf slot agree on key, position and value hash, in both directions; the sentinels, at
      the two ends of the key range, have no value. */
  ghost predicate Agrees(h: Hash, a: Abs) {
    && (forall i | i in a.slots :: a.slots[i].hkey in a.leaves && a.leaves[a.slots[i].hkey].leafIndex == i)
    && (forall k | k in a.leaves :: a.leaves[k].leafIndex in a.slots && a.slots[a.leaves[k].leafIndex].hkey == k)
    && (forall k | k in a.leaves && k != HEAD_KEY && k != TAIL_KEY ::
          Hashable(a.leaves[k].leafValue) && a.slots[a.leaves[k].leafIndex].hval == h(a.leaves[k].leafValue))
    && HEAD_KEY in a.leaves && a.leaves[HEAD_KEY].leafIndex == HEAD_INDEX
    && TAIL_KEY in a.leaves && a.leaves[TAIL_KEY].leafIndex == TAIL_INDEX
    && BlankSentinels(a)
    && (forall k | k in a.leaves :: k <= TAIL_KEY)
    && (forall i | i in a.slots :: i < a.free)
    && a.free <= INDEX_LIMIT
  }

  /** The sentinels have value hash 0, and the index entries `set_head_and_tail` gave them. */
  ghost predicate BlankSentinels(a: Abs) {
    && HEAD_INDEX in a.slots && a.slots[HEAD_INDEX].hval == 0
    && TAIL_INDEX in a.slots && a.slots[TAIL_INDEX].hval == 0
    && (HEAD_KEY in a.leaves ==> a.leaves[HEAD_KEY] == FLAT_HEAD)
    && (TAIL_KEY in a.leaves ==> a.leaves[TAIL_KEY] == FLAT_TAIL)
  }

  /** `j` is the leaf right after `i` in key order. */
  ghost predicate IsNext(slots: LeafSlots, i: nat, j: nat) {
    && i in slots && j in slots && slots[i].hkey < slots[j].hkey
    && forall k | k in slots :: slots[k].hkey <= slots[i].hkey || slots[j].hkey <= slots[k].hkey
  }

  ghost predicate NextOk(slots: LeafSlots, i: nat) {
    i in slots && IsNext(slots, i, slots[i].next)
  }

  ghost predicate PrevOk(slots: LeafSlots, i: nat) {
    i in slots && IsNext(slots, slots[i].prev, i)
  }

  ghost predicate NextLinks(slots: LeafSlots) {
    && (forall i {:trigger NextOk(slots, i)} | i in slots && i != TAIL_INDEX :: NextOk(slots, i))
    && (TAIL_INDEX in slots ==> slots[TAIL_INDEX].next == TAIL_INDEX)
  }

  ghost predicate PrevLinks(slots: LeafSlots) {
    && (forall i {:trigger PrevOk(slots, i)} | i in slots && i != HEAD_INDEX :: PrevOk(slots, i))
    && (HEAD_INDEX in slots ==> slots[HEAD_INDEX].prev == HEAD_INDEX)
  }

  ghost predicate Linked(slots: LeafSlots) {
    NextLinks(slots) && PrevLinks(slots)
  }

  ghost predicate Valid(h: Hash, a: Abs) {
    Agrees(h, a) && Linked(a.slots)
  }

  /** The operation's key is not one that hashes to a sentinel. */
  predicate KeyOk(h: Hash, op: Op) {
    Hashable(op.key) ==> h(op.key) != HEAD_KEY && h(op.key) != TAIL_KEY
  }

  // ----- nearest keys -----

  /** Between the sentinels the ordered index always answers, with the two adjacent leaves. */
  lemma NearestExists(h: Hash, a: Abs, hkey: Word) returns (near: KeyRange, below: Word, above: Word)
    requires Agrees(h, a) && HEAD_KEY < hkey < TAIL_KEY
    ensures NearestTo(a, hkey) == Some(near)
    ensures IsBelow(a.leaves, hkey, below) && IsAbove(a.leaves, hkey, above)
    ensures near == KeyRange(a.leaves[below].leafIndex,
                             if hkey in a.leaves then Some(a.leaves[hkey]) else None,
                             a.leaves[above].leafIndex)
    ensures near.left in a.slots && a.slots[near.left].hkey == below
    ensures near.right in a.slots && a.slots[near.right].hkey == above
    ensures near.left != near.right && near.left != TAIL_INDEX && near.right != HEAD_INDEX
  {
    assert HEAD_KEY in a.leaves && TAIL_KEY in a.leaves;
    below, above := Below(a.leaves, hkey).value, Above(a.leaves, hkey).value;
    near := NearestTo(a, hkey).value;
  }

  /** In a linked state the two neighbours of an absent key are each other's neighbours. */
  lemma NeighboursLinked(h: Hash, a: Abs, hkey: Word, near: KeyRange)
    requires Valid(h, a) && HEAD_KEY < hkey < TAIL_KEY && hkey !in a.leaves
    requires NearestTo(a, hkey) == Some(near)
    ensures near.left in a.slots && near.right in a.slots
    ensures a.slots[near.left].next == near.right && a.slots[near.right].prev == near.left
  {
    hide BlankSentinels;
    var n, below, above := NearestExists(h, a, hkey);
    assert NextOk(a.slots, near.left) && PrevOk(a.slots, near.right);
  }

  /** The links of a present leaf name the neighbours the index would give. */
  lemma LinksAreNearest(h: Hash, a: Abs, hkey: Word)
    requires Valid(h, a) && HEAD_KEY < hkey < TAIL_KEY && hkey in a.leaves
    ensures var o := a.slots[a.leaves[hkey].leafIndex];
            NearestTo(a, hkey) == Some(KeyRange(o.prev, Some(a.leaves[hkey]), o.next))
  {
    hide BlankSentinels;
    var near, below, above := NearestExists(h, a, hkey);
    var i := a.leaves[hkey].leafIndex;
    assert NextOk(a.slots, i) && PrevOk(a.slots, i);
  }

  // ----- plans exist -----

  predicate Accepts(h: Hash, a: Abs, op: Op) {
    && Hashable(op.key)
    && (op.PutOp? ==> Hashable(op.value) && (h(op.key) in a.leaves || a.free < INDEX_LIMIT))
  }

  /** An operation fails exactly when its key or value cannot be hashed or a new leaf has no index. */
  lemma PlanExists(h: Hash, m: Mode, a: Abs, op: Op)
    requires Agrees(h, a) && KeyOk(h, op)
    ensures PlanOf(h, m, a, op).Some? <==> Accepts(h, a, op)
  {
    if Hashable(op.key) {
      var near, below, above := NearestExists(h, a, h(op.key));
    }
  }

  // ----- the three effects -----

  /** `s'` has the leaves of `s` with the same keys, plus perhaps `extra`, minus perhaps `gone`. */
  ghost predicate SameKeys(s: LeafSlots, s': LeafSlots, gone: iset<nat>, extra: iset<nat>) {
    && (forall k | k in s && k !in gone :: k in s' && s'[k].hkey == s[k].hkey)
    && (forall k | k in s' :: (k in s && k !in gone) || k in extra)
  }

  /** Adjacent leaves stay adjacent when the only new key is not between theirs. */
  lemma StaysNext(s: LeafSlots, s': LeafSlots, gone: iset<nat>, extra: iset<nat>, i: nat, j: nat)
    requires IsNext(s, i, j) && SameKeys(s, s', gone, extra) && i !in gone && j !in gone
    requires forall e | e in extra && e in s' :: s'[e].hkey <= s[i].hkey || s[j].hkey <= s'[e].hkey
    ensures IsNext(s', i, j)
  {
  }

  function FreshSlots(s: LeafSlots, near: KeyRange, free: U64, hkey: Word, hval: Word): LeafSlots
    requires near.left in s && near.right in s && free !in s && near.left != near.right
  {
    s[near.left := s[near.left].(next := free)]
     [free := LeafOpening(hkey, hval, near.left, near.right)]
     [near.right := s[near.right].(prev := free)]
  }

  ghost predicate Distinct(s: LeafSlots) {
    forall i, j | i in s && j in s && s[i].hkey == s[j].hkey :: i == j
  }

  /** A key between two adjacent leaves is between no other two. */
  lemma NotBetween(s: LeafSlots, left: nat, right: nat, i: nat, j: nat, hkey: Word)
    requires Distinct(s) && IsNext(s, left, right) && IsNext(s, i, j)
    requires s[left].hkey < hkey < s[right].hkey && (i != left || j != right)
    ensures hkey <= s[i].hkey || s[j].hkey <= hkey
  {
  }

  lemma NextUnique(s: LeafSlots, i: nat, j: nat, k: nat)
    requires Distinct(s)
    ensures IsNext(s, i, j) && IsNext(s, i, k) ==> j == k
    ensures IsNext(s, i, k) && IsNext(s, j, k) ==> i == j
  {
  }

  /** What both insertion lemmas ask of the place a new leaf goes. */
  ghost predicate Gap(s: LeafSlots, near: KeyRange, free: U64, hkey: Word) {
    && Distinct(s) && Linked(s) && IsNext(s, near.left, near.right) && free !in s
    && s[near.left].hkey < hkey < s[near.right].hkey
    && s[near.left].next == near.right && s[near.right].prev == near.left
    && near.left != TAIL_INDEX && near.right != HEAD_INDEX && HEAD_INDEX in s && TAIL_INDEX in s
  }

  lemma FreshNextLinks(s: LeafSlots, near: KeyRange, free: U64, hkey: Word, hval: Word)
    requires Gap(s, near, free, hkey)
    ensures NextLinks(FreshSlots(s, near, free, hkey, hval))
  {
    hide PrevLinks;
    var s' := FreshSlots(s, near, free, hkey, hval);
    assert SameKeys(s, s', iset{}, iset{free});
    assert IsNext(s', near.left, free) && IsNext(s', free, near.right);
    forall i | i in s' && i != TAIL_INDEX
      ensures NextOk(s', i)
    {
      if i != near.left && i != free {
        assert NextOk(s, i);
        NotBetween(s, near.left, near.right, i, s[i].next, hkey);
        StaysNext(s, s', iset{}, iset{free}, i, s[i].next);
      }
    }
  }

  lemma FreshPrevLinks(s: LeafSlots, near: KeyRange, free: U64, hkey: Word, hval: Word)
    requires Gap(s, near, free, hkey)
    ensures PrevLinks(FreshSlots(s, near, free, hkey, hval))
  {
    hide NextLinks;
    var s' := FreshSlots(s, near, free, hkey, hval);
    assert SameKeys(s, s', iset{}, iset{free});
    assert IsNext(s', near.left, free) && IsNext(s', free, near.right);
    forall i | i in s' && i != HEAD_INDEX
      ensures PrevOk(s', i)
    {
      if i != near.right && i != free {
        assert PrevOk(s, i);
        NotBetween(s, near.left, near.right, s[i].prev, i, hkey);
        StaysNext(s, s', iset{}, iset{free}, s[i].prev, i);
      }
    }
  }

  function GoneSlots(s: LeafSlots, near: KeyRange, gone: nat): LeafSlots
    requires near.left in s && near.right in s
  {
    (s[near.left := s[near.left].(next := near.right)] - {gone})
     [near.right := s[near.right].(prev := near.left)]
  }

  /** A leaf with both its neighbours. */
  ghost predicate Wedge(s: LeafSlots, near: KeyRange, gone: nat) {
    && Distinct(s) && Linked(s) && IsNext(s, near.left, gone) && IsNext(s, gone, near.right)
    && near.left != TAIL_INDEX && near.right != HEAD_INDEX && HEAD_INDEX in s && TAIL_INDEX in s
    && gone != TAIL_INDEX && gone != HEAD_INDEX
  }

  lemma NextSurvives(s: LeafSlots, s': LeafSlots, left: nat, gone: nat, i: nat)
    requires Distinct(s) && IsNext(s, left, gone) && SameKeys(s, s', iset{gone}, iset{})
    requires NextOk(s, i) && i != left && i != gone && s'[i].next == s[i].next
    ensures NextOk(s', i)
  {
    NextUnique(s, i, left, gone);
    StaysNext(s, s', iset{gone}, iset{}, i, s[i].next);
  }

  lemma PrevSurvives(s: LeafSlots, s': LeafSlots, right: nat, gone: nat, i: nat)
    requires Distinct(s) && IsNext(s, gone, right) && SameKeys(s, s', iset{gone}, iset{})
    requires PrevOk(s, i) && i != right && i != gone && s'[i].prev == s[i].prev
    ensures PrevOk(s', i)
  {
    NextUnique(s, gone, right, i);
    StaysNext(s, s', iset{gone}, iset{}, s[i].prev, i);
  }

  lemma GoneNextLinks(s: LeafSlots, near: KeyRange, gone: nat)
    requires Wedge(s, near, gone)
    ensures NextLinks(GoneSlots(s, near, gone))
  {
    hide PrevLinks;
    var s' := GoneSlots(s, near, gone);
    assert SameKeys(s, s', iset{gone}, iset{});
    assert IsNext(s', near.left, near.right);
    forall i | i in s' && i != TAIL_INDEX
      ensures NextOk(s', i)
    {
      if i != near.left {
        assert NextOk(s, i);
        NextSurvives(s, s', near.left, gone, i);
      }
    }
  }

  lemma GonePrevLinks(s: LeafSlots, near: KeyRange, gone: nat)
    requires Wedge(s, near, gone)
    ensures PrevLinks(GoneSlots(s, near, gone))
  {
    hide NextLinks;
    var s' := GoneSlots(s, near, gone);
    assert SameKeys(s, s', iset{gone}, iset{});
    assert IsNext(s', near.left, near.right);
    forall i | i in s' && i != HEAD_INDEX
      ensures PrevOk(s', i)
    {
      if i != near.right {
        assert PrevOk(s, i);
        PrevSurvives(s, s', near.right, gone, i);
      }
    }
  }

  /** Rewriting a value hash moves no link. */
  lemma HvalKeepsLinked(s: LeafSlots, i: nat, hval: Word)
    requires i in s && Linked(s)
    ensures Linked(s[i := s[i].(hval := hval)])
  {
    hide IsNext, NextLinks, PrevLinks, NextOk, PrevOk;
    var s' := s[i := s[i].(hval := hval)];
    assert SameKeys(s, s', iset{}, iset{});
    assert forall k | k in s :: s'[k].next == s[k].next && s'[k].prev == s[k].prev;
    SameLinksLinked(s, s');
  }

  lemma SameLinksLinked(s: LeafSlots, s': LeafSlots)
    requires Linked(s) && SameKeys(s, s', iset{}, iset{})
    requires forall k | k in s :: k in s' && s'[k].next == s[k].next && s'[k].prev == s[k].prev
    ensures Linked(s')
  {
    hide IsNext;
    forall k | k in s' && k != TAIL_INDEX
      ensures NextOk(s', k)
    {
      assert NextOk(s, k);
      StaysNext(s, s', iset{}, iset{}, k, s[k].next);
    }
    forall k | k in s' && k != HEAD_INDEX
      ensures PrevOk(s', k)
    {
      assert PrevOk(s, k);
      PrevInSlots(s, k);
      StaysNext(s, s', iset{}, iset{}, s[k].prev, k);
    }
  }

  lemma PrevInSlots(s: LeafSlots, k: nat)
    requires PrevOk(s, k)
    ensures s[k].prev in s
  {
  }

  lemma FreeIsVacant(h: Hash, a: Abs)
    requires Agrees(h, a)
    ensures a.free !in a.slots
  {
  }

  /** Agreement looks at keys and value hashes only, not at links. */
  lemma AddKeepsAgrees(h: Hash, a: Abs, a': Abs, hkey: Word, value: Bytes)
    requires Agrees(h, a) && HEAD_KEY < hkey < TAIL_KEY && hkey !in a.leaves
    requires a.free < INDEX_LIMIT && Hashable(value) && a'.free == a.free + 1
    requires a'.leaves == a.leaves[hkey := FlattenedLeaf(a.free, value)]
    requires a'.slots.Keys == a.slots.Keys + {a.free}
    requires forall i | i in a.slots :: a'.slots[i].hkey == a.slots[i].hkey && a'.slots[i].hval == a.slots[i].hval
    requires a'.slots[a.free].hkey == hkey && a'.slots[a.free].hval == h(value)
    ensures Agrees(h, a')
  {
    assert a.free !in a.slots;
  }

  lemma FreshKeepsAgrees(h: Hash, m: Mode, a: Abs, near: KeyRange, hkey: Word, value: Bytes)
    requires Agrees(h, a) && HEAD_KEY < hkey < TAIL_KEY && hkey !in a.leaves
    requires NearestTo(a, hkey) == Some(near) && a.free < INDEX_LIMIT && Hashable(value)
    requires near.left in a.slots && near.right in a.slots
    ensures Agrees(h, LastOf(a, FreshSteps(h, m, a, near, hkey, value)))
  {
    hide NearestTo, Agrees;
    assert a.free !in a.slots by { FreeIsVacant(h, a); }
    var a' := LastOf(a, FreshSteps(h, m, a, near, hkey, value));
    assert a'.leaves == a.leaves[hkey := FlattenedLeaf(a.free, value)];
    assert a'.slots.Keys == a.slots.Keys + {a.free};
    assert forall i | i in a.slots :: a'.slots[i].hkey == a.slots[i].hkey && a'.slots[i].hval == a.slots[i].hval;
    assert a'.slots[a.free].hkey == hkey && a'.slots[a.free].hval == h(value);
    AddKeepsAgrees(h, a, a', hkey, value);
  }

  lemma FreshKeepsLinked(h: Hash, a: Abs, near: KeyRange, hkey: Word, value: Bytes)
    requires Valid(h, a) && HEAD_KEY < hkey < TAIL_KEY && hkey !in a.leaves
    requires NearestTo(a, hkey) == Some(near) && a.free < INDEX_LIMIT && Hashable(value)
    requires near.left in a.slots && near.right in a.slots
    ensures Linked(LastOf(a, FreshSteps(h, Repaired, a, near, hkey, value)).slots)
  {
    hide NearestTo;
    var n, below, above := NearestExists(h, a, hkey);
    NeighboursLinked(h, a, hkey, near);
    assert NextOk(a.slots, near.left);
    assert a.free !in a.slots;
    assert LastOf(a, FreshSteps(h, Repaired, a, near, hkey, value)).slots
        == FreshSlots(a.slots, near, a.free, hkey, h(value));
    FreshNextLinks(a.slots, near, a.free, hkey, h(value));
    FreshPrevLinks(a.slots, near, a.free, hkey, h(value));
  }

  lemma RewriteKeepsAgrees(h: Hash, a: Abs, a': Abs, i: nat, hkey: Word, value: Bytes)
    requires Agrees(h, a) && HEAD_KEY < hkey < TAIL_KEY && hkey in a.leaves && a.leaves[hkey].leafIndex == i
    requires Hashable(value) && a'.free == a.free && i in a.slots && i in a'.slots
    requires a'.leaves == a.leaves[hkey := FlattenedLeaf(i, value)]
    requires a'.slots == a.slots[i := a'.slots[i]]
    requires a'.slots[i].hkey == a.slots[i].hkey && a'.slots[i].hval == h(value)
    ensures Agrees(h, a')
  {
  }

  lemma ExistingKeepsAgrees(h: Hash, m: Mode, a: Abs, hkey: Word, value: Bytes)
    requires Agrees(h, a) && HEAD_KEY < hkey < TAIL_KEY && hkey in a.leaves && Hashable(value)
    ensures var a' := LastOf(a, ExistingSteps(h, m, a, a.leaves[hkey].leafIndex, hkey, value));
            Agrees(h, a')
  {
    var i := a.leaves[hkey].leafIndex;
    IndexInSlots(h, a, hkey);
    hide Agrees;
    var a' := LastOf(a, ExistingSteps(h, m, a, i, hkey, value));
    RewriteKeepsAgrees(h, a, a', i, hkey, value);
  }

  lemma IndexInSlots(h: Hash, a: Abs, hkey: Word)
    requires Agrees(h, a) && hkey in a.leaves
    ensures a.leaves[hkey].leafIndex in a.slots && a.slots[a.leaves[hkey].leafIndex].hkey == hkey
  {
  }

  lemma ExistingKeepsLinked(h: Hash, a: Abs, hkey: Word, value: Bytes)
    requires Valid(h, a) && HEAD_KEY < hkey < TAIL_KEY && hkey in a.leaves && Hashable(value)
    ensures var a' := LastOf(a, ExistingSteps(h, Repaired, a, a.leaves[hkey].leafIndex, hkey, value));
            Linked(a'.slots)
  {
    HvalKeepsLinked(a.slots, a.leaves[hkey].leafIndex, h(value));
  }

  lemma DropKeepsAgrees(h: Hash, a: Abs, a': Abs, gone: nat, hkey: Word)
    requires Agrees(h, a) && HEAD_KEY < hkey < TAIL_KEY && hkey in a.leaves && a.leaves[hkey].leafIndex == gone
    requires a'.free == a.free && a'.leaves == a.leaves - {hkey} && a'.slots.Keys == a.slots.Keys - {gone}
    requires forall i | i in a'.slots :: a'.slots[i].hkey == a.slots[i].hkey && a'.slots[i].hval == a.slots[i].hval
    ensures Agrees(h, a')
  {
  }

  lemma RemoveKeepsAgrees(h: Hash, m: Mode, a: Abs, near: KeyRange, hkey: Word)
    requires Agrees(h, a) && HEAD_KEY < hkey < TAIL_KEY && hkey in a.leaves
    requires NearestTo(a, hkey) == Some(near)
    requires near.left in a.slots && near.right in a.slots && near.right != a.leaves[hkey].leafIndex
    ensures Agrees(h, LastOf(a, RemoveSteps(m, a, near, a.leaves[hkey].leafIndex, hkey)))
  {
    hide NearestTo, Agrees;
    var gone := a.leaves[hkey].leafIndex;
    var a' := LastOf(a, RemoveSteps(m, a, near, gone, hkey));
    DropKeepsAgrees(h, a, a', gone, hkey);
  }

  lemma RemoveKeepsLinked(h: Hash, a: Abs, near: KeyRange, hkey: Word)
    requires Valid(h, a) && HEAD_KEY < hkey < TAIL_KEY && hkey in a.leaves
    requires NearestTo(a, hkey) == Some(near)
    requires near.left in a.slots && near.right in a.slots && near.right != a.leaves[hkey].leafIndex
    ensures Linked(LastOf(a, RemoveSteps(Repaired, a, near, a.leaves[hkey].leafIndex, hkey)).slots)
  {
    hide NearestTo;
    var n, below, above := NearestExists(h, a, hkey);
    LinksAreNearest(h, a, hkey);
    var gone := a.leaves[hkey].leafIndex;
    assert NextOk(a.slots, gone) && PrevOk(a.slots, gone);
    assert LastOf(a, RemoveSteps(Repaired, a, near, gone, hkey)).slots == GoneSlots(a.slots, near, gone);
    GoneNextLinks(a.slots, near, gone);
    GonePrevLinks(a.slots, near, gone);
  }

  /** Every accepted operation keeps index and slots in agreement, whichever parser runs. */
  lemma OpKeepsAgrees(h: Hash, m: Mode, a: Abs, op: Op)
    requires Agrees(h, a) && KeyOk(h, op) && PlanOf(h, m, a, op).Some?
    ensures Agrees(h, LastOf(a, PlanOf(h, m, a, op).value.steps))
  {
    var near, below, above := NearestExists(h, a, h(op.key));
    match op
    case ReadOp(_) =>
    case PutOp(_, value) =>
      if near.center.Some? {
        ExistingKeepsAgrees(h, m, a, h(op.key), value);
      } else {
        FreshKeepsAgrees(h, m, a, near, h(op.key), value);
      }
    case RemoveOp(_) =>
      if near.center.Some? {
        RemoveKeepsAgrees(h, m, a, near, h(op.key));
      }
  }

  /** With the repaired parser every accepted operation keeps the list. */
  lemma OpKeepsValid(h: Hash, a: Abs, op: Op)
    requires Valid(h, a) && KeyOk(h, op) && PlanOf(h, Repaired, a, op).Some?
    ensures Valid(h, LastOf(a, PlanOf(h, Repaired, a, op).value.steps))
  {
    OpKeepsAgrees(h, Repaired, a, op);
    var near, below, above := NearestExists(h, a, h(op.key));
    match op
    case ReadOp(_) =>
    case PutOp(_, value) =>
      if near.center.Some? {
        ExistingKeepsLinked(h, a, h(op.key), value);
      } else {
        FreshKeepsLinked(h, a, near, h(op.key), value);
      }
    case RemoveOp(_) =>
      if near.center.Some? {
        RemoveKeepsLinked(h, a, near, h(op.key));
      }
  }

  /** A put writes a leaf, and so does the removal of a present key. */
  predicate Writes(h: Hash, a: Abs, op: Op) {
    op.PutOp? || (op.RemoveOp? && h(op.key) in a.leaves)
  }

  /** With the shipped parser, which reads `next_leaf` from `prev_leaf`, an operation on a linked
      state leaves the list intact if and only if it writes no leaf at all: a read, or the removal
      of an absent key. */
  lemma ShippedKeepsListIff(h: Hash, a: Abs, op: Op)
    requires Valid(h, a) && KeyOk(h, op) && PlanOf(h, Shipped, a, op).Some?
    ensures Linked(LastOf(a, PlanOf(h, Shipped, a, op).value.steps).slots) <==> !Writes(h, a, op)
  {
    hide NearestTo;
    var near, below, above := NearestExists(h, a, h(op.key));
    var s := a.slots;
    var s' := LastOf(a, PlanOf(h, Shipped, a, op).value.steps).slots;
    if op.PutOp? && near.center.Some? {
      ShippedSpoils(s, s', near.center.value.leafIndex);
    } else if op.PutOp? || (op.RemoveOp? && near.center.Some?) {
      assert a.free !in s;
      ShippedSpoils(s, s', near.right);
    }
  }

  /** A leaf whose next link was overwritten by its previous one is no longer linked. */
  lemma ShippedSpoils(s: LeafSlots, s': LeafSlots, i: nat)
    requires Linked(s) && i in s && i != HEAD_INDEX && i in s' && TAIL_INDEX in s
    requires s'[i].next == s[i].prev && s'[i].hkey == s[i].hkey
    requires s[i].prev in s && s[i].prev in s' ==> s'[s[i].prev].hkey == s[s[i].prev].hkey
    ensures !Linked(s')
  {
    assert PrevOk(s, i);
    assert !NextOk(s', i);
  }

  /** The state `empty` builds. */
  const EMPTY: Abs := Abs(map[0 := HEAD, 1 := TAIL], 2, map[HEAD_KEY := FLAT_HEAD, TAIL_KEY := FLAT_TAIL])

  lemma EmptyIsValid(h: Hash)
    ensures Valid(h, EMPTY)
  {
    assert IsNext(EMPTY.slots, 0, 1);
    assert NextOk(EMPTY.slots, 0) && PrevOk(EMPTY.slots, 1);
  }
}
