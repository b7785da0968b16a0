/** The trie without hashes or stores: leaf slots, free counter and flattened index, with the
    sub-steps each operation passes through; and the proof that the operations of ZkTrieSpec are
    those sub-steps on any store that resolves the paths they touch. */
module TrieMachine {
  import opened Words
  import opened LeafPaths
  import opened Nodes
  import opened MerkleTree
  import opened SparseMerkle
  import opened ZkTrieSpec

  datatype Abs = Abs(slots: map<nat, LeafOpening>, free: U64, leaves: Leaves)

  datatype Op = ReadOp(key: Bytes) | PutOp(key: Bytes, value: Bytes) | RemoveOp(key: Bytes)

  function Enc(slots: map<nat, LeafOpening>): Slots {
    map i | i in slots :: ToBytes(slots[i])
  }

  function RootOf(h: Hash, a: Abs): Digest {
    TopRoot(h, a.free, Enc(a.slots))
  }

  function RootsOf(h: Hash, steps: seq<Abs>): seq<Word> {
    seq(|steps|, i requires 0 <= i < |steps| => RootOf(h, steps[i]))
  }

  function LastOf(a: Abs, steps: seq<Abs>): Abs {
    if steps == [] then a else steps[|steps| - 1]
  }

  function WithSlot(a: Abs, i: nat, o: LeafOpening): Abs {
    a.(slots := a.slots[i := o])
  }

  /** A leaf is read through the parser before one of its fields changes. */
  function WithEdit(m: Mode, a: Abs, i: nat, e: Edit): Abs
    requires i in a.slots
  {
    WithSlot(a, i, Edited(View(m, a.slots[i]), e))
  }

  function FreshSteps(h: Hash, m: Mode, a: Abs, near: KeyRange, hkey: Word, value: Bytes): seq<Abs>
    requires near.left in a.slots && near.right in a.slots && a.free < INDEX_LIMIT
  {
    var a1 := WithEdit(m, a, near.left, SetNext(a.free));
    var a1' := a1.(leaves := a.leaves[hkey := FlattenedLeaf(a.free, value)]);
    var a2 := WithSlot(a1', a.free, LeafOpening(hkey, h(value), near.left, near.right));
    var a3 := WithEdit(m, a2, near.right, SetPrev(a.free));
    [a1, a2, a3, a3.(free := a.free + 1)]
  }

  function ExistingSteps(h: Hash, m: Mode, a: Abs, idx: U64, hkey: Word, value: Bytes): seq<Abs>
    requires idx in a.slots
  {
    var a0 := a.(leaves := a.leaves[hkey := FlattenedLeaf(idx, value)]);
    [WithEdit(m, a0, idx, SetHval(h(value)))]
  }

  function RemoveSteps(m: Mode, a: Abs, near: KeyRange, idx: U64, hkey: Word): seq<Abs>
    requires near.left in a.slots && near.right in a.slots && near.right != idx
  {
    var a1 := WithEdit(m, a, near.left, SetNext(near.right));
    var a2 := Abs(a1.slots - {idx}, a.free, a.leaves - {hkey});
    [a1, a2, WithEdit(m, a2, near.right, SetPrev(near.left))]
  }

  lemma EncWithSlot(a: Abs, i: nat, o: LeafOpening)
    ensures Enc(WithSlot(a, i, o).slots) == Enc(a.slots)[i := ToBytes(o)]
  {
  }

  lemma EncSized(slots: map<nat, LeafOpening>)
    ensures Sized(Enc(slots))
  {
    hide ToBytes;
  }

  // ----- simulation of one sub-step -----

  /** Every byte string that hashing the leaf slots and the counter takes. */
  ghost predicate AbsInUse(h: Hash, a: Abs, inUse: iset<Bytes>) {
    ContentsInUse(h, a.free, Enc(a.slots), inUse)
  }

  ghost predicate StepsInUse(h: Hash, steps: seq<Abs>, inUse: iset<Bytes>) {
    forall k | 0 <= k < |steps| :: AbsInUse(h, steps[k], inUse)
  }

  /** A sound store whose top root is that of `a`. */
  ghost predicate Sim(h: Hash, st: State, a: Abs, inUse: iset<Bytes>) {
    st.root == RootOf(h, a) && Top(h, st.store, a) && Sound(h, st.store, inUse)
  }

  ghost predicate Top(h: Hash, s: Store, a: Abs) {
    TopIn(h, s, a.free, Enc(a.slots))
  }

  ghost predicate At(h: Hash, s: Store, i: nat, a: Abs) {
    LeafIn(h, s, i, Enc(a.slots))
  }

  /** Every leaf path resolved for `a` is resolved for `a'` in the later store. */
  ghost predicate PathsKept(h: Hash, s: Store, a: Abs, s': Store, a': Abs) {
    forall j: nat | At(h, s, j, a) :: At(h, s', j, a')
  }

  /** The later store shows `a'` wherever the earlier one showed `a`. */
  ghost predicate Carried(h: Hash, s: Store, a: Abs, s': Store, a': Abs) {
    Top(h, s', a') && PathsKept(h, s, a, s', a')
  }

  /** The contents the `k`-th change of a plan starts from. */
  function Before(a: Abs, steps: seq<Abs>, k: nat): Abs
    requires k <= |steps|
  {
    if k == 0 then a else steps[k - 1]
  }

  /** A call went through `steps`: it succeeded, its assigned roots are exactly theirs, the store only
      grew, and it shows the contents before, after and in between. */
  ghost predicate Reaches(h: Hash, st: State, a: Abs, out: Out, steps: seq<Abs>, inUse: iset<Bytes>) {
    && out.Ok? && Sim(h, out.st, LastOf(a, steps), inUse) && Extends(h, st.store, out.st.store)
    && out.st.trail == st.trail + RootsOf(h, steps)
    && forall k | 0 <= k <= |steps| :: Carried(h, st.store, a, out.st.store, Before(a, steps, k))
  }

  lemma CarriedGrows(h: Hash, s: Store, a: Abs, s1: Store, b: Abs, s2: Store)
    requires Carried(h, s, a, s1, b) && Extends(h, s1, s2)
    ensures Carried(h, s, a, s2, b)
  {
    hide PathIn, Canon;
    forall j: nat | At(h, s, j, a)
      ensures At(h, s2, j, b)
    {
      LeafInGrows(h, s1, s2, j, Enc(b.slots));
    }
  }

  lemma CarriedThen(h: Hash, s: Store, a: Abs, s1: Store, b: Abs, s2: Store, c: Abs)
    requires PathsKept(h, s, a, s1, b) && Carried(h, s1, b, s2, c)
    ensures Carried(h, s, a, s2, c)
  {
    hide LeafIn, TopIn;
  }

  lemma ExtendsThen(h: Hash, s: Store, s1: Store, s2: Store)
    requires Extends(h, s, s1) && Extends(h, s1, s2)
    ensures Extends(h, s, s2)
  {
  }

  lemma ReachesThen(h: Hash, st: State, a: Abs, st1: State, steps1: seq<Abs>, out: Out,
                    steps2: seq<Abs>, inUse: iset<Bytes>)
    requires Reaches(h, st, a, Ok(st1), steps1, inUse)
    requires Reaches(h, st1, LastOf(a, steps1), out, steps2, inUse)
    ensures Reaches(h, st, a, out, steps1 + steps2, inUse)
  {
    hide Extends, Carried, Sim, RootOf;
    var b, steps := LastOf(a, steps1), steps1 + steps2;
    assert RootsOf(h, steps) == RootsOf(h, steps1) + RootsOf(h, steps2);
    assert LastOf(b, steps2) == LastOf(a, steps);
    ExtendsThen(h, st.store, st1.store, out.st.store);
    forall k | 0 <= k <= |steps|
      ensures Carried(h, st.store, a, out.st.store, Before(a, steps, k))
    {
      if k <= |steps1| {
        CarriedGrows(h, st.store, a, st1.store, Before(a, steps1, k), out.st.store);
      } else {
        assert Before(a, steps, k) == Before(b, steps2, k - |steps1|);
        assert Carried(h, st.store, a, st1.store, Before(a, steps1, |steps1|));
        KeptOfCarried(h, st.store, a, st1.store, b);
        CarriedThen(h, st.store, a, st1.store, b, out.st.store, Before(b, steps2, k - |steps1|));
      }
    }
  }

  lemma KeptOfCarried(h: Hash, s: Store, a: Abs, s': Store, b: Abs)
    requires Carried(h, s, a, s', b)
    ensures PathsKept(h, s, a, s', b)
  {
  }

  /** Nothing done, nothing changed. */
  lemma ReachesNothing(h: Hash, st: State, a: Abs, inUse: iset<Bytes>)
    requires Sim(h, st, a, inUse)
    ensures Reaches(h, st, a, Ok(st), [], inUse)
  {
    hide Sound, LeafIn, TopIn, RootOf;
    assert st.trail + RootsOf(h, []) == st.trail;
  }

  lemma ReachesOne(h: Hash, st: State, a: Abs, st': State, a': Abs, inUse: iset<Bytes>)
    requires Sim(h, st, a, inUse) && Sim(h, st', a', inUse) && Extends(h, st.store, st'.store)
    requires st'.trail == st.trail + [st'.root] && PathsKept(h, st.store, a, st'.store, a')
    ensures Reaches(h, st, a, Ok(st'), [a'], inUse)
  {
    hide Sound, PathIn, Canon;
    assert RootsOf(h, [a']) == [st'.root];
    CarriedSelf(h, st.store, a, st'.store);
  }

  lemma CarriedSelf(h: Hash, s: Store, a: Abs, s': Store)
    requires Top(h, s, a) && Extends(h, s, s')
    ensures Carried(h, s, a, s', a)
  {
    hide PathIn, Canon;
    forall j: nat | At(h, s, j, a)
      ensures At(h, s', j, a)
    {
      LeafInGrows(h, s, s', j, Enc(a.slots));
    }
  }

  lemma RewrittenReaches(h: Hash, st: State, a: Abs, i: nat, u: Update, a': Abs, inUse: iset<Bytes>)
    requires Sim(h, st, a, inUse) && At(h, st.store, i, a) && a'.free == a.free
    requires AgreeOff(i, Enc(a.slots), Enc(a'.slots))
    requires TopRewritten(h, st.store, u, a.free, i, Enc(a'.slots), inUse)
    ensures Reaches(h, st, a, Apply(st, u), [a'], inUse)
  {
    hide Sound, PathIn, Canon, Extends;
    forall j: nat | At(h, st.store, j, a)
      ensures At(h, u.store, j, a')
    {
      LeafInAfter(h, st.store, u.store, i, j, Enc(a.slots), Enc(a'.slots));
    }
    ReachesOne(h, st, a, Apply(st, u).st, a', inUse);
  }

  lemma WriteLeafReaches(h: Hash, st: State, a: Abs, i: nat, o: LeafOpening, inUse: iset<Bytes>)
    requires Sim(h, st, a, inUse) && At(h, st.store, i, a) && AbsInUse(h, WithSlot(a, i, o), inUse)
    ensures Reaches(h, st, a, WriteLeaf(h, st, i, ToBytes(o)), [WithSlot(a, i, o)], inUse)
  {
    hide AddLeaf, LeafIn, TopIn, Canon, Sound, ContentsInUse, Sized, Reaches;
    var a' := WithSlot(a, i, o);
    EncWithSlot(a, i, o);
    EncSized(a'.slots);
    PutIsUpdate(h, st.store, a.free, Enc(a.slots), i, ToBytes(o), inUse);
    RewrittenReaches(h, st, a, i, AddLeaf(h, st.store, 0, st.root, LeafPath(i), ToBytes(o)), a', inUse);
  }

  lemma ParseNodeIsView(h: Hash, m: Mode, st: State, a: Abs, i: nat, inUse: iset<Bytes>)
    requires Sim(h, st, a, inUse) && At(h, st.store, i, a) && i in a.slots
    ensures ParseNode(h, m, st, i) == Success(View(m, a.slots[i]))
  {
    hide GetNode, LeafIn, TopIn, Canon, TopRoot, AddLeaf, Sound;
    GetIsSlot(h, st.store, a.free, Enc(a.slots), i);
    ParseOfToBytes(m, a.slots[i]);
  }

  /** Reading a leaf where there is none. */
  lemma EmptySlotNotFound(h: Hash, m: Mode, st: State, a: Abs, i: nat, e: Edit, inUse: iset<Bytes>)
    requires Sim(h, st, a, inUse) && At(h, st.store, i, a) && i !in a.slots
    ensures ParseNode(h, m, st, i) == Failure(KeyNotFound) && EditLeaf(h, m, st, i, e) == Err(st, KeyNotFound)
  {
    hide GetNode, LeafIn, TopIn, Canon, TopRoot, AddLeaf, Sound;
    GetIsSlot(h, st.store, a.free, Enc(a.slots), i);
  }

  lemma EditLeafReaches(h: Hash, m: Mode, st: State, a: Abs, i: nat, e: Edit, inUse: iset<Bytes>)
    requires Sim(h, st, a, inUse) && At(h, st.store, i, a) && i in a.slots
    requires AbsInUse(h, WithEdit(m, a, i, e), inUse)
    ensures Reaches(h, st, a, EditLeaf(h, m, st, i, e), [WithEdit(m, a, i, e)], inUse)
  {
    hide AddLeaf, GetNode, LeafIn, TopIn, Canon, Reaches, WriteLeaf, Sound, AbsInUse;
    ParseNodeIsView(h, m, st, a, i, inUse);
    WriteLeafReaches(h, st, a, i, Edited(View(m, a.slots[i]), e), inUse);
  }

  lemma DropLeafReaches(h: Hash, st: State, a: Abs, i: nat, inUse: iset<Bytes>)
    requires Sim(h, st, a, inUse) && At(h, st.store, i, a) && AbsInUse(h, a.(slots := a.slots - {i}), inUse)
    ensures Reaches(h, st, a, DropLeaf(h, st, i), [a.(slots := a.slots - {i})], inUse)
  {
    hide RemoveLeaf, LeafIn, TopIn, Canon, Sound, ContentsInUse, Sized, Reaches;
    var a' := a.(slots := a.slots - {i});
    assert Enc(a'.slots) == Enc(a.slots) - {i};
    EncSized(a'.slots);
    RemoveIsUpdate(h, st.store, a.free, Enc(a.slots), i, inUse);
    RewrittenReaches(h, st, a, i, RemoveLeaf(h, st.store, 0, st.root, LeafPath(i)), a', inUse);
  }

  lemma IncrementReaches(h: Hash, st: State, a: Abs, inUse: iset<Bytes>)
    requires Sim(h, st, a, inUse) && a.free < INDEX_LIMIT && AbsInUse(h, a.(free := a.free + 1), inUse)
    ensures Reaches(h, st, a, IncrementFree(h, st), [a.(free := a.free + 1)], inUse)
  {
    hide Sound, PathIn, Canon, Extends, TreeInUse, Reaches;
    CounterIsFree(h, st.store, a.free, Enc(a.slots));
    SetNextFreeIsUpdate(h, st.store, a.free, a.free + 1, Enc(a.slots), inUse);
    var u := SetNextFree(h, st.store, st.root, a.free + 1);
    forall j: nat | At(h, st.store, j, a)
      ensures At(h, u.store, j, a.(free := a.free + 1))
    {
      LeafInGrows(h, st.store, u.store, j, Enc(a.slots));
    }
    ReachesOne(h, st, a, Apply(st, u).st, a.(free := a.free + 1), inUse);
  }

  // ----- simulation of whole operations -----

  /** The path to `j` was resolved at the start, or is resolved for the contents of the sub-step
      that uses it. */
  ghost predicate Ready(h: Hash, s: Store, j: nat, a: Abs, a': Abs) {
    At(h, s, j, a) || At(h, s, j, a')
  }

  lemma ReadyThen(h: Hash, st: State, a: Abs, st1: State, steps: seq<Abs>, j: nat, a': Abs, inUse: iset<Bytes>)
    requires Reaches(h, st, a, Ok(st1), steps, inUse) && Ready(h, st.store, j, a, a')
    ensures Ready(h, st1.store, j, LastOf(a, steps), a')
  {
    hide LeafIn, TopIn, Extends, Sim;
    if At(h, st.store, j, a) {
      assert Carried(h, st.store, a, st1.store, Before(a, steps, |steps|));
    } else {
      LeafInGrows(h, st.store, st1.store, j, Enc(a'.slots));
    }
  }

  lemma LinkRightReaches(h: Hash, m: Mode, st: State, a: Abs, right: U64, inUse: iset<Bytes>)
    requires Sim(h, st, a, inUse) && At(h, st.store, right, a) && right in a.slots && a.free < INDEX_LIMIT
    requires var a' := WithEdit(m, a, right, SetPrev(a.free));
             AbsInUse(h, a', inUse) && AbsInUse(h, a'.(free := a.free + 1), inUse)
    ensures var a' := WithEdit(m, a, right, SetPrev(a.free));
            Reaches(h, st, a, LinkRight(h, m, st, right, a.free), [a', a'.(free := a.free + 1)], inUse)
  {
    hide EditLeaf, IncrementFree, LeafIn, TopIn, Extends, Carried, Sound, AbsInUse;
    EditLeafReaches(h, m, st, a, right, SetPrev(a.free), inUse);
    LinkRightGoesOn(h, st, a, EditLeaf(h, m, st, right, SetPrev(a.free)).st,
      WithEdit(m, a, right, SetPrev(a.free)), inUse);
  }

  lemma LinkRightGoesOn(h: Hash, st: State, a: Abs, st1: State, a': Abs, inUse: iset<Bytes>)
    requires Reaches(h, st, a, Ok(st1), [a'], inUse) && a'.free < INDEX_LIMIT
    requires AbsInUse(h, a'.(free := a'.free + 1), inUse)
    ensures Reaches(h, st, a, IncrementFree(h, st1), [a', a'.(free := a'.free + 1)], inUse)
  {
    hide IncrementFree, LeafIn, TopIn, Extends, Carried, Sound, AbsInUse, RootOf;
    IncrementReaches(h, st1, a', inUse);
    ReachesThen(h, st, a, st1, [a'], IncrementFree(h, st1), [a'.(free := a'.free + 1)], inUse);
    assert [a'] + [a'.(free := a'.free + 1)] == [a', a'.(free := a'.free + 1)];
  }

  /** The index plays no part in what the tree shows. */
  lemma ReachesReindexed(h: Hash, st: State, ix: Index, a: Abs, leaves: Leaves, out: Out, steps: seq<Abs>,
                         inUse: iset<Bytes>)
    requires Reaches(h, st.(index := ix), a.(leaves := leaves), out, steps, inUse) && Sim(h, st, a, inUse)
    ensures Reaches(h, st, a, out, steps, inUse)
  {
    hide LeafIn, TopIn, Sound, Extends;
    var b := a.(leaves := leaves);
    CarriedSelf(h, st.store, a, out.st.store);
    forall k | 0 <= k <= |steps|
      ensures Carried(h, st.store, a, out.st.store, Before(a, steps, k))
    {
      if k > 0 {
        assert Carried(h, st.store, b, out.st.store, Before(b, steps, k));
        CarriedReindexed(h, st.store, a, b, out.st.store, steps[k - 1]);
      }
    }
  }

  lemma CarriedReindexed(h: Hash, s: Store, a: Abs, b: Abs, s': Store, c: Abs)
    requires a.slots == b.slots && Carried(h, s, b, s', c)
    ensures Carried(h, s, a, s', c)
  {
    hide LeafIn, TopIn;
    forall j: nat | At(h, s, j, a)
      ensures At(h, s', j, c)
    {
      assert At(h, s, j, b);
    }
  }

  lemma AddFreshReaches(h: Hash, m: Mode, st: State, a: Abs, near: KeyRange, hkey: Word,
                        value: Bytes, a2: Abs, inUse: iset<Bytes>)
    requires Sim(h, st, a, inUse) && a.free < INDEX_LIMIT && Hashable(value)
    requires a2 == WithSlot(a.(leaves := a.leaves[hkey := FlattenedLeaf(a.free, value)]), a.free,
                            LeafOpening(hkey, h(value), near.left, near.right))
    requires At(h, st.store, a.free, a) && near.right in a2.slots
    requires Ready(h, st.store, near.right, a, a2)
    requires var a3 := WithEdit(m, a2, near.right, SetPrev(a.free));
             StepsInUse(h, [a2, a3, a3.(free := a.free + 1)], inUse)
    ensures var a3 := WithEdit(m, a2, near.right, SetPrev(a.free));
            Reaches(h, st, a, AddFresh(h, m, st, near, a.free, hkey, value),
                    [a2, a3, a3.(free := a.free + 1)], inUse)
  {
    hide EditLeaf, WriteLeaf, LeafIn, TopIn, Extends, LinkRight, ToBytes, Sound, AbsInUse, RootOf, Reaches;
    var a3 := WithEdit(m, a2, near.right, SetPrev(a.free));
    var steps := [a2, a3, a3.(free := a.free + 1)];
    assert AbsInUse(h, steps[0], inUse) && AbsInUse(h, steps[1], inUse) && AbsInUse(h, steps[2], inUse);
    var ix := UpdateIndex(st.index, hkey, FlattenedLeaf(a.free, value));
    var leaf := LeafOpening(hkey, h(value), near.left, near.right);
    SimReindexed(h, st, ix, a, a2.leaves, inUse);
    WriteLeafReaches(h, st.(index := ix), a.(leaves := a2.leaves), a.free, leaf, inUse);
    var w := WriteLeaf(h, st.(index := ix), a.free, ToBytes(leaf));
    ReachesReindexed(h, st, ix, a, a2.leaves, w, [a2], inUse);
    ReachesEnds(h, st, a, w, [a2], inUse);
    ReadyThen(h, st, a, w.st, [a2], near.right, a2, inUse);
    LinkRightReaches(h, m, w.st, a2, near.right, inUse);
    ReachesThen(h, st, a, w.st, [a2], LinkRight(h, m, w.st, near.right, a.free), steps[1..], inUse);
    assert [a2] + steps[1..] == steps;
  }

  lemma SimReindexed(h: Hash, st: State, ix: Index, a: Abs, leaves: Leaves, inUse: iset<Bytes>)
    requires Sim(h, st, a, inUse)
    ensures Sim(h, st.(index := ix), a.(leaves := leaves), inUse)
  {
    hide Sound;
  }

  lemma ReachesEnds(h: Hash, st: State, a: Abs, out: Out, steps: seq<Abs>, inUse: iset<Bytes>)
    requires Reaches(h, st, a, out, steps, inUse)
    ensures out.Ok? && Sim(h, out.st, LastOf(a, steps), inUse)
  {
    hide Sim, Extends, Carried;
  }

  /** The rest of `PutFresh` once the left neighbour is linked. */
  lemma PutFreshGoesOn(h: Hash, m: Mode, st: State, a: Abs, st1: State, near: KeyRange, hkey: Word,
                       value: Bytes, inUse: iset<Bytes>)
    requires near.left in a.slots && near.right in a.slots && a.free < INDEX_LIMIT && Hashable(value)
    requires var steps := FreshSteps(h, m, a, near, hkey, value);
             && Reaches(h, st, a, Ok(st1), [steps[0]], inUse) && StepsInUse(h, steps, inUse)
             && Ready(h, st.store, a.free, a, steps[0]) && Ready(h, st.store, near.right, a, steps[1])
    ensures Reaches(h, st, a, AddFresh(h, m, st1, near, a.free, hkey, value),
                    FreshSteps(h, m, a, near, hkey, value), inUse)
  {
    hide AddFresh, LeafIn, TopIn, Reaches, AbsInUse, Sim;
    var steps := FreshSteps(h, m, a, near, hkey, value);
    ReachesEnds(h, st, a, Ok(st1), [steps[0]], inUse);
    ReadyThen(h, st, a, st1, [steps[0]], a.free, steps[0], inUse);
    ReadyThen(h, st, a, st1, [steps[0]], near.right, steps[1], inUse);
    assert steps[1..] == [steps[1], steps[2], steps[3]];
    TailInUse(h, steps, inUse);
    AddFreshReaches(h, m, st1, steps[0], near, hkey, value, steps[1], inUse);
    ReachesThen(h, st, a, st1, [steps[0]], AddFresh(h, m, st1, near, a.free, hkey, value), steps[1..], inUse);
    assert [steps[0]] + steps[1..] == steps;
  }

  lemma TailInUse(h: Hash, steps: seq<Abs>, inUse: iset<Bytes>)
    requires StepsInUse(h, steps, inUse) && steps != []
    ensures AbsInUse(h, steps[0], inUse) && StepsInUse(h, steps[1..], inUse)
  {
    hide AbsInUse;
  }

  lemma PutFreshReaches(h: Hash, m: Mode, st: State, a: Abs, near: KeyRange, hkey: Word,
                        value: Bytes, inUse: iset<Bytes>)
    requires near.left in a.slots && near.right in a.slots && a.free < INDEX_LIMIT
    requires near.right < INDEX_LIMIT && Hashable(value)
    requires Sim(h, st, a, inUse) && At(h, st.store, near.left, a)
    requires var steps := FreshSteps(h, m, a, near, hkey, value);
             && Ready(h, st.store, a.free, a, steps[0]) && Ready(h, st.store, near.right, a, steps[1])
             && StepsInUse(h, steps, inUse)
    ensures Reaches(h, st, a, PutFresh(h, m, st, near, hkey, value),
                    FreshSteps(h, m, a, near, hkey, value), inUse)
  {
    hide AddFresh, EditLeaf, PathIn, Extends, Carried, Sound, AbsInUse;
    var steps := FreshSteps(h, m, a, near, hkey, value);
    CounterIsFree(h, st.store, a.free, Enc(a.slots));
    TailInUse(h, steps, inUse);
    EditLeafReaches(h, m, st, a, near.left, SetNext(a.free), inUse);
    var e := EditLeaf(h, m, st, near.left, SetNext(a.free));
    assert PutFresh(h, m, st, near, hkey, value) == AddFresh(h, m, e.st, near, a.free, hkey, value);
    PutFreshGoesOn(h, m, st, a, e.st, near, hkey, value, inUse);
  }

  lemma PutExistingReaches(h: Hash, m: Mode, st: State, a: Abs, idx: U64, hkey: Word, value: Bytes,
                           inUse: iset<Bytes>)
    requires Sim(h, st, a, inUse) && At(h, st.store, idx, a) && idx in a.slots && Hashable(value)
    requires StepsInUse(h, ExistingSteps(h, m, a, idx, hkey, value), inUse)
    ensures Reaches(h, st, a, PutExisting(h, m, st, idx, hkey, value),
                    ExistingSteps(h, m, a, idx, hkey, value), inUse)
  {
    hide EditLeaf, PathIn, TopIn, Extends, Reaches, Sound, AbsInUse;
    var flat := FlattenedLeaf(idx, value);
    var ix := UpdateIndex(st.index, hkey, flat);
    var b := a.(leaves := a.leaves[hkey := flat]);
    var steps := ExistingSteps(h, m, a, idx, hkey, value);
    TailInUse(h, steps, inUse);
    EditLeafReaches(h, m, st.(index := ix), b, idx, SetHval(h(value)), inUse);
    ReachesReindexed(h, st, ix, a, b.leaves,
      EditLeaf(h, m, st.(index := ix), idx, SetHval(h(value))), steps, inUse);
  }

  lemma DropExistingReaches(h: Hash, m: Mode, st: State, a: Abs, near: KeyRange, idx: U64, hkey: Word,
                            inUse: iset<Bytes>)
    requires Sim(h, st, a, inUse) && idx in a.slots && near.right in a.slots && near.right != idx
    requires At(h, st.store, idx, a)
    requires var a2 := Abs(a.slots - {idx}, a.free, a.leaves - {hkey});
             && Ready(h, st.store, near.right, a, a2)
             && StepsInUse(h, [a2, WithEdit(m, a2, near.right, SetPrev(near.left))], inUse)
    ensures var a2 := Abs(a.slots - {idx}, a.free, a.leaves - {hkey});
            Reaches(h, st, a, DropExisting(h, m, st, near, idx, hkey),
                    [a2, WithEdit(m, a2, near.right, SetPrev(near.left))], inUse)
  {
    hide EditLeaf, DropLeaf, ParseNode, PathIn, TopIn, Extends, Reaches, Sound, AbsInUse;
    var a2 := Abs(a.slots - {idx}, a.free, a.leaves - {hkey});
    var a3 := WithEdit(m, a2, near.right, SetPrev(near.left));
    var steps := [a2, a3];
    assert AbsInUse(h, steps[0], inUse) && AbsInUse(h, steps[1], inUse);
    ParseNodeIsView(h, m, st, a, idx, inUse);
    var st' := st.(index := RemoveIndex(st.index, hkey));
    SimReindexed(h, st, st'.index, a, a2.leaves, inUse);
    DropLeafReaches(h, st', a.(leaves := a2.leaves), idx, inUse);
    var w := DropLeaf(h, st', idx);
    ReachesReindexed(h, st, st'.index, a, a2.leaves, w, [a2], inUse);
    ReachesEnds(h, st, a, w, [a2], inUse);
    ReadyThen(h, st, a, w.st, [a2], near.right, a2, inUse);
    EditLeafReaches(h, m, w.st, a2, near.right, SetPrev(near.left), inUse);
    ReachesThen(h, st, a, w.st, [a2], EditLeaf(h, m, w.st, near.right, SetPrev(near.left)), [a3], inUse);
    assert [a2] + [a3] == steps;
  }

  lemma RemoveExistingReaches(h: Hash, m: Mode, st: State, a: Abs, near: KeyRange, idx: U64,
                              hkey: Word, inUse: iset<Bytes>)
    requires near.left in a.slots && near.right in a.slots && idx in a.slots && near.right != idx
    requires near.right < INDEX_LIMIT
    requires Sim(h, st, a, inUse) && At(h, st.store, near.left, a)
    requires var steps := RemoveSteps(m, a, near, idx, hkey);
             && Ready(h, st.store, idx, a, steps[0]) && Ready(h, st.store, near.right, a, steps[1])
             && StepsInUse(h, steps, inUse)
    ensures Reaches(h, st, a, RemoveExisting(h, m, st, near, idx, hkey),
                    RemoveSteps(m, a, near, idx, hkey), inUse)
  {
    hide EditLeaf, DropExisting, PathIn, TopIn, Extends, Reaches, Sound, AbsInUse;
    var steps := RemoveSteps(m, a, near, idx, hkey);
    var a1 := steps[0];
    TailInUse(h, steps, inUse);
    EditLeafReaches(h, m, st, a, near.left, SetNext(near.right), inUse);
    var e := EditLeaf(h, m, st, near.left, SetNext(near.right));
    ReachesEnds(h, st, a, e, [a1], inUse);
    ReadyThen(h, st, a, e.st, [a1], idx, a1, inUse);
    ReadyThen(h, st, a, e.st, [a1], near.right, steps[1], inUse);
    assert steps[1..] == [steps[1], steps[2]];
    DropExistingReaches(h, m, e.st, a1, near, idx, hkey, inUse);
    ReachesThen(h, st, a, e.st, [a1], DropExisting(h, m, e.st, near, idx, hkey), steps[1..], inUse);
    assert [a1] + steps[1..] == steps;
  }

  // ----- operations as plans -----

  /** The sub-states an operation passes through, and the leaf whose path each change walks. */
  datatype Plan = Plan(steps: seq<Abs>, touched: seq<nat>)

  function NearestTo(a: Abs, hkey: Word): Option<KeyRange> {
    Nearest(Ordered(a.leaves), 0, hkey)
  }

  /** None when the operation fails: an unhashable key or value, a full trie, or a malformed state. */
  function PlanOf(h: Hash, m: Mode, a: Abs, op: Op): Option<Plan> {
    if !Hashable(op.key) || NearestTo(a, h(op.key)).None? then None
    else
      var hkey, near := h(op.key), NearestTo(a, h(op.key)).value;
      match op
      case ReadOp(_) => Some(Plan([], []))
      case PutOp(_, value) =>
        if !Hashable(value) then None
        else if near.center.Some? then
          var idx := near.center.value.leafIndex;
          if idx in a.slots then Some(Plan(ExistingSteps(h, m, a, idx, hkey, value), [idx])) else None
        else if near.left in a.slots && near.right in a.slots && a.free < INDEX_LIMIT then
          Some(Plan(FreshSteps(h, m, a, near, hkey, value), [near.left, a.free, near.right]))
        else None
      case RemoveOp(_) =>
        if near.center.None? then Some(Plan([], []))
        else
          var idx := near.center.value.leafIndex;
          if near.left in a.slots && near.right in a.slots && idx in a.slots && near.right != idx
          then Some(Plan(RemoveSteps(m, a, near, idx, hkey), [near.left, idx, near.right]))
          else None
  }

  /** Runs one operation; `read` leaves the state alone. */
  function RunOp(h: Hash, m: Mode, st: State, op: Op): Out {
    match op
    case ReadOp(key) =>
      var r := Read(h, st, key);
      if r.Success? then Ok(st) else Err(st, r.error)
    case PutOp(key, value) => Put(h, m, st, key, value)
    case RemoveOp(key) => Remove(h, m, st, key)
  }

  ghost predicate PlanReady(h: Hash, s: Store, a: Abs, p: Plan) {
    && |p.touched| <= |p.steps|
    && forall k | 0 <= k < |p.touched| ::
         p.touched[k] < INDEX_LIMIT && Ready(h, s, p.touched[k], a, Before(a, p.steps, k))
  }

  /** What an answer about the nearest keys must get right for an operation: the entry at the key, and
      the neighbours where they are used. Reading or overwriting a present key does not use them. */
  predicate Answers(answer: Option<KeyRange>, truth: Option<KeyRange>, op: Op) {
    answer == truth ||
    (&& answer.Some? && truth.Some? && !op.RemoveOp?
     && answer.value.center == truth.value.center && answer.value.center.Some?)
  }

  /** Any operation, on any store that resolves the paths its plan touches, is its plan. */
  lemma OpReaches(h: Hash, m: Mode, st: State, a: Abs, op: Op, inUse: iset<Bytes>)
    requires Sim(h, st, a, inUse) && PlanOf(h, m, a, op).Some?
    requires PlanReady(h, st.store, a, PlanOf(h, m, a, op).value)
    requires StepsInUse(h, PlanOf(h, m, a, op).value.steps, inUse)
    requires Answers(Nearest(st.index, st.root, h(op.key)), NearestTo(a, h(op.key)), op)
    ensures Reaches(h, st, a, RunOp(h, m, st, op), PlanOf(h, m, a, op).value.steps, inUse)
  {
    hide PutFresh, PutExisting, RemoveExisting, PathIn, Canon, FreshSteps, ExistingSteps, RemoveSteps, Sound,
      Reaches, AbsInUse, Nearest, NearestTo, StepsInUse, Put;
    var p := PlanOf(h, m, a, op).value;
    var near := NearestTo(a, h(op.key)).value;
    if p.touched == [] {
      ReachesNothing(h, st, a, inUse);
    } else {
      assert Ready(h, st.store, p.touched[0], a, Before(a, p.steps, 0));
      if op.PutOp? {
        if near.center.Some? {
          PutExistingReaches(h, m, st, a, near.center.value.leafIndex, h(op.key), op.value, inUse);
        } else {
          assert Ready(h, st.store, p.touched[1], a, Before(a, p.steps, 1));
          assert Ready(h, st.store, p.touched[2], a, Before(a, p.steps, 2));
          PutFreshReaches(h, m, st, a, near, h(op.key), op.value, inUse);
        }
        PutEnds(h, m, st, a, op, inUse);
      } else {
        assert Ready(h, st.store, p.touched[1], a, Before(a, p.steps, 1));
        assert Ready(h, st.store, p.touched[2], a, Before(a, p.steps, 2));
        RemoveExistingReaches(h, m, st, a, near, near.center.value.leafIndex, h(op.key), inUse);
      }
    }
  }

  /** The closing sub-root lookup of `put` succeeds. */
  lemma PutEnds(h: Hash, m: Mode, st: State, a: Abs, op: Op, inUse: iset<Bytes>)
    requires op.PutOp? && Sim(h, st, a, inUse) && PlanOf(h, m, a, op).Some?
    requires Answers(Nearest(st.index, st.root, h(op.key)), NearestTo(a, h(op.key)), op)
    requires var p, near := PlanOf(h, m, a, op).value, NearestTo(a, h(op.key)).value;
             Reaches(h, st, a,
               if near.center.None? then PutFresh(h, m, st, near, h(op.key), op.value)
               else PutExisting(h, m, st, near.center.value.leafIndex, h(op.key), op.value), p.steps, inUse)
    ensures Reaches(h, st, a, RunOp(h, m, st, op), PlanOf(h, m, a, op).value.steps, inUse)
  {
    hide PutFresh, PutExisting, LeafIn, Canon, Reaches, FreshSteps, ExistingSteps, Sound, Nearest, NearestTo;
    var p, near := PlanOf(h, m, a, op).value, NearestTo(a, h(op.key)).value;
    CounterIsFree(h, st.store, a.free, Enc(a.slots));
    var out := if near.center.None? then PutFresh(h, m, st, near, h(op.key), op.value)
               else PutExisting(h, m, st, near.center.value.leafIndex, h(op.key), op.value);
    ReachesEnds(h, st, a, out, p.steps, inUse);
    var a' := LastOf(a, p.steps);
    CounterIsFree(h, out.st.store, a'.free, Enc(a'.slots));
  }
}
