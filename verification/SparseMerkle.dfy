/** The trie under its top node: the free counter on the left, the forty-level tree on the right. */
module SparseMerkle {
  import opened Words
  import opened LeafPaths
  import opened Nodes
  import opened MerkleTree

  function SubRoot(h: Hash, s: Store, root: Word): Result<Word, Error> {
    match Lookup(h, s, root)
    case None => Failure(RootNodeNotFound)
    case Some(n) => if n.Branch? then Success(n.right) else Failure(RootNotBranch)
  }

  /** The low 64 bits of the top node's left half. */
  function NextFreeNode(h: Hash, s: Store, root: Word): Result<U64, Error> {
    match Lookup(h, s, root)
    case None => Failure(RootNodeNotFound)
    case Some(n) => if n.Branch? then Success(n.left % TWO_TO_64) else Failure(RootNotBranch)
  }

  function SetNextFree(h: Hash, s: Store, root: Word, free: U64): Update {
    match SubRoot(h, s, root)
    case Failure(e) => Failed(e)
    case Success(sub) => DbAdd(h, s, TopNode(free, sub))
  }

  /** Without the root node, or with a leaf in its place, the counter can be neither read nor moved. */
  lemma RootErrors(h: Hash, s: Store, root: Word, free: U64)
    requires Lookup(h, s, root).None? || !Lookup(h, s, root).value.Branch?
    ensures var e := if Lookup(h, s, root).None? then RootNodeNotFound else RootNotBranch;
            && SubRoot(h, s, root) == Failure(e) && NextFreeNode(h, s, root) == Failure(e)
            && SetNextFree(h, s, root, free) == Failed(e)
  {
    hide Lookup;
  }

  // ----- what a store shows under a top root -----

  function CanonTop(h: Hash, free: U64, slots: Slots): Node {
    TopNode(free, Canon(h, ZK_TRIE_DEPTH, 0, slots))
  }

  function TopRoot(h: Hash, free: U64, slots: Slots): Digest {
    NodeHash(h, CanonTop(h, free, slots))
  }

  ghost predicate TopIn(h: Hash, s: Store, free: U64, slots: Slots) {
    Lookup(h, s, TopRoot(h, free, slots)) == Some(CanonTop(h, free, slots))
  }

  ghost predicate LeafIn(h: Hash, s: Store, idx: nat, slots: Slots) {
    idx < INDEX_LIMIT && PathIn(h, s, ZK_TRIE_DEPTH, idx, slots)
  }

  /** The store resolves the whole tree. */
  ghost predicate Full(h: Hash, s: Store, free: U64, slots: Slots) {
    TopIn(h, s, free, slots) && forall idx: nat | idx < INDEX_LIMIT :: LeafIn(h, s, idx, slots)
  }

  /** Every byte string that hashing these contents takes: the tree and its top node. */
  ghost predicate ContentsInUse(h: Hash, free: U64, slots: Slots, inUse: iset<Bytes>) {
    && Preimage(CanonTop(h, free, slots)) in inUse
    && TreeInUse(h, ZK_TRIE_DEPTH, 0, slots, inUse)
  }

  /** `u` is the top root for the new slots, on a sound store that grew and resolves the path to `idx`. */
  ghost predicate TopRewritten(h: Hash, s: Store, u: Update, free: U64, idx: nat, slots: Slots,
                               inUse: iset<Bytes>)
  {
    && u.Updated? && u.digest == TopRoot(h, free, slots)
    && Sound(h, u.store, inUse) && Extends(h, s, u.store)
    && TopIn(h, u.store, free, slots) && LeafIn(h, u.store, idx, slots)
  }

  lemma TopRewrittenUp(h: Hash, s: Store, u: Update, free: U64, idx: nat, before: Slots,
                       slots: Slots, inUse: iset<Bytes>)
    requires idx < INDEX_LIMIT && Rewritten(h, s, u, ZK_TRIE_DEPTH, idx, slots, inUse)
    requires Preimage(CanonTop(h, free, slots)) in inUse
    ensures TopRewritten(h, s, Rebuild(h, CanonTop(h, free, before), SUB_TRIE_ROOT_PATH, u),
                         free, idx, slots, inUse)
  {
    hide Sound, Canon, EmptyTable;
    IndexHasPath(idx);
    var n := CanonTop(h, free, slots);
    InsertKeeps(h, u.store, n, inUse);
    PathInGrows(h, u.store, Insert(h, u.store, n), ZK_TRIE_DEPTH, idx, slots);
  }

  lemma AddLeafAtTop(h: Hash, s: Store, free: U64, slots: Slots, idx: nat, value: Bytes)
    requires TopIn(h, s, free, slots)
    ensures AddLeaf(h, s, 0, TopRoot(h, free, slots), LeafPath(idx), value)
         == Rebuild(h, CanonTop(h, free, slots), SUB_TRIE_ROOT_PATH,
              AddLeaf(h, s, 1, Canon(h, ZK_TRIE_DEPTH, 0, slots), LeafPath(idx), value))
  {
  }

  lemma RemoveLeafAtTop(h: Hash, s: Store, free: U64, slots: Slots, idx: nat)
    requires TopIn(h, s, free, slots)
    ensures RemoveLeaf(h, s, 0, TopRoot(h, free, slots), LeafPath(idx))
         == Rebuild(h, CanonTop(h, free, slots), SUB_TRIE_ROOT_PATH,
              RemoveLeaf(h, s, 1, Canon(h, ZK_TRIE_DEPTH, 0, slots), LeafPath(idx)))
  {
  }

  /** `put` needs only the path it writes; it yields the canonical root of the updated slots and
      keeps the free counter. */
  lemma PutIsUpdate(h: Hash, s: Store, free: U64, slots: Slots, idx: nat, value: Bytes, inUse: iset<Bytes>)
    requires TopIn(h, s, free, slots) && LeafIn(h, s, idx, slots) && Hashable(value) && Sound(h, s, inUse)
    requires ContentsInUse(h, free, slots[idx := value], inUse) && Sized(slots[idx := value])
    ensures TopRewritten(h, s, AddLeaf(h, s, 0, TopRoot(h, free, slots), LeafPath(idx), value),
                         free, idx, slots[idx := value], inUse)
  {
    hide Sound, TreeInUse, Sized, NodeInUse, AddLeaf, Canon;
    IndexHasPath(idx);
    AddLeafAtTop(h, s, free, slots, idx, value);
    TreePathInUse(h, ZK_TRIE_DEPTH, idx, slots[idx := value], inUse);
    AddLeafIsUpdate(h, s, ZK_TRIE_DEPTH, idx, slots, value, inUse);
    TopRewrittenUp(h, s, AddLeaf(h, s, 1, Canon(h, ZK_TRIE_DEPTH, 0, slots), LeafPath(idx), value),
      free, idx, slots, slots[idx := value], inUse);
  }

  lemma RemoveIsUpdate(h: Hash, s: Store, free: U64, slots: Slots, idx: nat, inUse: iset<Bytes>)
    requires TopIn(h, s, free, slots) && LeafIn(h, s, idx, slots) && Sound(h, s, inUse)
    requires ContentsInUse(h, free, slots - {idx}, inUse) && Sized(slots - {idx})
    ensures TopRewritten(h, s, RemoveLeaf(h, s, 0, TopRoot(h, free, slots), LeafPath(idx)),
                         free, idx, slots - {idx}, inUse)
  {
    hide Sound, TreeInUse, Sized, NodeInUse, RemoveLeaf, Canon;
    IndexHasPath(idx);
    RemoveLeafAtTop(h, s, free, slots, idx);
    TreePathInUse(h, ZK_TRIE_DEPTH, idx, slots - {idx}, inUse);
    RemoveLeafIsUpdate(h, s, ZK_TRIE_DEPTH, idx, slots, inUse);
    TopRewrittenUp(h, s, RemoveLeaf(h, s, 1, Canon(h, ZK_TRIE_DEPTH, 0, slots), LeafPath(idx)),
      free, idx, slots, slots - {idx}, inUse);
  }

  /** Reading a resolved path returns the slot's leaf; the counter is the one in the top node. */
  lemma GetIsSlot(h: Hash, s: Store, free: U64, slots: Slots, idx: nat)
    requires TopIn(h, s, free, slots) && LeafIn(h, s, idx, slots)
    ensures GetNode(h, s, 0, TopRoot(h, free, slots), LeafPath(idx))
         == Success(if idx in slots then Some(Leaf([VALUE_LEAF], slots[idx])) else None)
  {
    IndexHasPath(idx);
    GetNodeIsSlot(h, s, ZK_TRIE_DEPTH, idx, slots);
    GetAtTop(h, s, free, slots, idx);
  }

  lemma CounterIsFree(h: Hash, s: Store, free: U64, slots: Slots)
    requires TopIn(h, s, free, slots)
    ensures NextFreeNode(h, s, TopRoot(h, free, slots)) == Success(free)
    ensures SubRoot(h, s, TopRoot(h, free, slots)) == Success(Canon(h, ZK_TRIE_DEPTH, 0, slots))
  {
  }

  /** A resolved leaf path survives growth and a rewrite of another slot. */
  lemma LeafInAfter(h: Hash, s: Store, s': Store, idx: nat, other: nat, a: Slots, b: Slots)
    requires AgreeOff(idx, a, b) && Extends(h, s, s')
    requires LeafIn(h, s', idx, b) && LeafIn(h, s, other, a)
    ensures LeafIn(h, s', other, b)
  {
    OtherPath(h, s, s', ZK_TRIE_DEPTH, idx, other, a, b);
  }

  lemma LeafInGrows(h: Hash, s: Store, s': Store, idx: nat, slots: Slots)
    requires LeafIn(h, s, idx, slots) && Extends(h, s, s')
    ensures LeafIn(h, s', idx, slots)
  {
    PathInGrows(h, s, s', ZK_TRIE_DEPTH, idx, slots);
  }

  /** A store that grows goes on showing whatever it showed in full. */
  lemma FullGrows(h: Hash, s: Store, s': Store, free: U64, slots: Slots)
    requires Full(h, s, free, slots) && Extends(h, s, s')
    ensures Full(h, s', free, slots)
  {
    hide PathIn, Canon;
    forall j: nat | j < INDEX_LIMIT
      ensures LeafIn(h, s', j, slots)
    {
      assert LeafIn(h, s, j, slots);
      LeafInGrows(h, s, s', j, slots);
    }
  }

  lemma FullAfter(h: Hash, s: Store, u: Update, free: U64, idx: nat, a: Slots, b: Slots, inUse: iset<Bytes>)
    requires Full(h, s, free, a) && AgreeOff(idx, a, b)
    requires TopRewritten(h, s, u, free, idx, b, inUse)
    ensures Full(h, u.store, free, b) && Full(h, u.store, free, a)
  {
    hide Sound, PathIn, Canon, CanonTop;
    forall j: nat | j < INDEX_LIMIT
      ensures LeafIn(h, u.store, j, b) && LeafIn(h, u.store, j, a)
    {
      assert LeafIn(h, s, j, a);
      LeafInAfter(h, s, u.store, idx, j, a, b);
      LeafInGrows(h, s, u.store, j, a);
    }
  }

  /** What one root shows: every leaf path reads as its slot, and the counter is `free`. */
  ghost predicate Shows(h: Hash, s: Store, root: Word, free: U64, slots: Slots) {
    && NextFreeNode(h, s, root) == Success(free)
    && forall j: nat | j < INDEX_LIMIT ::
         GetNode(h, s, 0, root, LeafPath(j)) == Success(LeafAt(slots, j))
  }

  function LeafAt(slots: Slots, j: nat): Option<Node> {
    if j in slots then Some(Leaf([VALUE_LEAF], slots[j])) else None
  }

  lemma FullShows(h: Hash, s: Store, free: U64, slots: Slots)
    requires Full(h, s, free, slots)
    ensures Shows(h, s, TopRoot(h, free, slots), free, slots)
  {
    CounterIsFree(h, s, free, slots);
    forall j: nat | j < INDEX_LIMIT
      ensures GetNode(h, s, 0, TopRoot(h, free, slots), LeafPath(j))
           == Success(LeafAt(slots, j))
    {
      assert LeafIn(h, s, j, slots);
      GetIsSlot(h, s, free, slots, j);
    }
  }

  /** Put, then get: over a sound, fully resolved store the new root shows the new leaf at `idx` and
      every other leaf as before, the counter is unchanged, the old root still shows the old contents,
      and the recursion never reports an error. */
  lemma PutGetFramePersist(h: Hash, s: Store, free: U64, slots: Slots, idx: nat, value: Bytes,
                           inUse: iset<Bytes>)
    requires Full(h, s, free, slots) && Sound(h, s, inUse) && idx < INDEX_LIMIT && Hashable(value)
    requires ContentsInUse(h, free, slots[idx := value], inUse) && Sized(slots[idx := value])
    ensures var root := TopRoot(h, free, slots);
            var u := AddLeaf(h, s, 0, root, LeafPath(idx), value);
            && u.Updated? && Full(h, u.store, free, slots[idx := value]) && Sound(h, u.store, inUse)
            && Shows(h, u.store, u.digest, free, slots[idx := value])
            && Shows(h, u.store, root, free, slots)
  {
    hide Sound, ContentsInUse, Sized, AddLeaf;
    assert LeafIn(h, s, idx, slots);
    PutIsUpdate(h, s, free, slots, idx, value, inUse);
    var u := AddLeaf(h, s, 0, TopRoot(h, free, slots), LeafPath(idx), value);
    FullAfter(h, s, u, free, idx, slots, slots[idx := value], inUse);
    FullShows(h, u.store, free, slots[idx := value]);
    FullShows(h, u.store, free, slots);
  }

  /** The same for removal. */
  lemma RemoveGetFramePersist(h: Hash, s: Store, free: U64, slots: Slots, idx: nat, inUse: iset<Bytes>)
    requires Full(h, s, free, slots) && Sound(h, s, inUse) && idx < INDEX_LIMIT
    requires ContentsInUse(h, free, slots - {idx}, inUse) && Sized(slots - {idx})
    ensures var root := TopRoot(h, free, slots);
            var u := RemoveLeaf(h, s, 0, root, LeafPath(idx));
            && u.Updated? && Full(h, u.store, free, slots - {idx}) && Sound(h, u.store, inUse)
            && Shows(h, u.store, u.digest, free, slots - {idx})
            && Shows(h, u.store, root, free, slots)
  {
    hide Sound, ContentsInUse, Sized, RemoveLeaf;
    assert LeafIn(h, s, idx, slots);
    RemoveIsUpdate(h, s, free, slots, idx, inUse);
    var u := RemoveLeaf(h, s, 0, TopRoot(h, free, slots), LeafPath(idx));
    FullAfter(h, s, u, free, idx, slots, slots - {idx}, inUse);
    FullShows(h, u.store, free, slots - {idx});
    FullShows(h, u.store, free, slots);
  }

  /** Moving the counter keeps the tree. */
  lemma SetNextFreeIsUpdate(h: Hash, s: Store, free: U64, free': U64, slots: Slots, inUse: iset<Bytes>)
    requires TopIn(h, s, free, slots) && Sound(h, s, inUse)
    requires Preimage(CanonTop(h, free', slots)) in inUse
    ensures var u := SetNextFree(h, s, TopRoot(h, free, slots), free');
            && u.Updated? && u.digest == TopRoot(h, free', slots)
            && Sound(h, u.store, inUse) && Extends(h, s, u.store) && TopIn(h, u.store, free', slots)
  {
    hide Sound, Canon, EmptyTable;
    CounterIsFree(h, s, free, slots);
    InsertKeeps(h, s, CanonTop(h, free', slots), inUse);
  }

  /** Under the top node the same: where the path is not resolved to the bottom, each operation fails with
      NodeNotFound. */
  lemma OffPathFails(h: Hash, s: Store, free: U64, slots: Slots, e: nat, idx: nat, value: Bytes)
    requires TopIn(h, s, free, slots) && idx < INDEX_LIMIT && e <= ZK_TRIE_DEPTH
    requires Lookup(h, s, Canon(h, e, Halve(e, idx), slots)).None?
    requires forall f: nat | e < f <= ZK_TRIE_DEPTH :: NodeIn(h, s, f, idx, slots)
    ensures AddLeaf(h, s, 0, TopRoot(h, free, slots), LeafPath(idx), value) == Failed(NodeNotFound)
    ensures RemoveLeaf(h, s, 0, TopRoot(h, free, slots), LeafPath(idx)) == Failed(NodeNotFound)
    ensures GetNode(h, s, 0, TopRoot(h, free, slots), LeafPath(idx)) == Failure(NodeNotFound)
  {
    IndexHasPath(idx);
    MissingIsNoticed(h, s, ZK_TRIE_DEPTH, e, idx, slots, value);
    AddLeafAtTop(h, s, free, slots, idx, value);
    RemoveLeafAtTop(h, s, free, slots, idx);
    GetAtTop(h, s, free, slots, idx);
    hide AddLeaf, RemoveLeaf, GetNode, Canon, LeafPath, Halve;
  }

  lemma GetAtTop(h: Hash, s: Store, free: U64, slots: Slots, idx: nat)
    requires TopIn(h, s, free, slots)
    ensures GetNode(h, s, 0, TopRoot(h, free, slots), LeafPath(idx))
         == GetNode(h, s, 1, Canon(h, ZK_TRIE_DEPTH, 0, slots), LeafPath(idx))
  {
  }

  // ----- the starting point -----

  /** With no leaves every canonical node is the built-in one of its height. */
  lemma {:induction false} CanonOfNothing(h: Hash, d: nat, lo: nat)
    ensures CanonNode(h, d, lo, map[]) == EmptyNode(h, d) && Canon(h, d, lo, map[]) == EmptyRoot(h, d)
    decreases d
  {
    if d > 0 {
      CanonOfNothing(h, d - 1, 2 * lo);
      CanonOfNothing(h, d - 1, 2 * lo + 1);
    }
  }

  /** Even an empty store resolves the empty tree, from the built-in table. */
  lemma EmptyStoreIsFull(h: Hash, s: Store, inUse: iset<Bytes>)
    requires Sound(h, s, inUse)
    ensures NodeHash(h, EmptyTop(h)) == TopRoot(h, 0, map[]) && Full(h, s, 0, map[])
  {
    hide EmptyTableClean, PathIn, TopIn, EmptyTop, EmptyTable, TopRoot, EmptyInUse, CollisionFree, NodeInUse;
    EmptyIsSound(h, inUse);
    hide Sound;
    EmptyTopIn(h, s);
    forall idx: nat | idx < INDEX_LIMIT
      ensures LeafIn(h, s, idx, map[])
    {
      EmptyPath(h, s, idx);
    }
  }

  lemma EmptyTopIn(h: Hash, s: Store)
    ensures EmptyTop(h) == CanonTop(h, 0, map[]) && NodeHash(h, EmptyTop(h)) == TopRoot(h, 0, map[])
    ensures TopIn(h, s, 0, map[])
  {
    hide EmptyNodes, Canon, EmptyRoot, NodeHash;
    CanonOfNothing(h, TreeDepth(), 0);
  }

  lemma EmptyPath(h: Hash, s: Store, idx: nat)
    requires EmptyTableClean(h)
    ensures PathIn(h, s, ZK_TRIE_DEPTH, idx, map[])
  {
    hide EmptyTable;
    forall e: nat | e <= ZK_TRIE_DEPTH
      ensures NodeIn(h, s, e, idx, map[])
    {
      CanonOfNothing(h, e, Halve(e, idx));
    }
  }

  // ----- canonicity -----

  /** The top root is a function of counter and slots by definition; without collisions it also
      determines them. */
  lemma TopRootDetermines(h: Hash, free: U64, a: Slots, free': U64, b: Slots, inUse: iset<Bytes>)
    requires CollisionFree(h, inUse)
    requires Preimage(CanonTop(h, free, a)) in inUse && Preimage(CanonTop(h, free', b)) in inUse
    requires TreeInUse(h, ZK_TRIE_DEPTH, 0, a, inUse) && TreeInUse(h, ZK_TRIE_DEPTH, 0, b, inUse)
    requires forall i | i in a || i in b :: i < INDEX_LIMIT
    requires TopRoot(h, free, a) == TopRoot(h, free', b)
    ensures free == free' && a == b
  {
    Be32PairInjective(free, Canon(h, ZK_TRIE_DEPTH, 0, a), free', Canon(h, ZK_TRIE_DEPTH, 0, b));
    RootDeterminesSlots(h, ZK_TRIE_DEPTH, 0, a, b, inUse);
    forall i: nat
      ensures (i in a <==> i in b) && (i in a ==> a[i] == b[i])
    {
      IndexHasPath(i);
    }
  }
}
