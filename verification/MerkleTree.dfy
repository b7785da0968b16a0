/** The content-addressed node store, the recursive tree operations on it, and the canonical tree
    they are measured against. */
module MerkleTree {
  import opened Words
  import opened LeafPaths
  import opened Nodes

  // ----- the empty tree -----

  function EmptyNode(h: Hash, d: nat): Node {
    if d == 0 then EmptyLeaf else Branch(EmptyRoot(h, d - 1), EmptyRoot(h, d - 1))
  }

  function EmptyRoot(h: Hash, d: nat): Digest
    decreases d, h
  {
    if d == 0 then 0 else h(Be32(EmptyRoot(h, d - 1)) + Be32(EmptyRoot(h, d - 1)))
  }

  function EmptyNodes(h: Hash, d: nat): map<Word, Node>
    decreases d, h
  {
    if d == 0 then map[0 := EmptyLeaf]
    else EmptyNodes(h, d - 1)[EmptyRoot(h, d) := EmptyNode(h, d)]
  }

  function TreeDepth(): nat { ZK_TRIE_DEPTH }

  function EmptyTop(h: Hash): Node {
    TopNode(0, EmptyRoot(h, TreeDepth()))
  }

  /** The built-in nodes every lookup consults first. */
  function EmptyTable(h: Hash): map<Word, Node> {
    EmptyNodes(h, TreeDepth())[NodeHash(h, EmptyTop(h)) := EmptyTop(h)]
  }

  /** No built-in node displaced another. */
  ghost predicate EmptyTableClean(h: Hash) {
    forall d: nat | d <= ZK_TRIE_DEPTH ::
      EmptyRoot(h, d) in EmptyTable(h) && EmptyTable(h)[EmptyRoot(h, d)] == EmptyNode(h, d)
  }

  /** Builds the table bottom-up, each level hashing the one below with itself. */
  method InitWorldState(h: Hash) returns (top: Node, table: map<Word, Node>)
    ensures top == EmptyTop(h) && table == EmptyTable(h)
  {
    var node := EmptyLeaf;
    table := map[NodeHash(h, node) := node];
    for i := 0 to ZK_TRIE_DEPTH
      invariant node == EmptyNode(h, i) && NodeHash(h, node) == EmptyRoot(h, i)
      invariant table == EmptyNodes(h, i)
    {
      node := Branch(NodeHash(h, node), NodeHash(h, node));
      table := table[NodeHash(h, node) := node];
    }
    top := TopNode(0, NodeHash(h, node));
    table := table[NodeHash(h, top) := top];
  }

  // ----- the store -----

  /** Nodes by digest. A write replaces whatever was filed under the same digest. */
  type Store = map<Word, Node>

  function Lookup(h: Hash, s: Store, key: Word): Option<Node> {
    if key in EmptyTable(h) then Some(EmptyTable(h)[key])
    else if key in s then Some(s[key])
    else None
  }

  function Insert(h: Hash, s: Store, n: Node): Store {
    s[NodeHash(h, n) := n]
  }

  /** Whatever `s` resolves, `s'` resolves to the same node. */
  ghost predicate Extends(h: Hash, s: Store, s': Store) {
    forall key: Word {:trigger Lookup(h, s', key)} {:trigger Lookup(h, s, key)} ::
      Lookup(h, s, key).Some? ==> Lookup(h, s', key) == Lookup(h, s, key)
  }

  // ----- stores without collisions -----

  /** The built-in nodes are hashed from bytes in use. */
  ghost predicate EmptyInUse(h: Hash, inUse: iset<Bytes>) {
    (forall d: nat | d <= ZK_TRIE_DEPTH :: NodeInUse(EmptyNode(h, d), inUse)) && NodeInUse(EmptyTop(h), inUse)
  }

  ghost predicate Filed(h: Hash, key: Word, n: Node, inUse: iset<Bytes>) {
    NodeHash(h, n) == key && NodeInUse(n, inUse)
  }

  /** Every node the store resolves is filed under its own digest and was hashed from bytes in use,
      among which no two collide. */
  ghost predicate Sound(h: Hash, s: Store, inUse: iset<Bytes>) {
    && CollisionFree(h, inUse) && EmptyInUse(h, inUse)
    && forall key: Word | Lookup(h, s, key).Some? :: Filed(h, key, Lookup(h, s, key).value, inUse)
  }

  /** Writing a node in use displaces nothing: the store only grows. */
  lemma InsertKeeps(h: Hash, s: Store, n: Node, inUse: iset<Bytes>)
    requires Sound(h, s, inUse) && NodeInUse(n, inUse)
    ensures Sound(h, Insert(h, s, n), inUse) && Extends(h, s, Insert(h, s, n))
    ensures Lookup(h, Insert(h, s, n), NodeHash(h, n)) == Some(n)
  {
    hide EmptyTable, NodeInUse, EmptyInUse, CollisionFree;
    var key := NodeHash(h, n);
    if Lookup(h, s, key).Some? {
      assert Filed(h, key, Lookup(h, s, key).value, inUse);
      SameDigestSameNode(h, Lookup(h, s, key).value, n, inUse);
    }
    forall k: Word | Lookup(h, Insert(h, s, n), k).Some?
      ensures Filed(h, k, Lookup(h, Insert(h, s, n), k).value, inUse)
    {
      if k != key {
        assert Lookup(h, Insert(h, s, n), k) == Lookup(h, s, k);
      }
    }
  }

  /** What goes wrong at the sizes `LeafSized` excludes: a leaf with a branch's bytes takes its place. */
  lemma LeafDisplacesBranch(h: Hash, s: Store, l: Word, r: Word)
    ensures
      var branch, leaf := Branch(l, r), Leaf([VALUE_LEAF], Be32(l) + Be32(r));
      var key := NodeHash(h, branch);
      && key == NodeHash(h, leaf)
      && (key !in EmptyTable(h) ==>
        && Lookup(h, Insert(h, s, branch), key) == Some(branch)
        && Lookup(h, Insert(h, Insert(h, s, branch), leaf), key) == Some(leaf))
  {
    hide EmptyTable;
  }

  /** A built-in node is found whatever was stored under its digest. */
  lemma BuiltInStays(h: Hash, s: Store, n: Node, key: Word)
    requires key in EmptyTable(h)
    ensures Lookup(h, Insert(h, s, n), key) == Some(EmptyTable(h)[key])
  {
    hide EmptyTable;
  }

  lemma {:induction false} EmptyNodesFiled(h: Hash, d: nat, inUse: iset<Bytes>)
    requires d <= ZK_TRIE_DEPTH && EmptyInUse(h, inUse)
    ensures forall key | key in EmptyNodes(h, d) :: Filed(h, key, EmptyNodes(h, d)[key], inUse)
    ensures forall e: nat | e <= d :: EmptyRoot(h, e) in EmptyNodes(h, d)
    decreases d, h
  {
    hide NodeInUse;
    assert NodeInUse(EmptyNode(h, d), inUse);
    if d > 0 {
      EmptyNodesFiled(h, d - 1, inUse);
    }
  }

  /** The built-in table alone is sound, and no built-in node displaced another in it. */
  lemma EmptyIsSound(h: Hash, inUse: iset<Bytes>)
    requires CollisionFree(h, inUse) && EmptyInUse(h, inUse)
    ensures Sound(h, map[], inUse) && EmptyTableClean(h)
  {
    hide NodeInUse, CollisionFree, EmptyNodes, EmptyRoot, EmptyNode, EmptyTop;
    EmptyNodesFiled(h, ZK_TRIE_DEPTH, inUse);
    assert forall key | key in EmptyTable(h) :: Filed(h, key, EmptyTable(h)[key], inUse);
    forall d: nat | d <= ZK_TRIE_DEPTH
      ensures EmptyRoot(h, d) in EmptyTable(h) && EmptyTable(h)[EmptyRoot(h, d)] == EmptyNode(h, d)
    {
      assert NodeInUse(EmptyNode(h, d), inUse);
      EmptyRootIsHash(h, d);
      SameDigestSameNode(h, EmptyTable(h)[EmptyRoot(h, d)], EmptyNode(h, d), inUse);
    }
  }

  lemma EmptyRootIsHash(h: Hash, d: nat)
    ensures NodeHash(h, EmptyNode(h, d)) == EmptyRoot(h, d)
  {
  }

  // ----- tree operations -----

  /** The outcome of a tree operation: the grown store and the digest of the updated node. */
  datatype Update = Updated(store: Store, digest: Word) | Failed(error: Error)

  function AddLeaf(h: Hash, s: Store, lvl: nat, current: Word, path: Bytes, value: Bytes): Update
    decreases ZK_TRIE_DEPTH + 2 - lvl, path
  {
    if lvl >= ZK_TRIE_DEPTH + 2 then Failed(ReachedMaxLevel)
    else match Lookup(h, s, current)
      case None => Failed(NodeNotFound)
      case Some(n) =>
        if lvl > |path| then Failed(Panic)
        else match n
          case Branch(l, r) =>
            if lvl == |path| || path[lvl] > 1 then Failed(Panic)
            else Rebuild(h, n, path[lvl], AddLeaf(h, s, lvl + 1, Child(n, path[lvl]), path, value))
          case Leaf(p, _) =>
            if PrefixLen(p, path[lvl..]) != |p| then Failed(PathNotAllow)
            else AddValue(h, s, path[lvl..], value)
          case EmptyLeaf => AddValue(h, s, path[lvl..], value)
          case NextFree(p, _) =>
            if PrefixLen(p, path[lvl..]) != |p| then Failed(Panic)
            else AddValue(h, s, path[lvl..], value)
  }

  function DbAdd(h: Hash, s: Store, n: Node): Update {
    Updated(Insert(h, s, n), NodeHash(h, n))
  }

  function AddValue(h: Hash, s: Store, path: Bytes, value: Bytes): Update {
    if !Buildable(MakeLeaf(path, value)) then Failed(Panic)
    else DbAdd(h, s, MakeLeaf(path, value))
  }

  /** Stores the branch `n` with one child replaced by the outcome below it. */
  function Rebuild(h: Hash, n: Node, bit: Byte, below: Update): Update
    requires n.Branch?
  {
    match below
    case Failed(_) => below
    case Updated(s, child) => DbAdd(h, s, NewReplace(n, bit, child))
  }

  function RemoveLeaf(h: Hash, s: Store, lvl: nat, current: Word, path: Bytes): Update
    decreases ZK_TRIE_DEPTH + 2 - lvl, path
  {
    if lvl >= ZK_TRIE_DEPTH + 2 then Failed(ReachedMaxLevel)
    else match Lookup(h, s, current)
      case None => Failed(NodeNotFound)
      case Some(n) =>
        if n.Branch? then
          if lvl >= |path| || path[lvl] > 1 then Failed(Panic)
          else Rebuild(h, n, path[lvl], RemoveLeaf(h, s, lvl + 1, Child(n, path[lvl]), path))
        else Updated(s, NodeHash(h, EmptyLeaf))
  }

  /** Follows `path` from level `lvl`; any non-zero step goes right. */
  function GetNode(h: Hash, s: Store, lvl: nat, current: Word, path: Bytes)
    : Result<Option<Node>, Error>
    decreases ZK_TRIE_DEPTH + 2 - lvl, path
  {
    if lvl >= ZK_TRIE_DEPTH + 2 then Failure(ReachedMaxLevel)
    else match Lookup(h, s, current)
      case None => Failure(NodeNotFound)
      case Some(n) =>
        match n
        case Branch(l, r) =>
          if lvl >= |path| then Failure(Panic)
          else GetNode(h, s, lvl + 1, if path[lvl] == 0 then l else r, path)
        case EmptyLeaf => Success(None)
        case Leaf(p, _) =>
          if lvl > |path| then Failure(Panic)
          else Success(if p == path[lvl..] then Some(n) else None)
        case NextFree(p, _) =>
          if lvl > |path| || p != path[lvl..] then Failure(Panic)
          else Success(Some(n))
  }

  // ----- the canonical tree of a set of leaf slots -----

  type Slots = map<nat, Bytes>

  /** The node at height `d` and position `lo` when the leaf slots hold `slots`. */
  function CanonNode(h: Hash, d: nat, lo: nat, slots: Slots): Node
    decreases d, slots, 0
  {
    if d > 0 then Branch(Canon(h, d - 1, 2 * lo, slots), Canon(h, d - 1, 2 * lo + 1, slots))
    else if lo in slots then Leaf([VALUE_LEAF], slots[lo])
    else EmptyLeaf
  }

  function Canon(h: Hash, d: nat, lo: nat, slots: Slots): Digest
    decreases d, slots, 1
  {
    NodeHash(h, CanonNode(h, d, lo, slots))
  }

  /** The store resolves the ancestor of leaf `idx` at height `d`. */
  ghost predicate NodeIn(h: Hash, s: Store, d: nat, idx: nat, slots: Slots) {
    Lookup(h, s, Canon(h, d, Halve(d, idx), slots)) == Some(CanonNode(h, d, Halve(d, idx), slots))
  }

  /** The store resolves every ancestor of leaf `idx` up to height `d`. */
  ghost predicate PathIn(h: Hash, s: Store, d: nat, idx: nat, slots: Slots) {
    forall e: nat | e <= d :: NodeIn(h, s, e, idx, slots)
  }

  /** The two slot maps agree below position `lo` at height `d`. */
  ghost predicate SameUnder(d: nat, lo: nat, a: Slots, b: Slots) {
    forall i: nat {:trigger Halve(d, i)} | Halve(d, i) == lo ::
      (i in a <==> i in b) && (i in a ==> a[i] == b[i])
  }

  lemma SameUnderChildren(d: nat, lo: nat, a: Slots, b: Slots)
    requires d > 0 && SameUnder(d, lo, a, b)
    ensures SameUnder(d - 1, 2 * lo, a, b) && SameUnder(d - 1, 2 * lo + 1, a, b)
  {
    forall i: nat | Halve(d - 1, i) == 2 * lo || Halve(d - 1, i) == 2 * lo + 1
      ensures (i in a <==> i in b) && (i in a ==> a[i] == b[i])
    {
      HalveStep(d - 1, i);
    }
  }

  lemma {:induction false} CanonFrame(h: Hash, d: nat, lo: nat, a: Slots, b: Slots)
    requires SameUnder(d, lo, a, b)
    ensures CanonNode(h, d, lo, a) == CanonNode(h, d, lo, b)
    ensures Canon(h, d, lo, a) == Canon(h, d, lo, b)
    decreases d
  {
    if d > 0 {
      SameUnderChildren(d, lo, a, b);
      CanonFrame(h, d - 1, 2 * lo, a, b);
      CanonFrame(h, d - 1, 2 * lo + 1, a, b);
    } else {
      assert Halve(0, lo) == lo;
    }
  }

  /** The maps agree everywhere except perhaps at slot `i`. */
  ghost predicate AgreeOff(i: nat, a: Slots, b: Slots) {
    forall j: nat | j != i :: (j in a <==> j in b) && (j in a ==> a[j] == b[j])
  }

  /** Changing slot `idx` leaves every subtree alone that does not contain it. */
  lemma CanonElsewhere(h: Hash, d: nat, lo: nat, idx: nat, a: Slots, b: Slots)
    requires AgreeOff(idx, a, b) && Halve(d, idx) != lo
    ensures CanonNode(h, d, lo, a) == CanonNode(h, d, lo, b)
    ensures Canon(h, d, lo, a) == Canon(h, d, lo, b)
  {
    CanonFrame(h, d, lo, a, b);
  }

  /** A path stays resolved as the store grows. */
  lemma PathInGrows(h: Hash, s: Store, s': Store, d: nat, idx: nat, slots: Slots)
    requires PathIn(h, s, d, idx, slots) && Extends(h, s, s')
    ensures PathIn(h, s', d, idx, slots)
  {
    forall e: nat | e <= d
      ensures NodeIn(h, s', e, idx, slots)
    {
      assert NodeIn(h, s, e, idx, slots);
    }
  }

  /** After one path was rewritten for the new contents, every other resolved path still is. */
  lemma OtherPath(h: Hash, s: Store, s': Store, d: nat, idx: nat, other: nat, a: Slots, b: Slots)
    requires AgreeOff(idx, a, b) && Extends(h, s, s')
    requires PathIn(h, s', d, idx, b) && PathIn(h, s, d, other, a)
    ensures PathIn(h, s', d, other, b)
  {
    forall e: nat | e <= d
      ensures NodeIn(h, s', e, other, b)
    {
      if Halve(e, idx) == Halve(e, other) {
        assert NodeIn(h, s', e, idx, b);
      } else {
        assert NodeIn(h, s, e, other, a);
        CanonElsewhere(h, e, Halve(e, other), idx, a, b);
      }
    }
  }

  /** Replacing the child on the path gives the canonical node of the new contents. */
  lemma CanonReplace(h: Hash, d: nat, idx: nat, a: Slots, b: Slots)
    requires 1 <= d <= ZK_TRIE_DEPTH && AgreeOff(idx, a, b)
    ensures NewReplace(CanonNode(h, d, Halve(d, idx), a), LeafPath(idx)[ZK_TRIE_DEPTH + 1 - d],
                       Canon(h, d - 1, Halve(d - 1, idx), b))
         == CanonNode(h, d, Halve(d, idx), b)
  {
    PathByte(idx, d);
    var sibling := 2 * Halve(d, idx) + 1 - Halve(d - 1, idx) % 2;
    CanonElsewhere(h, d - 1, sibling, idx, a, b);
  }

  /** The nodes on the path of leaf `idx` up to height `d` are hashed from bytes in use. */
  ghost predicate PathInUse(h: Hash, d: nat, idx: nat, slots: Slots, inUse: iset<Bytes>) {
    forall e: nat | e <= d :: NodeInUse(CanonNode(h, e, Halve(e, idx), slots), inUse)
  }

  /** What a rewritten path gives the caller: the canonical root of the new contents, on a sound store
      that still shows everything it showed before. */
  ghost predicate Rewritten(h: Hash, s: Store, u: Update, d: nat, idx: nat, slots: Slots, inUse: iset<Bytes>) {
    && u.Updated? && u.digest == Canon(h, d, Halve(d, idx), slots)
    && Sound(h, u.store, inUse) && Extends(h, s, u.store) && PathIn(h, u.store, d, idx, slots)
  }

  /** Storing a node on top of a rewritten path. */
  lemma RewrittenUp(h: Hash, s: Store, u: Update, d: nat, idx: nat, before: Slots, slots: Slots, inUse: iset<Bytes>)
    requires 1 <= d <= ZK_TRIE_DEPTH && AgreeOff(idx, before, slots) && PathInUse(h, d, idx, slots, inUse)
    requires Rewritten(h, s, u, d - 1, idx, slots, inUse)
    ensures Rewritten(h, s, Rebuild(h, CanonNode(h, d, Halve(d, idx), before),
                                    LeafPath(idx)[ZK_TRIE_DEPTH + 1 - d], u), d, idx, slots, inUse)
  {
    hide PathIn, Extends, NodeIn, Lookup, LeafPath, NewReplace, CanonNode, NodeInUse, Sound;
    CanonReplace(h, d, idx, before, slots);
    InsertOnPath(h, s, u.store, d, idx, slots, inUse);
  }

  lemma InsertOnPath(h: Hash, s: Store, s1: Store, d: nat, idx: nat, slots: Slots, inUse: iset<Bytes>)
    requires d > 0 && Extends(h, s, s1) && PathIn(h, s1, d - 1, idx, slots)
    requires Sound(h, s1, inUse) && PathInUse(h, d, idx, slots, inUse)
    ensures var s2 := Insert(h, s1, CanonNode(h, d, Halve(d, idx), slots));
            Sound(h, s2, inUse) && Extends(h, s, s2) && PathIn(h, s2, d, idx, slots)
  {
    hide CanonNode, EmptyTable, NodeInUse, Sound, Insert;
    var n := CanonNode(h, d, Halve(d, idx), slots);
    var s2 := Insert(h, s1, n);
    InsertKeeps(h, s1, n, inUse);
    PathInGrows(h, s1, s2, d - 1, idx, slots);
    assert NodeIn(h, s2, d, idx, slots);
  }

  /** The bottom of the path: the leaf is written whether the slot was empty or taken. */
  lemma AddLeafBase(h: Hash, s: Store, idx: nat, slots: Slots, value: Bytes, inUse: iset<Bytes>)
    requires Hashable(value) && NodeIn(h, s, 0, idx, slots)
    requires Sound(h, s, inUse) && PathInUse(h, 0, idx, slots[idx := value], inUse)
    ensures Rewritten(h, s, AddLeaf(h, s, ZK_TRIE_DEPTH + 1, Canon(h, 0, Halve(0, idx), slots),
                                    LeafPath(idx), value), 0, idx, slots[idx := value], inUse)
  {
    hide NodeInUse, Sound, EmptyTable;
    var rest := LeafPath(idx)[ZK_TRIE_DEPTH + 1..];
    assert rest == [VALUE_LEAF];
    if idx in slots {
      PrefixLenUnique([VALUE_LEAF], rest, 1);
    }
    var n := CanonNode(h, 0, Halve(0, idx), slots[idx := value]);
    assert AddLeaf(h, s, ZK_TRIE_DEPTH + 1, Canon(h, 0, idx, slots), LeafPath(idx), value)
        == DbAdd(h, s, n);
    InsertKeeps(h, s, n, inUse);
  }

  lemma RemoveLeafBase(h: Hash, s: Store, idx: nat, slots: Slots, inUse: iset<Bytes>)
    requires Sound(h, s, inUse) && NodeIn(h, s, 0, idx, slots)
    ensures Rewritten(h, s, RemoveLeaf(h, s, ZK_TRIE_DEPTH + 1, Canon(h, 0, Halve(0, idx), slots),
                                       LeafPath(idx)), 0, idx, slots - {idx}, inUse)
  {
    EmptyLeafKnown(h, s, inUse);
    hide Sound, Lookup, LeafPath;
    assert NodeIn(h, s, 0, idx, slots - {idx});
  }

  lemma EmptyLeafKnown(h: Hash, s: Store, inUse: iset<Bytes>)
    requires Sound(h, s, inUse)
    ensures Lookup(h, s, 0) == Some(EmptyLeaf)
  {
    EmptyIsSound(h, inUse);
    hide Sound, EmptyTable;
    assert EmptyRoot(h, 0) == 0 && EmptyNode(h, 0) == EmptyLeaf;
  }

  /** One step of either recursion: the ancestor of `idx` is rebuilt around what comes from below. */
  lemma AddLeafStep(h: Hash, s: Store, d: nat, idx: nat, slots: Slots, value: Bytes, below: Update)
    requires 1 <= d <= ZK_TRIE_DEPTH && NodeIn(h, s, d, idx, slots)
    requires below == AddLeaf(h, s, ZK_TRIE_DEPTH + 2 - d, Canon(h, d - 1, Halve(d - 1, idx), slots),
                              LeafPath(idx), value)
    ensures AddLeaf(h, s, ZK_TRIE_DEPTH + 1 - d, Canon(h, d, Halve(d, idx), slots), LeafPath(idx), value)
         == Rebuild(h, CanonNode(h, d, Halve(d, idx), slots), LeafPath(idx)[ZK_TRIE_DEPTH + 1 - d], below)
  {
    PathByte(idx, d);
  }

  lemma RemoveLeafStep(h: Hash, s: Store, d: nat, idx: nat, slots: Slots, below: Update)
    requires 1 <= d <= ZK_TRIE_DEPTH && NodeIn(h, s, d, idx, slots)
    requires below == RemoveLeaf(h, s, ZK_TRIE_DEPTH + 2 - d,
                                 Canon(h, d - 1, Halve(d - 1, idx), slots), LeafPath(idx))
    ensures RemoveLeaf(h, s, ZK_TRIE_DEPTH + 1 - d, Canon(h, d, Halve(d, idx), slots), LeafPath(idx))
         == Rebuild(h, CanonNode(h, d, Halve(d, idx), slots), LeafPath(idx)[ZK_TRIE_DEPTH + 1 - d], below)
  {
    PathByte(idx, d);
  }

  /** Adding a leaf along a resolved path yields the canonical root of the updated slots. */
  lemma {:induction false} AddLeafIsUpdate(h: Hash, s: Store, d: nat, idx: nat, slots: Slots,
                                           value: Bytes, inUse: iset<Bytes>)
    requires d <= ZK_TRIE_DEPTH && Hashable(value) && PathIn(h, s, d, idx, slots)
    requires Sound(h, s, inUse) && PathInUse(h, d, idx, slots[idx := value], inUse)
    ensures Rewritten(h, s, AddLeaf(h, s, ZK_TRIE_DEPTH + 1 - d, Canon(h, d, Halve(d, idx), slots),
                                    LeafPath(idx), value), d, idx, slots[idx := value], inUse)
  {
    hide AddLeaf, Rewritten, NodeIn, CanonNode, Canon, Sound, NodeInUse;
    assert NodeIn(h, s, d, idx, slots);
    if d == 0 {
      AddLeafBase(h, s, idx, slots, value, inUse);
    } else {
      var below := AddLeaf(h, s, ZK_TRIE_DEPTH + 2 - d, Canon(h, d - 1, Halve(d - 1, idx), slots),
                           LeafPath(idx), value);
      AddLeafIsUpdate(h, s, d - 1, idx, slots, value, inUse);
      AddLeafStep(h, s, d, idx, slots, value, below);
      RewrittenUp(h, s, below, d, idx, slots, slots[idx := value], inUse);
    }
  }

  /** Removing a leaf along a resolved path yields the canonical root without that slot. */
  lemma {:induction false} RemoveLeafIsUpdate(h: Hash, s: Store, d: nat, idx: nat, slots: Slots,
                                              inUse: iset<Bytes>)
    requires d <= ZK_TRIE_DEPTH && PathIn(h, s, d, idx, slots)
    requires Sound(h, s, inUse) && PathInUse(h, d, idx, slots - {idx}, inUse)
    ensures Rewritten(h, s, RemoveLeaf(h, s, ZK_TRIE_DEPTH + 1 - d, Canon(h, d, Halve(d, idx), slots),
                                       LeafPath(idx)), d, idx, slots - {idx}, inUse)
  {
    hide RemoveLeaf, Rewritten, NodeIn, CanonNode, Canon, Sound, NodeInUse;
    assert NodeIn(h, s, d, idx, slots);
    if d == 0 {
      RemoveLeafBase(h, s, idx, slots, inUse);
    } else {
      var below := RemoveLeaf(h, s, ZK_TRIE_DEPTH + 2 - d,
                              Canon(h, d - 1, Halve(d - 1, idx), slots), LeafPath(idx));
      RemoveLeafIsUpdate(h, s, d - 1, idx, slots, inUse);
      RemoveLeafStep(h, s, d, idx, slots, below);
      RewrittenUp(h, s, below, d, idx, slots, slots - {idx}, inUse);
    }
  }

  lemma GetNodeStep(h: Hash, s: Store, d: nat, idx: nat, slots: Slots)
    requires 1 <= d <= ZK_TRIE_DEPTH && NodeIn(h, s, d, idx, slots)
    ensures GetNode(h, s, ZK_TRIE_DEPTH + 1 - d, Canon(h, d, Halve(d, idx), slots), LeafPath(idx))
         == GetNode(h, s, ZK_TRIE_DEPTH + 2 - d, Canon(h, d - 1, Halve(d - 1, idx), slots), LeafPath(idx))
  {
    PathByte(idx, d);
  }

  /** Reading along a resolved path finds exactly the slot's leaf, and never the level limit. */
  lemma {:induction false} GetNodeIsSlot(h: Hash, s: Store, d: nat, idx: nat, slots: Slots)
    requires d <= ZK_TRIE_DEPTH && PathIn(h, s, d, idx, slots)
    ensures GetNode(h, s, ZK_TRIE_DEPTH + 1 - d, Canon(h, d, Halve(d, idx), slots), LeafPath(idx))
         == Success(if idx in slots then Some(Leaf([VALUE_LEAF], slots[idx])) else None)
  {
    assert NodeIn(h, s, d, idx, slots);
    if d == 0 {
      assert LeafPath(idx)[ZK_TRIE_DEPTH + 1..] == [VALUE_LEAF];
    } else {
      hide GetNode, NodeIn, Canon, CanonNode, LeafPath, Halve;
      GetNodeStep(h, s, d, idx, slots);
      GetNodeIsSlot(h, s, d - 1, idx, slots);
    }
  }

  // ----- what the walks refuse -----

  /** On a store that resolves the path down to height `e` and no further, all three walks end in the same
      error, and no store comes back. */
  lemma {:induction false} MissingIsNoticed(h: Hash, s: Store, d: nat, e: nat, idx: nat, slots: Slots, value: Bytes)
    requires e <= d <= ZK_TRIE_DEPTH && Lookup(h, s, Canon(h, e, Halve(e, idx), slots)).None?
    requires forall f: nat | e < f <= d :: NodeIn(h, s, f, idx, slots)
    ensures AddLeaf(h, s, ZK_TRIE_DEPTH + 1 - d, Canon(h, d, Halve(d, idx), slots), LeafPath(idx), value)
         == Failed(NodeNotFound)
    ensures RemoveLeaf(h, s, ZK_TRIE_DEPTH + 1 - d, Canon(h, d, Halve(d, idx), slots), LeafPath(idx))
         == Failed(NodeNotFound)
    ensures GetNode(h, s, ZK_TRIE_DEPTH + 1 - d, Canon(h, d, Halve(d, idx), slots), LeafPath(idx))
         == Failure(NodeNotFound)
    decreases d
  {
    if d > e {
      hide AddLeaf, RemoveLeaf, GetNode, NodeIn, Canon, CanonNode, LeafPath, Halve, Lookup;
      assert NodeIn(h, s, d, idx, slots);
      MissingIsNoticed(h, s, d - 1, e, idx, slots, value);
      AddLeafStep(h, s, d, idx, slots, value, Failed(NodeNotFound));
      RemoveLeafStep(h, s, d, idx, slots, Failed(NodeNotFound));
      GetNodeStep(h, s, d, idx, slots);
    } else {
      hide EmptyTable, Canon, LeafPath, Halve;
    }
  }

  /** A leaf stored at another path stops an insertion; at its own it is overwritten, by a value that can be
      hashed. A counter leaf at another path panics. */
  lemma ForeignLeaf(h: Hash, s: Store, lvl: nat, current: Word, path: Bytes, value: Bytes, n: Node)
    requires lvl < ZK_TRIE_DEPTH + 2 && lvl <= |path| && Lookup(h, s, current) == Some(n)
    ensures n.Leaf? && !(n.path <= path[lvl..]) ==> AddLeaf(h, s, lvl, current, path, value) == Failed(PathNotAllow)
    ensures n.NextFree? && !(n.path <= path[lvl..]) ==> AddLeaf(h, s, lvl, current, path, value) == Failed(Panic)
    ensures n.EmptyLeaf? || ((n.Leaf? || n.NextFree?) && n.path <= path[lvl..]) ==>
              AddLeaf(h, s, lvl, current, path, value)
              == if !Hashable(value) then Failed(Panic)
                 else if path[lvl..] == [NEXT_FREE_LEAF] then DbAdd(h, s, NextFree([NEXT_FREE_LEAF], value))
                 else DbAdd(h, s, Leaf(path[lvl..], value))
  {
    hide Lookup, Insert;
    if (n.Leaf? || n.NextFree?) && n.path <= path[lvl..] {
      PrefixLenUnique(n.path, path[lvl..], |n.path|);
    }
  }

  /** Reading finds a leaf at its own path only; elsewhere there is none, and a counter leaf panics. */
  lemma ReadsOwnLeaf(h: Hash, s: Store, lvl: nat, current: Word, path: Bytes, n: Node)
    requires lvl < ZK_TRIE_DEPTH + 2 && lvl <= |path| && Lookup(h, s, current) == Some(n) && !n.Branch?
    ensures GetNode(h, s, lvl, current, path) ==
              if n.EmptyLeaf? then Success(None)
              else if n.path == path[lvl..] then Success(Some(n))
              else if n.Leaf? then Success(None) else Failure(Panic)
  {
    hide Lookup;
  }

  /** A walk that runs out of path panics, whatever node it is at. */
  lemma ShortPathPanics(h: Hash, s: Store, lvl: nat, current: Word, path: Bytes, value: Bytes)
    requires lvl < ZK_TRIE_DEPTH + 2 && Lookup(h, s, current).Some?
    ensures Lookup(h, s, current).value.Branch? && lvl >= |path| ==>
              && AddLeaf(h, s, lvl, current, path, value) == Failed(Panic)
              && RemoveLeaf(h, s, lvl, current, path) == Failed(Panic)
              && GetNode(h, s, lvl, current, path) == Failure(Panic)
    ensures lvl > |path| ==> AddLeaf(h, s, lvl, current, path, value) == Failed(Panic)
    ensures lvl > |path| && !Lookup(h, s, current).value.EmptyLeaf? ==>
              GetNode(h, s, lvl, current, path) == Failure(Panic)
  {
    hide Lookup, Insert;
  }

  /** Branches all the way: the keys a walk meets from level `lvl` down to the level limit. */
  ghost predicate AllBranches(h: Hash, s: Store, path: Bytes, keys: seq<Word>) {
    && |path| == |keys| == ZK_TRIE_DEPTH + 2
    && forall i | 0 <= i < |keys| :: BranchAt(h, s, path, keys, i)
  }

  ghost predicate BranchAt(h: Hash, s: Store, path: Bytes, keys: seq<Word>, i: nat)
    requires i < |path| && i < |keys|
  {
    && path[i] <= 1 && Lookup(h, s, keys[i]).Some? && Lookup(h, s, keys[i]).value.Branch?
    && (i + 1 < |keys| ==> Child(Lookup(h, s, keys[i]).value, path[i]) == keys[i + 1])
  }

  /** A walk that meets branches only is stopped at the level limit, after forty-two of them. */
  lemma {:induction false} TooDeepIsNoticed(h: Hash, s: Store, lvl: nat, path: Bytes, keys: seq<Word>, value: Bytes)
    requires AllBranches(h, s, path, keys) && lvl < |keys|
    ensures AddLeaf(h, s, lvl, keys[lvl], path, value) == Failed(ReachedMaxLevel)
    ensures RemoveLeaf(h, s, lvl, keys[lvl], path) == Failed(ReachedMaxLevel)
    ensures GetNode(h, s, lvl, keys[lvl], path) == Failure(ReachedMaxLevel)
    decreases |keys| - lvl
  {
    hide EmptyTable, Lookup;
    assert BranchAt(h, s, path, keys, lvl);
    if lvl + 1 < |keys| {
      TooDeepIsNoticed(h, s, lvl + 1, path, keys, value);
    }
  }

  // ----- canonicity, the other way round -----

  /** Every byte string hashed in the canonical tree. */
  ghost predicate TreeInUse(h: Hash, d: nat, lo: nat, slots: Slots, inUse: iset<Bytes>)
    decreases d, slots
  {
    if d == 0 then lo in slots ==> slots[lo] in inUse
    else
      && Preimage(CanonNode(h, d, lo, slots)) in inUse
      && TreeInUse(h, d - 1, 2 * lo, slots, inUse)
      && TreeInUse(h, d - 1, 2 * lo + 1, slots, inUse)
  }

  /** Every leaf has a size of its own. */
  predicate Sized(slots: Slots) {
    forall i | i in slots :: LeafSized(slots[i])
  }

  /** The nodes on one path are among those of the tree. */
  lemma {:induction false} TreePathInUse(h: Hash, d: nat, idx: nat, slots: Slots, inUse: iset<Bytes>)
    requires TreeInUse(h, d, Halve(d, idx), slots, inUse) && Sized(slots)
    ensures PathInUse(h, d, idx, slots, inUse)
    decreases d
  {
    hide Sized, LeafSized;
    if d == 0 {
      LeafInUse(h, idx, slots, inUse);
    } else {
      HalveStep(d - 1, idx);
      TreePathInUse(h, d - 1, idx, slots, inUse);
    }
  }

  lemma LeafInUse(h: Hash, lo: nat, slots: Slots, inUse: iset<Bytes>)
    requires (lo in slots ==> slots[lo] in inUse) && Sized(slots)
    ensures NodeInUse(CanonNode(h, 0, lo, slots), inUse)
  {
  }

  /** Without collisions, equal roots mean equal contents. */
  lemma {:induction false} RootDeterminesSlots(h: Hash, d: nat, lo: nat, a: Slots, b: Slots,
                                               inUse: iset<Bytes>)
    requires CollisionFree(h, inUse)
    requires TreeInUse(h, d, lo, a, inUse) && TreeInUse(h, d, lo, b, inUse)
    requires Canon(h, d, lo, a) == Canon(h, d, lo, b)
    ensures SameUnder(d, lo, a, b)
    decreases d
  {
    if d > 0 {
      var na, nb := CanonNode(h, d, lo, a), CanonNode(h, d, lo, b);
      assert Preimage(na) == Preimage(nb);
      Be32PairInjective(na.left, na.right, nb.left, nb.right);
      RootDeterminesSlots(h, d - 1, 2 * lo, a, b, inUse);
      RootDeterminesSlots(h, d - 1, 2 * lo + 1, a, b, inUse);
      forall i: nat | Halve(d, i) == lo
        ensures (i in a <==> i in b) && (i in a ==> a[i] == b[i])
      {
        HalveStep(d - 1, i);
        assert Halve(d - 1, i) == 2 * lo || Halve(d - 1, i) == 2 * lo + 1;
      }
    }
  }
}
